/** The ExchangeRates object: the table of rates keyed by currency
    symbol, its reload from the rates file, the file-watcher filter that
    triggers reloads, and is_supported_currency. */
module RateTable {
  import opened Wrappers
  import opened Text
  import opened RateParser

  /** What reading the rates file gives: the lines delivered before any
      error, whether opening or reading then raised (an open failure is no
      lines and readFails), and what os.path.getmtime returns. */
  datatype RatesFile = RatesFile(lines: seq<string>, readFails: bool, mtime: Outcome<real>)

  /** What parse_rate gave for one line. */
  type Entry = Option<(string, RateRecord)>

  /** The test `if symbol and definition` in parse_rates_file: the line
      parsed and its symbol is not empty. */
  predicate Accepts(e: Entry)
  {
    e.Some? && e.value.0 != ""
  }

  /** A line whose unquoted code has at most three characters parses to
      the empty symbol, so `if symbol and definition` skips it: it is
      neither stored nor counted. */
  lemma ShortCodeSkipped(parseFloat: FloatParser, line: string)
    requires |Fields(line)| >= 1 && |Unquote(Fields(line)[0])| <= 3
    ensures !Accepts(ParseRate(parseFloat, line))
  {
    SymbolOfCode(Unquote(Fields(line)[0]));
  }

  /** parse_rate applied to every line. */
  function ParseAll(parseFloat: FloatParser, lines: seq<string>): (r: seq<Entry>)
    ensures |r| == |lines|
  {
    if lines == [] then []
    else ParseAll(parseFloat, lines[..|lines| - 1]) + [ParseRate(parseFloat, lines[|lines| - 1])]
  }

  lemma {:induction false} ParseAllAt(parseFloat: FloatParser, lines: seq<string>, i: nat)
    requires i < |lines|
    ensures ParseAll(parseFloat, lines)[i] == ParseRate(parseFloat, lines[i])
  {
    if i < |lines| - 1 {
      ParseAllAt(parseFloat, lines[..|lines| - 1], i);
    }
  }

  lemma ParseAllPrefix(parseFloat: FloatParser, lines: seq<string>, i: nat)
    requires i <= |lines|
    ensures ParseAll(parseFloat, lines)[..i] == ParseAll(parseFloat, lines[..i])
  {
    var a := ParseAll(parseFloat, lines)[..i];
    var b := ParseAll(parseFloat, lines[..i]);
    forall k | 0 <= k < i
      ensures a[k] == b[k]
    {
      ParseAllAt(parseFloat, lines, k);
      ParseAllAt(parseFloat, lines[..i], k);
    }
  }

  /** The table after upserting every accepted entry, in order. */
  function Upserted(table: map<string, RateRecord>, entries: seq<Entry>): map<string, RateRecord>
  {
    if entries == [] then table
    else
      var before := Upserted(table, entries[..|entries| - 1]);
      var last := entries[|entries| - 1];
      if Accepts(last) then before[last.value.0 := last.value.1] else before
  }

  /** The number of accepted entries: the `updates` counter. */
  function AcceptedCount(entries: seq<Entry>): nat
  {
    if entries == [] then 0
    else
      AcceptedCount(entries[..|entries| - 1]) + (if Accepts(entries[|entries| - 1]) then 1 else 0)
  }

  /** The prefix one longer is the prefix and the next element. */
  lemma PrefixSnoc(entries: seq<Entry>, i: nat)
    requires i < |entries|
    ensures entries[..i + 1] == entries[..i] + [entries[i]]
  {
  }

  /** One more entry: Upserted and AcceptedCount take one step. */
  lemma UpsertedSnoc(table: map<string, RateRecord>, entries: seq<Entry>, e: Entry)
    ensures Upserted(table, entries + [e])
      == if Accepts(e) then Upserted(table, entries)[e.value.0 := e.value.1] else Upserted(table, entries)
    ensures AcceptedCount(entries + [e]) == AcceptedCount(entries) + if Accepts(e) then 1 else 0
  {
    assert (entries + [e])[..|entries|] == entries;
  }

  /** Some entry is accepted with symbol `symbol`. */
  predicate Mentions(entries: seq<Entry>, symbol: string)
  {
    exists i :: 0 <= i < |entries| && Accepts(entries[i]) && entries[i].value.0 == symbol
  }

  lemma MentionsPrefix(entries: seq<Entry>, symbol: string)
    requires entries != []
    ensures Mentions(entries, symbol) <==>
      Mentions(entries[..|entries| - 1], symbol)
      || (Accepts(entries[|entries| - 1]) && entries[|entries| - 1].value.0 == symbol)
  {
    var init := entries[..|entries| - 1];
    if Mentions(entries, symbol) {
      var i :| 0 <= i < |entries| && Accepts(entries[i]) && entries[i].value.0 == symbol;
      if i < |init| {
        assert init[i] == entries[i];
      }
    }
    if Mentions(init, symbol) {
      var i :| 0 <= i < |init| && Accepts(init[i]) && init[i].value.0 == symbol;
      assert entries[i] == init[i];
    }
  }

  /** A reload adds the symbols of accepted lines and removes nothing. */
  lemma {:induction false} UpsertedKeys(table: map<string, RateRecord>, entries: seq<Entry>, symbol: string)
    ensures symbol in Upserted(table, entries) <==> symbol in table || Mentions(entries, symbol)
  {
    if entries != [] {
      UpsertedKeys(table, entries[..|entries| - 1], symbol);
      MentionsPrefix(entries, symbol);
    }
  }

  /** A symbol no accepted line mentions keeps its old record, or stays absent. */
  lemma {:induction false} UpsertedUntouched(table: map<string, RateRecord>, entries: seq<Entry>, symbol: string)
    requires !Mentions(entries, symbol)
    ensures symbol in Upserted(table, entries) <==> symbol in table
    ensures symbol in table ==> Upserted(table, entries)[symbol] == table[symbol]
  {
    if entries != [] {
      MentionsPrefix(entries, symbol);
      UpsertedUntouched(table, entries[..|entries| - 1], symbol);
    }
  }

  /** A symbol an accepted line mentions holds the record of the last such line. */
  lemma {:induction false} UpsertedLastWins(table: map<string, RateRecord>, entries: seq<Entry>, i: nat)
    requires i < |entries| && Accepts(entries[i])
    requires !Mentions(entries[i + 1..], entries[i].value.0)
    ensures var (symbol, rec) := entries[i].value;
      symbol in Upserted(table, entries) && Upserted(table, entries)[symbol] == rec
    decreases |entries|
  {
    var symbol := entries[i].value.0;
    var init := entries[..|entries| - 1];
    if i < |entries| - 1 {
      var later := entries[i + 1..];
      MentionsPrefix(later, symbol);
      assert later[..|later| - 1] == init[i + 1..];
      assert later[|later| - 1] == entries[|entries| - 1];
      UpsertedLastWins(table, init, i);
    }
  }

  /** Upper-case keys stay upper case when every accepted symbol is. */
  lemma {:induction false} UpsertedUpperKeys(table: map<string, RateRecord>, entries: seq<Entry>)
    requires forall k :: k in table ==> IsUpperString(k)
    requires forall i :: 0 <= i < |entries| && entries[i].Some? ==> IsUpperString(entries[i].value.0)
    ensures forall k :: k in Upserted(table, entries) ==> IsUpperString(k)
  {
    if entries != [] {
      UpsertedUpperKeys(table, entries[..|entries| - 1]);
    }
  }

  /** parse_rate upper-cases every symbol it returns. */
  lemma ParsedSymbolsUpper(parseFloat: FloatParser, lines: seq<string>, entries: seq<Entry>)
    requires entries == ParseAll(parseFloat, lines)
    ensures forall i :: 0 <= i < |entries| && entries[i].Some? ==> IsUpperString(entries[i].value.0)
  {
    forall i | 0 <= i < |entries| && entries[i].Some?
      ensures IsUpperString(entries[i].value.0)
    {
      ParseAllAt(parseFloat, lines, i);
      ParseRateResult(parseFloat, lines[i]);
    }
  }

  /** A parsed symbol is upper case. */
  lemma SymbolUpper(parseFloat: FloatParser, line: string, e: Entry)
    requires e == ParseRate(parseFloat, line) && e.Some?
    ensures IsUpperString(e.value.0)
  {
    ParseRateResult(parseFloat, line);
  }

  /** is_supported_currency: false for None and for the empty string,
      otherwise whether the upper-cased code is a key of the table. */
  predicate IsSupportedCurrency(table: map<string, RateRecord>, iso: Option<string>)
  {
    iso.Some? && iso.value != "" && Upper(iso.value) in table
  }

  /** On a table whose keys are upper case (as every reload keeps it), a
      code is supported exactly when it names a key ignoring case. */
  lemma SupportedIgnoresCase(table: map<string, RateRecord>, iso: string)
    requires forall k :: k in table ==> IsUpperString(k)
    ensures IsSupportedCurrency(table, Some(iso)) <==> iso != "" && Upper(iso) in table
    ensures iso in table && iso != "" ==> IsSupportedCurrency(table, Some(iso))
    ensures IsSupportedCurrency(table, Some(iso)) == IsSupportedCurrency(table, Some(Upper(iso)))
  {
    if iso in table {
      UpperOfUpper(iso);
    }
    assert Upper(Upper(iso)) == Upper(iso) by {
      UpperOfUpper(Upper(iso));
    }
  }

  /** A watchdog event as _FileChangedEventHandler sees it. Only moves and
      creations are handled; every other kind of event is ignored. */
  datatype FileEvent =
    | Moved(isDirectory: bool, srcPath: string, destPath: string)
    | Created(isDirectory: bool, srcPath: string)
    | OtherEvent(isDirectory: bool, srcPath: string)

  /** Whether the handler runs its callback for an event: never for a
      directory; with a non-empty list of file names, a move when its
      destination and a creation when its path is in the list; with no
      list (None or empty), every move and creation. */
  predicate Fires(filenames: Option<seq<string>>, event: FileEvent)
  {
    var filtering := filenames.Some? && |filenames.value| > 0;
    match event
    case Moved(isDir, _, dest) => !isDir && (!filtering || dest in filenames.value)
    case Created(isDir, src) => !isDir && (!filtering || src in filenames.value)
    case OtherEvent(_, _) => false
  }

  /** The cases of Fires spelled out: what makes the reload run. */
  lemma FiresCases(filenames: Option<seq<string>>, event: FileEvent)
    ensures event.isDirectory ==> !Fires(filenames, event)
    ensures event.OtherEvent? ==> !Fires(filenames, event)
    ensures (filenames.None? || filenames == Some([])) && !event.isDirectory && !event.OtherEvent?
      ==> Fires(filenames, event)
    ensures event.Moved? && filenames.Some? && !event.isDirectory ==>
      (Fires(filenames, event) <==> filenames.value == [] || event.destPath in filenames.value)
    ensures event.Created? && filenames.Some? && !event.isDirectory ==>
      (Fires(filenames, event) <==> filenames.value == [] || event.srcPath in filenames.value)
  {
  }

  /** The exchange-rate table. */
  class ExchangeRates {
    /** exchange_rates: symbol to record. */
    var rates: map<string, RateRecord>
    /** updated_on: the file's modification time at the last reload that
        accepted a line. */
    var updatedOn: real
    /** The file names given to the watcher: the rates file alone. */
    const watched: seq<string>

    /** The symbols are upper case: parse_rate upper-cases them. */
    ghost predicate Valid()
      reads this
    {
      forall k :: k in rates ==> IsUpperString(k)
    }

    /** __init__: an empty table with updated_on 0, then one reload from the
        rates file; the watcher is registered for that file alone. */
    constructor (ratesPath: string, file: RatesFile, parseFloat: FloatParser)
      ensures Valid() && watched == [ratesPath]
      ensures rates == Upserted(map[], ParseAll(parseFloat, file.lines))
      ensures updatedOn == if ReloadStamps(parseFloat, file) then file.mtime.value else 0.0
    {
      rates := map[];
      updatedOn := 0.0;
      watched := [ratesPath];
      new;
      var _ := ParseRatesFile(file, parseFloat);
    }

    /** Whether a reload moves updated_on: no read error, at least one
        accepted line, and a modification time to read. */
    static predicate ReloadStamps(parseFloat: FloatParser, file: RatesFile)
    {
      !file.readFails && AcceptedCount(ParseAll(parseFloat, file.lines)) > 0 && file.mtime.Returned?
    }

    /** One step of that loop: `if symbol and definition` stores the
        record under its symbol and reports that it counted. */
    method Upsert(e: Entry) returns (accepted: bool)
      requires Valid() && (e.Some? ==> IsUpperString(e.value.0))
      modifies this`rates
      ensures Valid()
      ensures accepted == Accepts(e)
      ensures rates == if accepted then old(rates)[e.value.0 := e.value.1] else old(rates)
    {
      accepted := e.Some? && e.value.0 != "";
      if accepted {
        rates := rates[e.value.0 := e.value.1];
      }
    }

    /** parse_rate of line i, which is entries[i]; its symbol is upper case. */
    static method ParseLine(parseFloat: FloatParser, lines: seq<string>, i: nat, ghost entries: seq<Entry>)
      returns (e: Entry)
      requires i < |lines| && entries == ParseAll(parseFloat, lines)
      ensures e == entries[i] && (e.Some? ==> IsUpperString(e.value.0))
    {
      e := ParseRate(parseFloat, lines[i]);
      ParseAllAt(parseFloat, lines, i);
      if e.Some? {
        SymbolUpper(parseFloat, lines[i], e);
      }
    }

    /** The loop of parse_rates_file: every line is parsed in order, and
        each accepted one overwrites its symbol's record and is counted.
        entries[k] is what parse_rate gives for line k. */
    method UpsertLines(parseFloat: FloatParser, lines: seq<string>) returns (updates: nat)
      requires Valid()
      modifies this`rates
      ensures Valid()
      ensures rates == Upserted(old(rates), ParseAll(parseFloat, lines))
      ensures updates == AcceptedCount(ParseAll(parseFloat, lines))
    {
      ghost var entries := ParseAll(parseFloat, lines);
      ghost var done: seq<Entry> := [];
      updates := 0;
      var i := 0;
      while i < |lines|
        invariant 0 <= i <= |lines| && done == entries[..i]
        invariant rates == Upserted(old(rates), done)
        invariant updates == AcceptedCount(done)
        invariant Valid()
      {
        var parsed := ParseLine(parseFloat, lines, i, entries);
        UpsertedSnoc(old(rates), done, parsed);
        var accepted := Upsert(parsed);
        if accepted {
          updates := updates + 1;
        }
        PrefixSnoc(entries, i);
        done := done + [parsed];
        i := i + 1;
      }
      assert done == entries;
    }

    /** parse_rates_file. Every accepted line overwrites its symbol's
        record; nothing is removed. A read error is caught and leaves the
        upserts already made. After a clean read with at least one accepted
        line, updated_on becomes the file's modification time; if that
        lookup raises, the exception escapes (raised is true). */
    method ParseRatesFile(file: RatesFile, parseFloat: FloatParser) returns (raised: bool)
      requires Valid()
      modifies this`rates, this`updatedOn
      ensures Valid()
      ensures rates == Upserted(old(rates), ParseAll(parseFloat, file.lines))
      ensures updatedOn == if ReloadStamps(parseFloat, file) then file.mtime.value else old(updatedOn)
      ensures raised <==> !file.readFails && AcceptedCount(ParseAll(parseFloat, file.lines)) > 0
                          && file.mtime.Raised?
    {
      var updates := UpsertLines(parseFloat, file.lines);
      raised := false;
      if !file.readFails && updates > 0 {
        if file.mtime.Returned? {
          updatedOn := file.mtime.value;
        } else {
          raised := true;
        }
      }
    }

    /** rates_file_updated behind the watcher's filter: a matching event
        reloads the table and any exception is swallowed; any other event
        changes nothing. */
    method OnFileEvent(event: FileEvent, file: RatesFile, parseFloat: FloatParser) returns (fired: bool)
      requires Valid()
      modifies this`rates, this`updatedOn
      ensures Valid()
      ensures fired == Fires(Some(watched), event)
      ensures rates == if fired then Upserted(old(rates), ParseAll(parseFloat, file.lines)) else old(rates)
      ensures updatedOn == if fired && ReloadStamps(parseFloat, file) then file.mtime.value else old(updatedOn)
    {
      fired := Fires(Some(watched), event);
      if fired {
        var _ := ParseRatesFile(file, parseFloat);
      }
    }
  }
}
