/** ExchangeRates.parse_rate: one line "code,rate,bid,offer,date,time" of
    the rates file to a symbol and its rate record. */
module RateParser {
  import opened Wrappers
  import opened Text
  import opened Calendar

  /** float() applied to a field: the value, or None for the ValueError it
      raises. Binary floating point is not modelled, so the parser is a
      parameter. */
  type FloatParser = string -> Option<real>

  /** The dictionary parse_rate stores for a symbol: name, rate, updated. */
  datatype RateRecord = RateRecord(name: string, rate: real, updated: Option<DateTime>)

  const NotAvailable := "N/A"

  /** s.strip("\"") */
  function Unquote(s: string): string
  {
    Trim(s, {'"'})
  }

  /** Hour and minute of a time field "H:MMam" or "H:MMpm" once unquoted;
      None where Python raises. The hour moves to the afternoon only for
      "pm" below 12; the minute is int() of all but the last two characters,
      whatever those are. */
  function ParseClock(t: string): Option<(int, int)>
  {
    var hm := Split(t, ':');
    if |hm| != 2 then None
    else
      match (ParseInt(hm[0]), ParseInt(DropLastTwo(hm[1])))
      case (Some(h), Some(m)) =>
        Some((if EndsWith(hm[1], "pm") && h < 12 then h + 12 else h, m))
      case _ => None
  }

  /** The "updated" value of a date field and a time field: Some(None) when
      the date is N/A, Some(Some(t)) for a timestamp, and None for every
      case where Python raises (a malformed date, a time of N/A after a
      real date since hour and minute are then unbound, a malformed time,
      or components datetime() rejects). */
  function ParseUpdated(dateField: string, timeField: string): Option<Option<DateTime>>
  {
    var d := Unquote(dateField);
    if d == NotAvailable then Some(None)
    else
      var parts := Split(d, '/');
      if |parts| != 3 then None
      else
        match (ParseInt(parts[0]), ParseInt(parts[1]), ParseInt(parts[2]))
        case (Some(month), Some(day), Some(year)) =>
          var t := Unquote(timeField);
          if t == NotAvailable then None
          else (
            match ParseClock(t)
            case None => None
            case Some((hour, minute)) =>
              var st := Stamp(year, month, day, hour, minute);
              if IsValidStamp(st) then Some(Some(st)) else None)
        case _ => None
  }

  /** The fields of a line once surrounding whitespace is stripped. */
  function Fields(line: string): seq<string>
  {
    Split(Trim(line, Whitespace), ',')
  }

  /** parse_rate: Some((symbol, record)), or None for the (None, None) it
      returns after catching an exception. */
  function ParseRate(parseFloat: FloatParser, line: string): Option<(string, RateRecord)>
  {
    var fields := Fields(line);
    if |fields| != 6 then None
    else
      var symbol := Upper(Slice(Unquote(fields[0]), 3, 6));
      var rate := match parseFloat(fields[1]) case Some(r) => r case None => 0.0;
      match ParseUpdated(fields[4], fields[5])
      case None => None
      case Some(updated) => Some((symbol, RateRecord(symbol, rate, updated)))
  }

  /** A line is accepted exactly when it has six fields and its date and
      time do not make Python raise; the rate field never rejects it. */
  lemma ParseRateAccepts(parseFloat: FloatParser, line: string)
    ensures ParseRate(parseFloat, line).Some? <==>
      |Fields(line)| == 6 && ParseUpdated(Fields(line)[4], Fields(line)[5]).Some?
  {
  }

  /** Whether a line is accepted does not depend on how its rate field parses. */
  lemma AcceptanceIgnoresRate(p: FloatParser, q: FloatParser, line: string)
    ensures ParseRate(p, line).Some? == ParseRate(q, line).Some?
  {
  }

  /** What an accepted line yields: the symbol is characters 3 to 6 of the
      unquoted code, upper-cased (shorter, possibly empty, for a short
      code); the name is the symbol; an unparseable rate is 0.0; the
      timestamp is the one the date and time fields give. */
  lemma ParseRateResult(parseFloat: FloatParser, line: string)
    requires ParseRate(parseFloat, line).Some?
    ensures var (symbol, rec) := ParseRate(parseFloat, line).value;
      var fields := Fields(line);
      && symbol == Upper(Slice(Unquote(fields[0]), 3, 6))
      && |symbol| <= 3 && IsUpperString(symbol)
      && rec.name == symbol
      && rec.rate == (if parseFloat(fields[1]).Some? then parseFloat(fields[1]).value else 0.0)
      && Some(rec.updated) == ParseUpdated(fields[4], fields[5])
  {
  }

  /** The symbol code[3:6].upper() of an unquoted code: empty for a code
      of at most three characters, the upper-cased rest for four or five,
      and characters 3 to 6 upper-cased from six on. */
  lemma SymbolOfCode(code: string)
    ensures |code| <= 3 ==> Upper(Slice(code, 3, 6)) == ""
    ensures 3 <= |code| <= 6 ==> Upper(Slice(code, 3, 6)) == Upper(code[3..])
    ensures 6 <= |code| ==> Upper(Slice(code, 3, 6)) == Upper(code[3..6])
  {
  }

  /** The record a six-field line yields once its timestamp is known. */
  lemma ParseRateOfFields(parseFloat: FloatParser, line: string, updated: Option<DateTime>)
    requires |Fields(line)| == 6
    requires ParseUpdated(Fields(line)[4], Fields(line)[5]) == Some(updated)
    ensures var fields := Fields(line);
      var symbol := Upper(Slice(Unquote(fields[0]), 3, 6));
      var rate := if parseFloat(fields[1]).Some? then parseFloat(fields[1]).value else 0.0;
      ParseRate(parseFloat, line) == Some((symbol, RateRecord(symbol, rate, updated)))
  {
  }

  /** A date of N/A gives no timestamp, whatever the time field holds. */
  lemma DateNotAvailable(dateField: string, timeField: string)
    requires Unquote(dateField) == NotAvailable
    ensures ParseUpdated(dateField, timeField) == Some(None)
  {
  }

  /** A real date with a time of N/A raises (hour and minute are unbound). */
  lemma TimeNotAvailable(dateField: string, timeField: string)
    requires Unquote(dateField) != NotAvailable
    requires Unquote(timeField) == NotAvailable
    ensures ParseUpdated(dateField, timeField).None?
  {
  }

  /** A date that is not three integers separated by '/' raises. */
  lemma MalformedDate(dateField: string, timeField: string)
    requires Unquote(dateField) != NotAvailable
    requires var parts := Split(Unquote(dateField), '/');
      |parts| != 3 || ParseInt(parts[0]).None? || ParseInt(parts[1]).None? || ParseInt(parts[2]).None?
    ensures ParseUpdated(dateField, timeField).None?
  {
  }

  /** "pm" with an hour below 12 adds 12 to the hour. */
  lemma ClockAfternoon(hour: string, minute: string, h: int, m: int)
    requires ':' !in hour && ':' !in minute
    requires ParseInt(hour) == Some(h) && h < 12
    requires EndsWith(minute, "pm") && ParseInt(DropLastTwo(minute)) == Some(m)
    ensures ParseClock(hour + ":" + minute) == Some((h + 12, m))
  {
    ClockSplit(hour, minute);
    ClockOfParts(hour + ":" + minute, hour, minute, h, m);
  }

  /** "am", any other suffix, and "pm" from 12 on leave the hour as written
      (so "12am" is noon, not midnight). */
  lemma ClockAsWritten(hour: string, minute: string, h: int, m: int)
    requires ':' !in hour && ':' !in minute
    requires ParseInt(hour) == Some(h) && (h >= 12 || !EndsWith(minute, "pm"))
    requires ParseInt(DropLastTwo(minute)) == Some(m)
    ensures ParseClock(hour + ":" + minute) == Some((h, m))
  {
    ClockSplit(hour, minute);
    ClockOfParts(hour + ":" + minute, hour, minute, h, m);
  }

  /** An hour field "- 1" is int() -1, so with a "pm" minute it reads as
      11 in the morning: whitespace after the sign does not reject it. */
  lemma SignedHourClock(minute: string, m: int)
    requires ':' !in minute && EndsWith(minute, "pm")
    requires ParseInt(DropLastTwo(minute)) == Some(m)
    ensures ParseClock("- 1" + ":" + minute) == Some((11, m))
  {
    MinusSpaceOne();
    NoColonInMinusOne();
    ClockAfternoon("- 1", minute, -1, m);
  }

  lemma NoColonInMinusOne()
    ensures ':' !in "- 1"
  {
    assert "- 1" == ['-', ' ', '1'];
  }

  lemma ClockOfParts(t: string, hour: string, minute: string, h: int, m: int)
    requires Split(t, ':') == [hour, minute]
    requires ParseInt(hour) == Some(h) && ParseInt(DropLastTwo(minute)) == Some(m)
    ensures ParseClock(t) == Some((if EndsWith(minute, "pm") && h < 12 then h + 12 else h, m))
  {
  }

  lemma ClockSplit(hour: string, minute: string)
    requires ':' !in hour && ':' !in minute
    ensures Split(hour + ":" + minute, ':') == [hour, minute]
  {
    assert hour + ":" + minute == hour + [':'] + minute;
    SplitCons(hour, ':', minute);
  }

  /** A time field that is not exactly two parts around ':' raises. */
  lemma ClockMalformed(t: string)
    requires |Split(t, ':')| != 2
    ensures ParseClock(t).None?
  {
  }

  // ---------------------------------------------------------------------
  // Writing a line back: the inverse of ParseRate on well-formed lines.

  function Quote(s: string): string
  {
    "\"" + s + "\""
  }

  /** A date as the rates file writes it: MM/DD/YYYY. */
  function DateField(t: DateTime): string
  {
    ZeroPad(t.month, 2) + "/" + ZeroPad(t.day, 2) + "/" + ZeroPad(t.year, 4)
  }

  /** A time as the rates file writes it, on a 12-hour clock. Midnight to
      11:59 are written "am" with the 24-hour value (00:MMam), so that the
      parser, which leaves "am" hours alone, reads them back. */
  function TimeField(t: DateTime): string
  {
    var hour := if t.hour <= 12 then t.hour else t.hour - 12;
    ZeroPad(hour, 2) + ":" + ZeroPad(t.minute, 2) + (if t.hour < 12 then "am" else "pm")
  }

  /** A line of the rates file, with its newline. */
  function EncodeLine(code: string, rate: string, bid: string, offer: string,
                      updated: Option<DateTime>): string
  {
    var date := if updated.Some? then DateField(updated.value) else NotAvailable;
    var time := if updated.Some? then TimeField(updated.value) else NotAvailable;
    Join([Quote(code), rate, bid, offer, Quote(date), Quote(time)], ',') + "\n"
  }

  /** Stripping a line whose text starts and ends with a quote removes only its newline. */
  lemma TrimNewline(body: string)
    requires |body| > 0 && body[0] == '"' && body[|body| - 1] == '"'
    ensures Trim(body + "\n", Whitespace) == body
  {
    var line := body + "\n";
    assert TrimLeft(line, Whitespace) == line;
    assert line[..|line| - 1] == body;
  }

  lemma QuoteChars(s: string, c: char)
    requires c != '"' && c !in s
    ensures c !in Quote(s)
  {
  }

  lemma UnquoteQuote(s: string)
    requires '"' !in s
    ensures Unquote(Quote(s)) == s
  {
    var q := Quote(s);
    if s != [] {
      assert q[1..] == s + "\"";
      assert (s + "\"")[0] == s[0];
      assert TrimLeft(q, {'"'}) == s + "\"";
      assert (s + "\"")[..|s|] == s;
      assert TrimRight(s + "\"", {'"'}) == s;
    }
  }

  lemma DateFieldSplits(t: DateTime)
    ensures Split(DateField(t), '/') == [ZeroPad(t.month, 2), ZeroPad(t.day, 2), ZeroPad(t.year, 4)]
  {
    var mo, d, y := ZeroPad(t.month, 2), ZeroPad(t.day, 2), ZeroPad(t.year, 4);
    NoSeparatorInDigits(mo, '/');
    NoSeparatorInDigits(d, '/');
    NoSeparatorInDigits(y, '/');
    JoinCons(mo, [d, y], '/');
    JoinCons(d, [y], '/');
    assert [mo] + [d, y] == [mo, d, y] && [d] + [y] == [d, y];
    assert Join([mo, d, y], '/') == DateField(t);
    SplitJoin([mo, d, y], '/');
  }

  lemma DateFieldChars(t: DateTime)
    ensures '"' !in DateField(t) && ',' !in DateField(t) && DateField(t) != NotAvailable
  {
    var mo, d, y := ZeroPad(t.month, 2), ZeroPad(t.day, 2), ZeroPad(t.year, 4);
    NoSeparatorInDigits(mo, '"');
    NoSeparatorInDigits(d, '"');
    NoSeparatorInDigits(y, '"');
    NoSeparatorInDigits(mo, ',');
    NoSeparatorInDigits(d, ',');
    NoSeparatorInDigits(y, ',');
    assert DateField(t)[|mo|] == '/';
  }

  lemma TimeFieldReads(t: DateTime)
    ensures ParseClock(TimeField(t)) == Some((t.hour, t.minute))
    ensures '"' !in TimeField(t) && ',' !in TimeField(t) && TimeField(t) != NotAvailable
  {
    var mi := ZeroPad(t.minute, 2);
    var hour := if t.hour <= 12 then t.hour else t.hour - 12;
    var hh := ZeroPad(hour, 2);
    var suffix := if t.hour < 12 then "am" else "pm";
    var m := mi + suffix;
    assert TimeField(t) == hh + ":" + m;
    assert DropLastTwo(m) == mi;
    NoSeparatorInDigits(hh, ':');
    NoSeparatorInDigits(hh, '"');
    NoSeparatorInDigits(hh, ',');
    NoSeparatorInDigits(mi, ':');
    NoSeparatorInDigits(mi, '"');
    NoSeparatorInDigits(mi, ',');
    assert '"' !in suffix && ',' !in suffix && ':' !in suffix;
    assert '"' !in m && ',' !in m && ':' !in m;
    assert '"' !in hh + ":" + m && ',' !in hh + ":" + m;
    ParseIntZeroPad(t.minute, 2);
    ParseIntZeroPad(hour, 2);
    if t.hour <= 12 {
      ClockAsWritten(hh, m, t.hour, t.minute);
    } else {
      assert EndsWith(m, "pm");
      ClockAfternoon(hh, m, t.hour - 12, t.minute);
    }
    assert TimeField(t)[|hh|] == ':';
  }

  /** The date and time fields EncodeLine writes read back as the timestamp. */
  lemma ParseUpdatedEncoded(updated: Option<DateTime>)
    ensures var date := if updated.Some? then DateField(updated.value) else NotAvailable;
      var time := if updated.Some? then TimeField(updated.value) else NotAvailable;
      ParseUpdated(Quote(date), Quote(time)) == Some(updated)
  {
    if updated.Some? {
      var t := updated.value;
      DateFieldSplits(t);
      DateFieldChars(t);
      TimeFieldReads(t);
      UnquoteQuote(DateField(t));
      UnquoteQuote(TimeField(t));
      ParseIntZeroPad(t.month, 2);
      ParseIntZeroPad(t.day, 2);
      ParseIntZeroPad(t.year, 4);
    } else {
      UnquoteQuote(NotAvailable);
    }
  }

  /** The fields of a written line are what was written. */
  lemma EncodedFields(code: string, rate: string, bid: string, offer: string, updated: Option<DateTime>)
    requires '"' !in code && ',' !in code
    requires ',' !in rate && ',' !in bid && ',' !in offer
    ensures var date := if updated.Some? then DateField(updated.value) else NotAvailable;
      var time := if updated.Some? then TimeField(updated.value) else NotAvailable;
      Fields(EncodeLine(code, rate, bid, offer, updated))
        == [Quote(code), rate, bid, offer, Quote(date), Quote(time)]
  {
    var date := if updated.Some? then DateField(updated.value) else NotAvailable;
    var time := if updated.Some? then TimeField(updated.value) else NotAvailable;
    if updated.Some? {
      DateFieldChars(updated.value);
      TimeFieldReads(updated.value);
    }
    assert '"' !in date && ',' !in date && '"' !in time && ',' !in time;
    var parts := [Quote(code), rate, bid, offer, Quote(date), Quote(time)];
    var body := Join(parts, ',');
    var line := body + "\n";
    assert Trim(line, Whitespace) == body by {
      JoinEnds(parts, ',');
      TrimNewline(body);
    }
    assert Split(body, ',') == parts by {
      QuoteChars(code, ',');
      QuoteChars(date, ',');
      QuoteChars(time, ',');
      assert ',' !in parts[0] && ',' !in parts[1] && ',' !in parts[2];
      assert ',' !in parts[3] && ',' !in parts[4] && ',' !in parts[5];
      SplitJoin(parts, ',');
    }
  }

  /** A line written from a code, rate texts and a timestamp parses back
      to the symbol code[3:6], the rate its rate text parses to (0.0 if it
      does not), and the same timestamp. */
  lemma ParseEncodedLine(parseFloat: FloatParser, code: string, rate: string, bid: string,
                         offer: string, updated: Option<DateTime>)
    requires '"' !in code && ',' !in code
    requires ',' !in rate && ',' !in bid && ',' !in offer
    ensures var symbol := Upper(Slice(code, 3, 6));
      var value := if parseFloat(rate).Some? then parseFloat(rate).value else 0.0;
      ParseRate(parseFloat, EncodeLine(code, rate, bid, offer, updated))
        == Some((symbol, RateRecord(symbol, value, updated)))
  {
    EncodedFields(code, rate, bid, offer, updated);
    UnquoteQuote(code);
    ParseUpdatedEncoded(updated);
    ParseRateOfFields(parseFloat, EncodeLine(code, rate, bid, offer, updated), updated);
  }
}
