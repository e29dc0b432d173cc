/** The home currency: guess_home_currency's ordered fallback chain over
    the answers of its collaborators, the "defaults" section of the ini
    file, and the process-wide memo in front of both. */
module HomeCurrency {
  import opened Wrappers
  import opened Text

  /** Python truthiness of an optional string: present and not empty. */
  predicate Truthy(s: Option<string>)
  {
    s.Some? && s.value != ""
  }

  // ---------------------------------------------------------------------
  // The geobytes answer
  // ---------------------------------------------------------------------

  const CurrencyKey := "\"geobytescurrencycode\""

  predicate IsAsciiUpper(c: char)
  {
    'A' <= c <= 'Z'
  }

  /** The first position at or after i that is not whitespace (\s). */
  function SkipSpace(s: string, i: nat): (j: nat)
    requires i <= |s|
    ensures i <= j <= |s|
    ensures forall k :: i <= k < j ==> s[k] in Whitespace
    ensures j == |s| || s[j] !in Whitespace
    decreases |s| - i
  {
    if i < |s| && s[i] in Whitespace then SkipSpace(s, i + 1) else i
  }

  /** The pattern "geobytescurrencycode"\s*:\s*"([A-Z]{3})" matched at
      position i: the captured code, if it matches there. Whitespace is
      never ':' or '"', so the greedy \s* has one way to match. */
  function MatchAt(body: string, i: nat): (r: Option<string>)
    requires i <= |body|
    ensures r.Some? ==> |r.value| == 3 && forall k :: 0 <= k < 3 ==> IsAsciiUpper(r.value[k])
  {
    if !(i + |CurrencyKey| <= |body| && body[i..i + |CurrencyKey|] == CurrencyKey) then None
    else
      var j := SkipSpace(body, i + |CurrencyKey|);
      if !(j < |body| && body[j] == ':') then None
      else
        var k := SkipSpace(body, j + 1);
        if k + 5 <= |body| && body[k] == '"' && IsAsciiUpper(body[k + 1]) && IsAsciiUpper(body[k + 2])
           && IsAsciiUpper(body[k + 3]) && body[k + 4] == '"'
        then Some(body[k + 1..k + 4])
        else None
  }

  /** re.search from position i on: the capture of the leftmost match. */
  function SearchFrom(body: string, i: nat): (r: Option<string>)
    requires i <= |body|
    ensures r.None? <==> forall j :: i <= j <= |body| ==> MatchAt(body, j).None?
    ensures r.Some? ==> exists j :: i <= j <= |body| && MatchAt(body, j) == r
                           && forall k :: i <= k < j ==> MatchAt(body, k).None?
    decreases |body| - i
  {
    if MatchAt(body, i).Some? then MatchAt(body, i)
    else if i == |body| then None
    else SearchFrom(body, i + 1)
  }

  /** The currency code the geobytes reply names, if any. */
  function GeobytesCurrency(body: string): (r: Option<string>)
    ensures r.Some? ==> |r.value| == 3 && forall k :: 0 <= k < 3 ==> IsAsciiUpper(r.value[k])
  {
    SearchFrom(body, 0)
  }

  /** A reply that opens with the key, a colon and a quoted code yields
      that code, whatever follows. */
  lemma GeobytesLeading(code: string, rest: string)
    requires |code| == 3 && IsAsciiUpper(code[0]) && IsAsciiUpper(code[1]) && IsAsciiUpper(code[2])
    ensures GeobytesCurrency(CurrencyKey + ":\"" + code + "\"" + rest) == Some(code)
  {
    var body := CurrencyKey + ":\"" + code + "\"" + rest;
    var n := |CurrencyKey|;
    assert body[0..n] == CurrencyKey;
    assert SkipSpace(body, n) == n;
    assert SkipSpace(body, n + 1) == n + 1;
    assert body[n + 2..n + 5] == code;
  }

  // ---------------------------------------------------------------------
  // guess_home_currency
  // ---------------------------------------------------------------------

  /** The answers of guess_home_currency's collaborators, each either a
      value or an exception. */
  datatype Environment = Environment(
    externalIp: Outcome<Option<string>>,         // myip()
    hasCcy: bool,                                // import ccy succeeds
    hasGeoip: bool,                              // import geoip succeeds
    countryByIp: Outcome<Option<string>>,        // geoip.lookup_country_code(ext_ip)
    currencyByCountry: Outcome<Option<string>>,  // ccy.countryccy(c)
    online: bool,                                // inetcache.isonline
    geobytesBody: Outcome<string>,               // urlopen(...).read()
    localeSymbol: Outcome<string>)               // setlocale, then localeconv()['int_curr_symbol']

  /** ext_ip once the first try block is over: None when myip() raised. */
  function ExternalIp(env: Environment): Option<string>
  {
    if env.externalIp.Returned? then env.externalIp.value else None
  }

  /** What one strategy does: answer (the function returns this value),
      move on to the next strategy, or raise. */
  datatype Step = Answer(value: Option<string>) | Next | Fail

  /** Country by IP, then currency by country. Needs an address lookup
      that did not raise and both packages; any exception in the lookups
      is logged and the chain moves on. A truthy country commits to
      whatever countryccy returns, None included. */
  function GeoipStep(env: Environment): Step
  {
    if !(env.externalIp.Returned? && env.hasCcy && env.hasGeoip) then Next
    else if !(env.countryByIp.Returned? && Truthy(env.countryByIp.value)) then Next
    else if env.currencyByCountry.Raised? then Next
    else Answer(env.currencyByCountry.value)
  }

  /** The geobytes lookup: only with a truthy address while online; a
      failed request or a reply without a code moves on. */
  function GeobytesStep(env: Environment): Step
  {
    if !(Truthy(ExternalIp(env)) && env.online) then Next
    else if env.geobytesBody.Raised? then Next
    else if GeobytesCurrency(env.geobytesBody.value).None? then Next
    else Answer(GeobytesCurrency(env.geobytesBody.value))
  }

  /** The locale: setlocale may raise, which nothing catches; a non-empty
      int_curr_symbol is stripped, an empty one gives 'EUR'. */
  function LocaleStep(env: Environment): Step
  {
    match env.localeSymbol
    case Raised => Fail
    case Returned(sym) => Answer(Some(if sym != "" then Trim(sym, Whitespace) else "EUR"))
  }

  /** Runs strategies in order: the first answer is returned, a failure
      raises, and a chain that only moves on returns None. */
  function RunChain(steps: seq<Step>): Outcome<Option<string>>
  {
    if steps == [] then Returned(None)
    else match steps[0]
      case Answer(v) => Returned(v)
      case Fail => Raised
      case Next => RunChain(steps[1..])
  }

  /** guess_home_currency() */
  function GuessHomeCurrency(env: Environment): Outcome<Option<string>>
  {
    var ip := ExternalIp(env);
    if env.externalIp.Returned? && env.hasCcy && env.hasGeoip
       && env.countryByIp.Returned? && Truthy(env.countryByIp.value)
       && env.currencyByCountry.Returned?
    then Returned(env.currencyByCountry.value)
    else if Truthy(ip) && env.online && env.geobytesBody.Returned?
            && GeobytesCurrency(env.geobytesBody.value).Some?
    then Returned(GeobytesCurrency(env.geobytesBody.value))
    else if env.localeSymbol.Raised? then Raised
    else if env.localeSymbol.value != "" then Returned(Some(Trim(env.localeSymbol.value, Whitespace)))
    else Returned(Some("EUR"))
  }

  /** The guess is the chain geoip/ccy, then geobytes, then the locale. */
  lemma GuessIsChain(env: Environment)
    ensures GuessHomeCurrency(env) == RunChain([GeoipStep(env), GeobytesStep(env), LocaleStep(env)])
  {
    var steps := [GeoipStep(env), GeobytesStep(env), LocaleStep(env)];
    assert steps[1..] == [GeobytesStep(env), LocaleStep(env)];
    assert steps[1..][1..] == [LocaleStep(env)];
    assert RunChain([LocaleStep(env)]) == (if LocaleStep(env).Answer? then Returned(LocaleStep(env).value) else Raised);
    assert RunChain(steps[1..]) == (if GeobytesStep(env).Answer? then Returned(GeobytesStep(env).value)
                                   else RunChain([LocaleStep(env)]));
  }

  /** The geobytes reply is consulted only with a truthy address while
      online: otherwise any other reply gives the same guess. */
  lemma GeobytesNeedsIpAndOnline(env: Environment, body: Outcome<string>)
    requires !(Truthy(ExternalIp(env)) && env.online)
    ensures GuessHomeCurrency(env.(geobytesBody := body)) == GuessHomeCurrency(env)
  {
  }

  /** Once the country lookup commits, later strategies do not matter,
      and a None from countryccy is returned as is. */
  lemma GeoipCommits(env: Environment, other: Environment)
    requires GeoipStep(env).Answer?
    requires other == env.(online := other.online, geobytesBody := other.geobytesBody,
                           localeSymbol := other.localeSymbol)
    ensures GuessHomeCurrency(other) == GuessHomeCurrency(env) == Returned(env.currencyByCountry.value)
  {
  }

  /** When no strategy before the locale answers, an empty int_curr_symbol
      gives 'EUR'. */
  lemma LocaleDefault(env: Environment)
    requires GeoipStep(env) == Next && GeobytesStep(env) == Next
    requires env.localeSymbol == Returned("")
    ensures GuessHomeCurrency(env) == Returned(Some("EUR"))
  {
    GuessIsChain(env);
  }

  // ---------------------------------------------------------------------
  // The ini file
  // ---------------------------------------------------------------------

  /** The parsed ini file: the DEFAULT section and the named sections,
      option names already lower-cased as the parser stores them. */
  datatype Config = Config(defaults: map<string, string>, sections: map<string, map<string, string>>)

  const Section := "defaults"
  const Option := "home_currency"

  /** config.has_section("defaults") and config.has_option("defaults",
      "home_currency"), then config.get(...): an option of the section, or
      else the DEFAULT section's, once the section exists. */
  function ConfiguredHome(cfg: Config): (r: Option<string>)
    ensures r.Some? <==> Section in cfg.sections
                         && (Option in cfg.sections[Section] || Option in cfg.defaults)
  {
    if Section !in cfg.sections then None
    else if Option in cfg.sections[Section] then Some(cfg.sections[Section][Option])
    else if Option in cfg.defaults then Some(cfg.defaults[Option])
    else None
  }

  /** The file set_home_currency writes: the section added if missing and
      the option set in it. */
  function WithHomeCurrency(cfg: Config, curr: string): (r: Config)
    ensures r.defaults == cfg.defaults
    ensures r.sections.Keys == cfg.sections.Keys + {Section}
  {
    var section := if Section in cfg.sections then cfg.sections[Section] else map[];
    Config(cfg.defaults, cfg.sections[Section := section[Option := curr]])
  }

  /** What is written is what get_home_currency reads back. */
  lemma ReadAfterWrite(cfg: Config, curr: string)
    ensures ConfiguredHome(WithHomeCurrency(cfg, curr)) == Some(curr)
  {
  }

  /** Writing touches only the one option: other sections and the other
      options of "defaults" keep their values. */
  lemma WriteKeepsOthers(cfg: Config, curr: string)
    ensures forall s :: s in cfg.sections && s != Section ==>
      WithHomeCurrency(cfg, curr).sections[s] == cfg.sections[s]
    ensures Section in cfg.sections ==>
      forall o :: o in cfg.sections[Section] && o != Option ==>
        o in WithHomeCurrency(cfg, curr).sections[Section]
        && WithHomeCurrency(cfg, curr).sections[Section][o] == cfg.sections[Section][o]
  {
  }

  /** Writing twice is writing the second value once. */
  lemma WriteTwice(cfg: Config, a: string, b: string)
    ensures WithHomeCurrency(WithHomeCurrency(cfg, a), b) == WithHomeCurrency(cfg, b)
  {
    var once := WithHomeCurrency(cfg, a);
    assert once.sections[Section][Option := b]
        == (if Section in cfg.sections then cfg.sections[Section] else map[])[Option := b];
    assert once.sections[Section := once.sections[Section][Option := b]]
        == cfg.sections[Section := (if Section in cfg.sections then cfg.sections[Section] else map[])[Option := b]];
  }

  // ---------------------------------------------------------------------
  // The memo
  // ---------------------------------------------------------------------

  /** Globals.HOME_CURRENCY and the ini file it is read from and written to. */
  class HomeCurrencyStore {
    var memo: Option<string>
    var config: Config

    constructor (config: Config)
      ensures this.memo == None && this.config == config
    {
      this.memo := None;
      this.config := config;
    }

    /** set_home_currency(curr): the memo is set first; then the file is
        rewritten, and a failure to write (a directory that cannot be
        made, a file that cannot be opened) raises, leaving the file as
        it was. */
    method SetHomeCurrency(curr: string, writeOk: bool) returns (raised: bool)
      modifies this
      ensures memo == Some(curr)
      ensures config == if writeOk then WithHomeCurrency(old(config), curr) else old(config)
      ensures raised == !writeOk
    {
      memo := Some(curr);
      if writeOk {
        config := WithHomeCurrency(config, curr);
      }
      raised := !writeOk;
    }

    /** get_home_currency(): the memo once set; else the configured value,
        memoized without writing; else the guess, written back only when
        truthy and memoized (a None guess leaves the memo unset, so the
        next call looks again). An exception from the guess or from the
        write escapes; the write's leaves the memo already set. */
    method GetHomeCurrency(env: Environment, writeOk: bool) returns (r: Outcome<Option<string>>)
      modifies this
      ensures old(memo).Some? ==> r == Returned(old(memo)) && memo == old(memo) && config == old(config)
      ensures old(memo).None? && ConfiguredHome(old(config)).Some? ==>
        r == Returned(ConfiguredHome(old(config))) && memo == ConfiguredHome(old(config))
        && config == old(config)
      ensures old(memo).None? && ConfiguredHome(old(config)).None? && GuessHomeCurrency(env).Raised? ==>
        r == Raised && memo == old(memo) && config == old(config)
      ensures old(memo).None? && ConfiguredHome(old(config)).None? && GuessHomeCurrency(env).Returned? ==>
        var hc := GuessHomeCurrency(env).value;
        memo == hc
        && (Truthy(hc) ==> config == (if writeOk then WithHomeCurrency(old(config), hc.value) else old(config))
                           && r == (if writeOk then Returned(hc) else Raised))
        && (!Truthy(hc) ==> config == old(config) && r == Returned(hc))
      ensures r.Returned? ==> r.value == memo
    {
      if memo.Some? {
        return Returned(memo);
      }
      var configured := ConfiguredHome(config);
      if configured.Some? {
        memo := configured;
        return Returned(memo);
      }
      var guess := GuessHomeCurrency(env);
      if guess.Raised? {
        return Raised;
      }
      var hc := guess.value;
      if Truthy(hc) {
        var raised := SetHomeCurrency(hc.value, writeOk);
        if raised {
          return Raised;
        }
      }
      memo := hc;
      r := Returned(memo);
    }
  }
}
