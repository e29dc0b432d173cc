/** currency(amount, from_curr, to_curr): triangulation through EUR over
    the rate table, the currencies whose rate is unknown, and the display
    expression with its freshness suffix. */
module Conversion {
  import opened Wrappers
  import opened Text
  import opened Calendar
  import opened RateParser

  /** RATES.exchange_rates */
  type Table = map<string, RateRecord>

  const Euro := "EUR"

  /** One unit of the fourth decimal place, and half of it. */
  const Tick: real := 1.0 / 10000.0
  const HalfTick: real := 1.0 / 20000.0

  function Abs(x: real): real
  {
    if x < 0.0 then -x else x
  }

  /** x has at most four decimal places. */
  predicate OnTick(x: real)
  {
    (x * 10000.0).Floor as real == x * 10000.0
  }

  // ---------------------------------------------------------------------
  // Rounding and number formatting
  // ---------------------------------------------------------------------

  /** The integer nearest to y, halves rounded away from zero. */
  function RoundHalfAway(y: real): (n: int)
    ensures y - 0.5 <= n as real <= y + 0.5
    ensures (y >= 0.0 ==> n >= 0) && (y <= 0.0 ==> n <= 0)
    ensures (n as real - y == 0.5 ==> y > 0.0) && (y - n as real == 0.5 ==> y < 0.0)
  {
    if y >= 0.0 then (y + 0.5).Floor else -((-y + 0.5).Floor)
  }

  /** round(x, 4) of Python 2 over exact reals: the nearest multiple of
      1/10000, halves rounded away from zero. */
  function Round4(x: real): (r: real)
    ensures x - HalfTick <= r <= x + HalfTick
    ensures OnTick(r)
    ensures (x >= 0.0 ==> r >= 0.0) && (x <= 0.0 ==> r <= 0.0)
  {
    var n := RoundHalfAway(x * 10000.0);
    assert n as real / 10000.0 * 10000.0 == n as real;
    n as real / 10000.0
  }

  /** Rounding is symmetric about zero. */
  lemma Round4Odd(x: real)
    ensures Round4(-x) == -Round4(x)
  {
    assert -x * 10000.0 == -(x * 10000.0);
    if x == 0.0 {
      assert -x == 0.0;
    }
  }

  /** A value already on a tick is left alone, so rounding is idempotent. */
  lemma Round4OnTick(x: real)
    requires OnTick(x)
    ensures Round4(x) == x
  {
    var n := (x * 10000.0).Floor;
    assert x * 10000.0 == n as real;
    assert RoundHalfAway(n as real) == n;
  }

  lemma Round4Idempotent(x: real)
    ensures Round4(Round4(x)) == Round4(x)
  {
    Round4OnTick(Round4(x));
  }

  /** A half is rounded away from zero on both sides. */
  lemma Round4Halves()
    ensures Round4(0.00005) == 0.0001
    ensures Round4(-0.00005) == -0.0001
    ensures Round4(0.00015) == 0.0002
  {
    assert RoundHalfAway(0.5) == 1;
    assert RoundHalfAway(-0.5) == -1;
    assert RoundHalfAway(1.5) == 2;
  }

  /** The integer nearest to y >= 0, ties going to the even one: the rule
      "%.4f" applies to the scaled value. */
  function RoundHalfEven(y: real): (n: int)
    requires y >= 0.0
    ensures n >= 0
    ensures y - 0.5 <= n as real <= y + 0.5
    ensures (n as real - y == 0.5 || y - n as real == 0.5) ==> n % 2 == 0
  {
    var f := y.Floor;
    var frac := y - f as real;
    if frac < 0.5 then f
    else if frac > 0.5 then f + 1
    else if f % 2 == 0 then f
    else f + 1
  }

  /** The digits "%.4f" prints for n ten-thousandths: the integer part,
      a point and four decimals. */
  function FixedDigits(n: nat): (r: string)
    ensures |r| >= 6 && r[|r| - 5] == '.'
    ensures forall i :: 0 <= i < |r| && i != |r| - 5 ==> IsDigit(r[i])
  {
    assert |ZeroPad(n % 10000, 4)| == 4 by {
      NatToStringLength(n % 10000);
    }
    NatToString(n / 10000) + "." + ZeroPad(n % 10000, 4)
  }

  /** The two parts of the fixed-point digits read back as the integer
      part and the fraction of n / 10000. */
  lemma FixedDigitsReads(n: nat)
    ensures var s := FixedDigits(n);
      ParseInt(s[..|s| - 5]) == Some(n / 10000) && ParseInt(s[|s| - 4..]) == Some(n % 10000)
  {
    FixedDigitsParts(n);
    NatToStringReads(n / 10000);
    ParseIntZeroPad(n % 10000, 4);
  }

  /** The integer part and the four decimals of FixedDigits(n). */
  lemma FixedDigitsParts(n: nat)
    ensures var s := FixedDigits(n);
      s[..|s| - 5] == NatToString(n / 10000) && s[|s| - 4..] == ZeroPad(n % 10000, 4)
  {
    NatToStringLength(n % 10000);
    var w := NatToString(n / 10000);
    var f := ZeroPad(n % 10000, 4);
    assert FixedDigits(n) == w + "." + f;
  }

  /** int(str(m)) == m. */
  lemma NatToStringReads(m: nat)
    ensures ParseInt(NatToString(m)) == Some(m)
  {
    DigitsValueOfNatToString(m);
    ParseIntOfDigits(NatToString(m));
  }

  /** "%.4f" % x: an optional minus sign and the digits of |x| rounded to
      the nearest ten-thousandth, ties to even. A negative x that rounds to
      zero keeps its sign, as C's printf does. */
  function FixedPoint4(x: real): (r: string)
    ensures |r| >= 6 && r[|r| - 5] == '.'
    ensures r[0] == '-' <==> x < 0.0
    ensures forall i :: 0 <= i < |r| && i != |r| - 5 ==> r[i] != '.'
  {
    var digits := FixedDigits(RoundHalfEven(Abs(x) * 10000.0));
    if x < 0.0 then "-" + digits else digits
  }

  /** The text "%.4f" gives denotes x to within half a tick: after the
      sign, its digits are those of a whole number n of ten-thousandths
      with |n / 10000 - |x|| <= 1/20000. */
  lemma FixedPoint4Denotes(x: real)
    ensures exists n: nat ::
      && (if x < 0.0 then FixedPoint4(x)[1..] else FixedPoint4(x)) == FixedDigits(n)
      && Abs(x) - HalfTick <= n as real / 10000.0 <= Abs(x) + HalfTick
  {
    var n := RoundHalfEven(Abs(x) * 10000.0);
    assert (if x < 0.0 then FixedPoint4(x)[1..] else FixedPoint4(x)) == FixedDigits(n);
  }

  /** t.rstrip("0").rstrip(".") for a text whose only point is at p: a
      prefix that keeps everything before the point, loses only zeros and
      the point, and ends neither with the point nor, while the point is
      kept, with a zero. */
  function StripZeros(t: string, p: nat): (r: string)
    requires p < |t| && t[p] == '.'
    requires forall i :: 0 <= i < |t| && i != p ==> t[i] != '.'
    ensures p <= |r| <= |t| && r == t[..|r|]
    ensures forall i :: |r| <= i < |t| ==> t[i] in {'0', '.'}
    ensures r == [] || r[|r| - 1] != '.'
    ensures p < |r| ==> r[|r| - 1] != '0'
  {
    var s := TrimRight(t, {'0'});
    assert p < |s|;
    var r := TrimRight(s, {'.'});
    assert r == t[..|r|];
    assert p == 0 || s[p - 1] != '.';
    r
  }

  /** ("%.4f" % x).rstrip("0").rstrip(".") */
  function AmountText(x: real): (r: string)
    ensures r != []
  {
    var t := FixedPoint4(x);
    StripZeros(t, |t| - 5)
  }

  /** A whole amount is a whole number of ten-thousandths, so "%.4f"
      does not round it. */
  lemma RoundWhole(k: int)
    ensures RoundHalfEven(Abs(k as real) * 10000.0) == (if k < 0 then -k else k) * 10000
  {
    var m: nat := if k < 0 then -k else k;
    assert Abs(k as real) == m as real;
    assert Abs(k as real) * 10000.0 == (m * 10000) as real;
  }

  /** The digits of m whole units: m, a point and four zeros. */
  lemma FixedDigitsWhole(m: nat)
    ensures FixedDigits(m * 10000) == NatToString(m) + "." + "0000"
  {
    var n := m * 10000;
    WholeTicks(m, n);
    FourZeros();
    assert FixedDigits(n) == NatToString(n / 10000) + "." + ZeroPad(n % 10000, 4);
  }

  lemma WholeTicks(m: nat, n: nat)
    requires n == m * 10000
    ensures n / 10000 == m && n % 10000 == 0
  {
  }

  lemma FourZeros()
    ensures ZeroPad(0, 4) == "0000"
  {
  }

  /** Stripping the zeros and then the point from w + ".0000" gives w
      back, even when w ends in a zero: the point stops the first strip. */
  lemma StripWhole(w: string, t: string)
    requires t == w + "." + "0000"
    requires forall i :: 0 <= i < |t| && i != |w| ==> t[i] != '.'
    ensures StripZeros(t, |w|) == w
  {
    var r := StripZeros(t, |w|);
    assert |r| == |w|;
    assert r == t[..|w|];
  }

  /** "%.4f" of a whole amount: its integer, a point and four zeros. */
  lemma FixedPointWhole(k: int)
    ensures FixedPoint4(k as real) == IntToString(k) + "." + "0000"
  {
    var m: nat := if k < 0 then -k else k;
    RoundWhole(k);
    FixedDigitsWhole(m);
  }

  /** A whole amount is displayed without a fractional part: 10.0 shows as
      "10", 0.0 as "0", -3.0 as "-3". */
  lemma AmountTextOfInteger(k: int)
    ensures AmountText(k as real) == IntToString(k)
  {
    var t := FixedPoint4(k as real);
    var w := IntToString(k);
    FixedPointWhole(k);
    assert |t| - 5 == |w|;
    StripWhole(w, t);
  }

  // ---------------------------------------------------------------------
  // Freshness suffix
  // ---------------------------------------------------------------------

  /** The suffix of the display expression for the `updated` timestamp of
      the rate used, given today's date; None stands for the OverflowError
      of today - timedelta(days=1) on 0001-01-01, which is only computed
      when the timestamp is not from today. */
  function Freshness(updated: Option<DateTime>, today: Date): Option<string>
  {
    match updated
    case None => Some("")
    case Some(t) =>
      if DateOf(t) == today then Some(" (updated today " + ClockText(t) + ")")
      else (
        match PrevDay(today)
        case None => None
        case Some(yesterday) =>
          if DateOf(t) == yesterday then Some(" (updated yesterday " + ClockText(t) + ")")
          else Some(" (updated " + IsoFormat(t) + ")"))
  }

  /** The suffix is missing only on 0001-01-01 for a timestamp from
      another day. */
  lemma FreshnessOverflow(updated: Option<DateTime>, today: Date)
    ensures Freshness(updated, today).None? <==>
      updated.Some? && DateOf(updated.value) != today && today == Day(MinYear, 1, 1)
  {
  }

  /** "yesterday" is chosen exactly when the day after the timestamp's date
      is today, so it is never chosen for a timestamp from today. */
  lemma FreshnessYesterday(t: DateTime, today: Date)
    requires today != Day(MinYear, 1, 1)
    ensures Freshness(Some(t), today) == Some(" (updated yesterday " + ClockText(t) + ")")
      <==> NextDay(DateOf(t)) == Some(today)
  {
    var iso := " (updated " + IsoFormat(t) + ")";
    var y := " (updated yesterday " + ClockText(t) + ")";
    assert iso != y by {
      IsoFormatLayout(t);
      assert iso[10] == IsoFormat(t)[0] == ZeroPad(t.year, 4)[0];
      assert IsDigit(iso[10]) && y[10] == 'y';
    }
    var td := " (updated today " + ClockText(t) + ")";
    assert td != y by {
      assert td[10] == 't' && y[10] == 'y';
    }
    if NextDay(DateOf(t)) == Some(today) {
      PrevOfNext(DateOf(t));
      PrevDayIsEarlier(today);
    }
    if DateOf(t) != today && PrevDay(today) == Some(DateOf(t)) {
      NextOfPrev(today);
    }
  }

  /** The clock text of the today and yesterday suffixes reads back as the
      timestamp's hour and minute. */
  lemma ClockTextReads(t: DateTime)
    ensures ParseInt(ClockText(t)[0..2]) == Some(t.hour)
    ensures ParseInt(ClockText(t)[3..5]) == Some(t.minute)
  {
    NatToStringLength(t.hour);
    NatToStringLength(t.minute);
    var h, m := ZeroPad(t.hour, 2), ZeroPad(t.minute, 2);
    assert ClockText(t) == h + ":" + m;
    assert ClockText(t)[0..2] == h;
    assert ClockText(t)[3..5] == m;
    ParseIntZeroPad(t.hour, 2);
    ParseIntZeroPad(t.minute, 2);
  }

  /** A slice of the middle part of a three-part concatenation. */
  lemma InnerSlice(pre: string, mid: string, post: string, lo: nat, hi: nat)
    requires lo <= hi <= |mid|
    ensures (pre + mid + post)[|pre| + lo..|pre| + hi] == mid[lo..hi]
  {
    assert (pre + mid + post)[|pre| + lo..|pre| + hi] == (pre + mid)[|pre| + lo..|pre| + hi];
  }

  /** The ISO suffix of an older timestamp carries the whole timestamp:
      the text between " (updated " and ")" reads back as it. */
  lemma FreshnessOlderReads(t: DateTime, today: Date)
    requires DateOf(t) != today && PrevDay(today).Some? && PrevDay(today).value != DateOf(t)
    ensures Freshness(Some(t), today).Some?
    ensures var s := Freshness(Some(t), today).value;
      |s| == 30 && s[..10] == " (updated " && s[29] == ')' && ReadIso(s[10..29]) == Some(t)
  {
    var iso := IsoFormat(t);
    var s := " (updated " + iso + ")";
    assert Freshness(Some(t), today) == Some(s);
    assert |iso| == 19 by {
      IsoFormatLayout(t);
    }
    assert s[10..29] == iso by {
      InnerSlice(" (updated ", iso, ")", 0, 19);
    }
    IsoRoundTrip(t);
  }

  // ---------------------------------------------------------------------
  // currency()
  // ---------------------------------------------------------------------

  /** The currencies whose rates a conversion reads, in the order it reads
      them: only the non-EUR side when one side is EUR (the target when the
      source is EUR), else the source and then the target. */
  function Consulted(from: string, to: string): seq<string>
  {
    if from == Euro then [to] else if to == Euro then [from] else [from, to]
  }

  /** The codes of `codes` whose table rate is zero, in order. */
  function ZeroRated(rates: Table, codes: seq<string>): (r: seq<string>)
    requires forall c :: c in codes ==> c in rates
    ensures |r| <= |codes|
    ensures forall c :: c in r <==> c in codes && rates[c].rate == 0.0
  {
    if codes == [] then []
    else (if rates[codes[0]].rate == 0.0 then [codes[0]] else []) + ZeroRated(rates, codes[1..])
  }

  /** What the three branches of currency() compute before formatting:
      the result, the rate returned, the timestamp of the rate used and
      the unknown_rates list. */
  datatype Triangulation = Triangulation(result: Option<real>, rate: Option<real>,
                                         updated: Option<DateTime>, unknown: seq<string>)

  /** The branches of currency() once both codes are known keys. */
  function Triangulate(rates: Table, amount: real, from: string, to: string): (r: Triangulation)
    requires from in rates && to in rates
    ensures r.result.None? <==> r.unknown != []
    ensures r.result.None? ==> r.rate.None? && r.updated.None?
    ensures r.rate.Some? ==> from == Euro || to == Euro
  {
    if from == Euro then
      var rt := rates[to].rate;
      if rt == 0.0 then Triangulation(None, None, None, [to])
      else Triangulation(Some(rt * amount), Some(rt), rates[to].updated, [])
    else if to == Euro then
      var rf := rates[from].rate;
      if rf == 0.0 then Triangulation(None, None, None, [from])
      else Triangulation(Some(1.0 / rf * amount), Some(1.0 / rf), rates[to].updated, [])
    else
      var unknown := (if rates[from].rate == 0.0 then [from] else [])
                     + (if rates[to].rate == 0.0 then [to] else []);
      if unknown != [] then Triangulation(None, None, None, unknown)
      else Triangulation(Some(Round4(rates[to].rate * (amount / rates[from].rate))), None,
                         rates[to].updated, [])
  }

  /** unknown_rates lists exactly the consulted currencies whose rate is
      zero, source before target; the result is missing exactly then. */
  lemma UnknownAreZeroRated(rates: Table, amount: real, from: string, to: string)
    requires from in rates && to in rates
    ensures Triangulate(rates, amount, from, to).unknown == ZeroRated(rates, Consulted(from, to))
  {
    if from == Euro || to == Euro {
      var c := if from == Euro then to else from;
      assert [c][1..] == [];
    } else {
      assert [from, to][1..] == [to] && [to][1..] == [];
    }
  }

  /** x / d is the one number that gives x when multiplied by d. */
  lemma DivisionUnique(x: real, d: real, y: real)
    requires d != 0.0 && y * d == x
    ensures x / d == y
  {
    var q := x / d;
    assert q * d == x;
    assert (y - q) * d == 0.0;
  }

  /** Multiplying by the reciprocal is dividing. */
  lemma ReciprocalTimes(a: real, d: real)
    requires d != 0.0
    ensures 1.0 / d * a == a / d
  {
    var q := 1.0 / d;
    assert q * d == 1.0;
    assert q * a * d == a by {
      assert q * a * d == (q * d) * a;
    }
    DivisionUnique(a, d, q * a);
  }

  /** Multiplying d * a by the reciprocal of d gives a back. */
  lemma ReciprocalCancels(a: real, d: real, x: real)
    requires d != 0.0 && x == d * a
    ensures 1.0 / d * x == a
  {
    ReciprocalTimes(x, d);
    DivisionUnique(x, d, a);
  }

  /** From EUR: the target's rate times the amount; that rate is also the
      rate returned, with the target's timestamp. */
  lemma FromEuroBranch(rates: Table, amount: real, to: string)
    requires Euro in rates && to in rates && rates[to].rate != 0.0
    ensures var r := Triangulate(rates, amount, Euro, to);
      r.result == Some(rates[to].rate * amount) && r.rate == Some(rates[to].rate)
      && r.updated == rates[to].updated && r.unknown == []
  {
  }

  /** To EUR: the rate returned is the reciprocal of the source's rate and
      the result is that reciprocal times the amount; the timestamp is
      EUR's own, not the source's. */
  lemma ToEuroBranch(rates: Table, amount: real, from: string)
    requires Euro in rates && from in rates && from != Euro && rates[from].rate != 0.0
    ensures var r := Triangulate(rates, amount, from, Euro);
      r.rate == Some(1.0 / rates[from].rate) && r.result == Some(1.0 / rates[from].rate * amount)
      && r.updated == rates[Euro].updated && r.unknown == []
  {
  }

  /** To EUR divides the amount by the source's rate. */
  lemma ToEuroDivides(rates: Table, amount: real, from: string)
    requires Euro in rates && from in rates && from != Euro && rates[from].rate != 0.0
    ensures Triangulate(rates, amount, from, Euro).result.Some?
    ensures Triangulate(rates, amount, from, Euro).result.value == amount / rates[from].rate
  {
    ToEuroBranch(rates, amount, from);
    ReciprocalTimes(amount, rates[from].rate);
  }

  /** Between two other currencies: the triangulated amount rounded to four
      places, hence within half a tick of the exact value; no rate is
      returned; the timestamp is the target's. */
  lemma CrossBranch(rates: Table, amount: real, from: string, to: string)
    requires from in rates && to in rates && from != Euro && to != Euro
    requires rates[from].rate != 0.0 && rates[to].rate != 0.0
    ensures var r := Triangulate(rates, amount, from, to);
      var exact := amount * rates[to].rate / rates[from].rate;
      r.result.Some? && exact - HalfTick <= r.result.value <= exact + HalfTick && OnTick(r.result.value)
      && r.rate.None? && r.updated == rates[to].updated && r.unknown == []
  {
    var rf, rt := rates[from].rate, rates[to].rate;
    assert rt * (amount / rf) == amount * rt / rf;
  }

  /** EUR to EUR is not special-cased: the amount is multiplied by the EUR
      entry's own rate, which gives the amount back only when that rate is 1. */
  lemma EuroToEuro(rates: Table, amount: real)
    requires Euro in rates && rates[Euro].rate != 0.0
    ensures Triangulate(rates, amount, Euro, Euro).result == Some(rates[Euro].rate * amount)
    ensures rates[Euro].rate == 1.0 ==> Triangulate(rates, amount, Euro, Euro).result == Some(amount)
  {
    FromEuroBranch(rates, amount, Euro);
  }

  /** Converting from EUR and back again returns the original amount. */
  lemma EuroRoundTrip(rates: Table, amount: real, other: string)
    requires Euro in rates && other in rates && other != Euro && rates[other].rate != 0.0
    ensures var there := Triangulate(rates, amount, Euro, other).result;
      there.Some? && Triangulate(rates, there.value, other, Euro).result.Some?
      && Triangulate(rates, there.value, other, Euro).result.value == amount
  {
    var there := Triangulate(rates, amount, Euro, other).result;
    FromEuroBranch(rates, amount, other);
    ToEuroBranch(rates, there.value, other);
    ReciprocalCancels(amount, rates[other].rate, there.value);
  }

  /** Going through EUR in two steps gives the exact triangulated value. */
  lemma ViaEuroExact(amount: real, rf: real, rt: real, inEuro: real)
    requires rf != 0.0 && inEuro == amount / rf
    ensures rt * inEuro == amount * rt / rf
  {
    assert inEuro * rf == amount;
    DivisionUnique(amount * rt, rf, rt * inEuro);
  }

  /** A cross conversion agrees, up to its rounding, with converting to EUR
      and then from EUR. */
  lemma CrossViaEuro(rates: Table, amount: real, from: string, to: string)
    requires Euro in rates && from in rates && to in rates && from != Euro && to != Euro
    requires rates[from].rate != 0.0 && rates[to].rate != 0.0
    ensures var inEuro := Triangulate(rates, amount, from, Euro).result.value;
      var via := Triangulate(rates, inEuro, Euro, to).result.value;
      var direct := Triangulate(rates, amount, from, to).result.value;
      via - HalfTick <= direct <= via + HalfTick
  {
    var inEuro := Triangulate(rates, amount, from, Euro).result.value;
    ToEuroDivides(rates, amount, from);
    FromEuroBranch(rates, inEuro, to);
    CrossBranch(rates, amount, from, to);
    ViaEuroExact(amount, rates[from].rate, rates[to].rate, inEuro);
  }

  /** The hint set when some rate is unknown: the codes joined by commas. */
  const UnknownRatePrefix := "Unknown exchange rate for currency "

  function UnknownHint(unknown: seq<string>): Option<string>
  {
    if unknown == [] then None else Some(UnknownRatePrefix + Join(unknown, ','))
  }

  /** The hint names exactly the unknown currencies: what follows its
      prefix splits at the commas back into the list. */
  lemma UnknownHintLists(unknown: seq<string>)
    requires forall i :: 0 <= i < |unknown| ==> ',' !in unknown[i]
    ensures UnknownHint(unknown).Some? <==> unknown != []
    ensures unknown != [] ==>
      var h := UnknownHint(unknown).value;
      |h| >= |UnknownRatePrefix| && h[..|UnknownRatePrefix|] == UnknownRatePrefix
      && Split(h[|UnknownRatePrefix|..], ',') == unknown
  {
    if unknown != [] {
      var h := UnknownHint(unknown).value;
      assert h[|UnknownRatePrefix|..] == Join(unknown, ',');
      SplitJoin(unknown, ',');
    }
  }

  /** Why currency() fails: an assertion on a code that is not a key, or
      the OverflowError of the freshness suffix. */
  datatype ConversionError = UnknownSource(code: string) | UnknownTarget(code: string) | DateOverflow

  /** What currency() returns, (result, expr, rate, rate_updated), with the
      hint it sets. */
  datatype Converted = Converted(result: Option<real>, expr: string, rate: Option<real>,
                                 updated: Option<DateTime>, hint: Option<string>)

  /** "%s %s in %s%s" % (amount text, from, to, suffix) */
  function Expression(amount: real, from: string, to: string, suffix: string): string
  {
    AmountText(amount) + " " + from + " in " + to + suffix
  }

  /** currency(amount, from_curr, to_curr) against the table and today's date. */
  function Currency(rates: Table, amount: real, from: string, to: string, today: Date)
    : (r: Result<Converted, ConversionError>)
    ensures r == Err(UnknownSource(from)) <==> from !in rates
    ensures r == Err(UnknownTarget(to)) <==> from in rates && to !in rates
    ensures r == Err(DateOverflow) <==> (from in rates && to in rates
      && Freshness(Triangulate(rates, amount, from, to).updated, today).None?)
    ensures r.Ok? ==> (r.value.result.None? <==> r.value.hint.Some?)
  {
    if from !in rates then Err(UnknownSource(from))
    else if to !in rates then Err(UnknownTarget(to))
    else
      var t := Triangulate(rates, amount, from, to);
      match Freshness(t.updated, today)
      case None => Err(DateOverflow)
      case Some(suffix) =>
        Ok(Converted(t.result, Expression(amount, from, to, suffix), t.rate, t.updated, UnknownHint(t.unknown)))
  }

  /** A conversion between known codes returns what its branch computed,
      the hint for its unknown rates, and the expression built from the
      amount text, both codes and the freshness suffix. */
  lemma CurrencyReturns(rates: Table, amount: real, from: string, to: string, today: Date)
    requires from in rates && to in rates
    requires Freshness(Triangulate(rates, amount, from, to).updated, today).Some?
    ensures var t := Triangulate(rates, amount, from, to);
      var r := Currency(rates, amount, from, to, today);
      r.Ok? && r.value.result == t.result && r.value.rate == t.rate && r.value.updated == t.updated
      && r.value.hint == UnknownHint(ZeroRated(rates, Consulted(from, to)))
      && r.value.expr == AmountText(amount) + " " + from + " in " + to
                         + Freshness(t.updated, today).value
  {
    UnknownAreZeroRated(rates, amount, from, to);
  }

  /** A missing rate makes the result None and is reported; without one the
      result is there and the hint is not set. */
  lemma CurrencyUnknownRates(rates: Table, amount: real, from: string, to: string, today: Date)
    requires from in rates && to in rates
    requires Freshness(Triangulate(rates, amount, from, to).updated, today).Some?
    ensures Currency(rates, amount, from, to, today).Ok?
    ensures Currency(rates, amount, from, to, today).value.result.None?
            <==> ZeroRated(rates, Consulted(from, to)) != []
  {
    UnknownAreZeroRated(rates, amount, from, to);
  }

  /** A whole amount of JPY to EUR when the JPY rate is zero (a rate field
      that does not parse): no result, no rate, no timestamp, the amount
      shown as its integer, and a hint naming JPY. */
  lemma UnknownRateExample(rates: Table, k: int, today: Date)
    requires Euro in rates && "JPY" in rates && rates["JPY"].rate == 0.0
    ensures Currency(rates, k as real, "JPY", Euro, today)
         == Ok(Converted(None, IntToString(k) + " JPY in EUR", None, None, Some("Unknown exchange rate for currency JPY")))
  {
    assert Triangulate(rates, k as real, "JPY", Euro) == Triangulation(None, None, None, ["JPY"]);
    assert Freshness(None, today) == Some("");
    CurrencyReturns(rates, k as real, "JPY", Euro, today);
    UnknownAreZeroRated(rates, k as real, "JPY", Euro);
    AmountTextOfInteger(k);
    JpyText(IntToString(k));
    HintForOne();
  }

  /** The expression text for an amount in JPY to EUR with no freshness
      suffix. */
  lemma JpyText(a: string)
    ensures a + " " + "JPY" + " in " + Euro + "" == a + " JPY in EUR"
  {
  }

  /** The hint for a single unknown currency. */
  lemma HintForOne()
    ensures UnknownHint(["JPY"]) == Some("Unknown exchange rate for currency JPY")
  {
    assert Join(["JPY"], ',') == "JPY";
    var h := UnknownRatePrefix + "JPY";
    var lit := "Unknown exchange rate for currency JPY";
    assert |h| == |lit|;
    assert forall i :: 0 <= i < |h| ==> h[i] == lit[i];
    assert h == lit;
  }

  /** 100 EUR to USD at a USD rate of 1.0765: 107.65, with that rate and
      the USD record's timestamp. */
  lemma FromEuroExample(rates: Table, t: DateTime)
    requires Euro in rates && "USD" in rates && rates["USD"] == RateRecord("USD", 1.0765, Some(t))
    ensures Triangulate(rates, 100.0, Euro, "USD") == Triangulation(Some(107.65), Some(1.0765), Some(t), [])
  {
    FromEuroBranch(rates, 100.0, "USD");
  }
}
