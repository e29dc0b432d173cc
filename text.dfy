/** The few Python 2 byte-string operations the rate parser relies on:
    strip, split, join, slicing, upper() and int(). */
module Text {
  import opened Wrappers

  /** The characters str.isspace() accepts in the C locale: what strip()
      removes by default, what int() skips around a number and after its
      sign, and what \s matches. */
  const Whitespace: set<char> := {' ', '\t', '\n', '\r', '\U{B}', '\U{C}'}

  /** s.lstrip(cs) */
  function TrimLeft(s: string, cs: set<char>): (r: string)
    ensures |r| <= |s| && r == s[|s| - |r|..]
    ensures r == [] || r[0] !in cs
    ensures forall i :: 0 <= i < |s| - |r| ==> s[i] in cs
  {
    if |s| > 0 && s[0] in cs then TrimLeft(s[1..], cs) else s
  }

  /** s.rstrip(cs) */
  function TrimRight(s: string, cs: set<char>): (r: string)
    ensures |r| <= |s| && r == s[..|r|]
    ensures r == [] || r[|r| - 1] !in cs
    ensures forall i :: |r| <= i < |s| ==> s[i] in cs
  {
    if |s| > 0 && s[|s| - 1] in cs then TrimRight(s[..|s| - 1], cs) else s
  }

  /** s.strip(cs) */
  function Trim(s: string, cs: set<char>): string
  {
    TrimRight(TrimLeft(s, cs), cs)
  }

  /** A string that neither starts nor ends with a character of cs is its own strip. */
  lemma TrimUnchanged(s: string, cs: set<char>)
    requires s == [] || (s[0] !in cs && s[|s| - 1] !in cs)
    ensures Trim(s, cs) == s
  {
  }

  /** Index of the first occurrence of c in s. */
  function FirstIndex(s: string, c: char): (i: nat)
    requires c in s
    ensures i < |s| && s[i] == c && c !in s[..i]
  {
    if s[0] == c then 0 else 1 + FirstIndex(s[1..], c)
  }

  /** s.split(sep) for a one-character separator. */
  function Split(s: string, sep: char): (r: seq<string>)
    ensures |r| >= 1
    ensures forall i :: 0 <= i < |r| ==> sep !in r[i]
    decreases |s|
  {
    if sep !in s then [s]
    else
      var i := FirstIndex(s, sep);
      [s[..i]] + Split(s[i + 1..], sep)
  }

  /** [sep].join(parts) */
  function Join(parts: seq<string>, sep: char): string
  {
    if |parts| == 0 then ""
    else if |parts| == 1 then parts[0]
    else parts[0] + [sep] + Join(parts[1..], sep)
  }

  lemma JoinCons(p: string, rest: seq<string>, sep: char)
    requires |rest| >= 1
    ensures Join([p] + rest, sep) == p + [sep] + Join(rest, sep)
  {
    assert ([p] + rest)[1..] == rest;
  }

  /** A join starts with its first piece and ends with its last one. */
  lemma {:induction false} JoinEnds(parts: seq<string>, sep: char)
    requires |parts| >= 1 && |parts[0]| > 0 && |parts[|parts| - 1]| > 0
    ensures var s := Join(parts, sep);
      |s| > 0 && s[0] == parts[0][0] && s[|s| - 1] == parts[|parts| - 1][|parts[|parts| - 1]| - 1]
  {
    if |parts| > 1 {
      var rest := parts[1..];
      JoinEndsLast(rest, sep);
      JoinCons(parts[0], rest, sep);
      assert parts == [parts[0]] + rest;
    }
  }

  lemma {:induction false} JoinEndsLast(parts: seq<string>, sep: char)
    requires |parts| >= 1 && |parts[|parts| - 1]| > 0
    ensures var s := Join(parts, sep);
      |s| > 0 && s[|s| - 1] == parts[|parts| - 1][|parts[|parts| - 1]| - 1]
  {
    if |parts| > 1 {
      var rest := parts[1..];
      JoinEndsLast(rest, sep);
      JoinCons(parts[0], rest, sep);
      assert parts == [parts[0]] + rest;
    }
  }

  /** Splitting and joining again gives back the string. */
  lemma {:induction false} JoinSplit(s: string, sep: char)
    ensures Join(Split(s, sep), sep) == s
    decreases |s|
  {
    if sep in s {
      var i := FirstIndex(s, sep);
      var rest := Split(s[i + 1..], sep);
      assert Split(s, sep) == [s[..i]] + rest;
      JoinCons(s[..i], rest, sep);
      JoinSplit(s[i + 1..], sep);
      assert s == s[..i] + [sep] + s[i + 1..];
    }
  }

  /** The first piece of a split is everything up to the first separator. */
  lemma SplitCons(a: string, sep: char, b: string)
    requires sep !in a
    ensures Split(a + [sep] + b, sep) == [a] + Split(b, sep)
  {
    var s := a + [sep] + b;
    assert s[|a|] == sep;
    var i := FirstIndex(s, sep);
    assert s[..i] == a;
    assert s[i + 1..] == b;
  }

  /** Splitting a join of separator-free pieces gives the pieces back. */
  lemma {:induction false} SplitJoin(parts: seq<string>, sep: char)
    requires |parts| >= 1
    requires forall i :: 0 <= i < |parts| ==> sep !in parts[i]
    ensures Split(Join(parts, sep), sep) == parts
  {
    if |parts| > 1 {
      var rest := parts[1..];
      assert parts == [parts[0]] + rest;
      JoinCons(parts[0], rest, sep);
      SplitJoin(rest, sep);
      SplitCons(parts[0], sep, Join(rest, sep));
    }
  }

  /** Python slicing s[lo:hi], which clamps both bounds to the string:
      the part inside the bounds, what is left from lo when hi runs past
      the end, and nothing when lo does. */
  function Slice(s: string, lo: nat, hi: nat): (r: string)
    ensures |r| <= hi - lo || (hi < lo && r == [])
    ensures lo <= hi <= |s| ==> r == s[lo..hi]
    ensures lo <= |s| <= hi ==> r == s[lo..]
    ensures |s| <= lo ==> r == []
  {
    var a := if lo < |s| then lo else |s|;
    var b := if hi < |s| then hi else |s|;
    if a <= b then s[a..b] else []
  }

  /** s.endswith(suffix) */
  predicate EndsWith(s: string, suffix: string)
  {
    |suffix| <= |s| && s[|s| - |suffix|..] == suffix
  }

  /** s[:-2]: all but the last two characters, and the empty string when
      there are fewer than two. */
  function DropLastTwo(s: string): (r: string)
    ensures |s| >= 2 ==> s == r + s[|s| - 2..]
    ensures |s| < 2 ==> r == []
  {
    if |s| >= 2 then s[..|s| - 2] else []
  }

  /** str.upper() in the C locale: only ASCII letters change. */
  function UpperChar(c: char): char
  {
    if 'a' <= c <= 'z' then (c as int - 'a' as int + 'A' as int) as char else c
  }

  predicate IsUpperChar(c: char)
  {
    !('a' <= c <= 'z')
  }

  function Upper(s: string): (r: string)
    ensures |r| == |s|
    ensures forall i :: 0 <= i < |s| ==> r[i] == UpperChar(s[i]) && IsUpperChar(r[i])
  {
    seq(|s|, i requires 0 <= i < |s| => UpperChar(s[i]))
  }

  predicate IsUpperString(s: string)
  {
    forall i :: 0 <= i < |s| ==> IsUpperChar(s[i])
  }

  /** upper() changes nothing in a string that is already upper case, so
      it is idempotent. */
  lemma UpperOfUpper(s: string)
    requires IsUpperString(s)
    ensures Upper(s) == s
  {
  }

  predicate IsDigit(c: char)
  {
    '0' <= c <= '9'
  }

  predicate AllDigits(s: string)
  {
    forall i :: 0 <= i < |s| ==> IsDigit(s[i])
  }

  lemma NoSeparatorInDigits(s: string, c: char)
    requires AllDigits(s) && !IsDigit(c)
    ensures c !in s
  {
  }

  /** The value of a string of decimal digits, most significant first. */
  function DigitsValue(s: string): nat
    requires AllDigits(s)
  {
    if s == [] then 0
    else DigitsValue(s[..|s| - 1]) * 10 + (s[|s| - 1] as int - '0' as int)
  }

  /** int(s) for a Python 2 byte string in base 10: surrounding
      whitespace, an optional sign, whitespace again after a sign, then at
      least one ASCII digit. None stands for the ValueError int() raises. */
  function ParseInt(s: string): Option<int>
  {
    ParseSigned(Trim(s, Whitespace))
  }

  /** int() of a string without surrounding whitespace: an optional sign
      and its unsigned part. */
  function ParseSigned(t: string): Option<int>
  {
    if |t| >= 1 && (t[0] == '+' || t[0] == '-') then
      match Unsigned(t[1..])
      case Some(v) => Some(if t[0] == '-' then 0 - v else v as int)
      case None => None
    else Digits(t)
  }

  /** The unsigned conversion after a sign, which skips leading whitespace
      once more before the digits. */
  function Unsigned(u: string): Option<nat>
  {
    if |u| >= 1 && u[0] in Whitespace then Unsigned(u[1..]) else Digits(u)
  }

  /** At least one ASCII digit, and their value. */
  function Digits(t: string): Option<nat>
  {
    if |t| >= 1 && AllDigits(t) then Some(DigitsValue(t)) else None
  }

  /** Surrounding whitespace does not change what int() reads. */
  lemma ParseIntUntrimmed(s: string)
    requires |s| >= 1 && s[0] !in Whitespace && s[|s| - 1] !in Whitespace
    ensures ParseInt(s) == ParseSigned(s)
  {
    TrimUnchanged(s, Whitespace);
  }

  /** The unsigned conversion reads the digits of the text with its
      leading whitespace stripped: Unsigned(u) is Digits(u.lstrip()). */
  lemma {:induction false} UnsignedIsTrimLeft(u: string)
    ensures Unsigned(u) == Digits(TrimLeft(u, Whitespace))
    decreases |u|
  {
    if |u| >= 1 && u[0] in Whitespace {
      UnsignedIsTrimLeft(u[1..]);
    }
  }

  /** int() of a sign followed by a text u that ends in a digit: the sign
      applied to the unsigned conversion of u, which may start with
      whitespace. */
  lemma ParseIntOfSigned(sign: char, u: string, v: nat)
    requires sign == '+' || sign == '-'
    requires u != [] && IsDigit(u[|u| - 1]) && Unsigned(u) == Some(v)
    ensures ParseInt([sign] + u) == Some(if sign == '-' then 0 - v else v as int)
  {
    ParseIntOfSignedText(sign, u);
    ParseSignedOfSign(sign, u, v);
  }

  /** A sign followed by a text ending in a digit has nothing to strip. */
  lemma ParseIntOfSignedText(sign: char, u: string)
    requires sign == '+' || sign == '-'
    requires u != [] && IsDigit(u[|u| - 1])
    ensures ParseInt([sign] + u) == ParseSigned([sign] + u)
  {
    var s := [sign] + u;
    assert s[|s| - 1] == u[|u| - 1];
    ParseIntUntrimmed(s);
  }

  lemma ParseSignedOfSign(sign: char, u: string, v: nat)
    requires sign == '+' || sign == '-'
    requires Unsigned(u) == Some(v)
    ensures ParseSigned([sign] + u) == Some(if sign == '-' then 0 - v else v as int)
  {
    assert ([sign] + u)[1..] == u;
  }

  /** int("- 1") == -1: whitespace between the sign and the digits. */
  lemma MinusSpaceOne()
    ensures ParseInt("- 1") == Some(-1)
  {
    UnsignedSpaceOne();
    ParseIntOfSigned('-', " 1", 1);
    assert ['-'] + " 1" == "- 1";
  }

  /** int("+ 1") == 1. */
  lemma PlusSpaceOne()
    ensures ParseInt("+ 1") == Some(1)
  {
    UnsignedSpaceOne();
    ParseIntOfSigned('+', " 1", 1);
    assert ['+'] + " 1" == "+ 1";
  }

  lemma UnsignedSpaceOne()
    ensures Unsigned(" 1") == Some(1)
  {
    assert " 1"[1..] == "1";
  }

  function DigitChar(d: nat): char
    requires d < 10
  {
    ('0' as int + d) as char
  }

  /** '%d' % n for a natural number. */
  function NatToString(n: nat): (r: string)
    ensures |r| >= 1 && AllDigits(r)
    ensures |r| > 1 ==> r[0] != '0'
  {
    if n < 10 then [DigitChar(n)] else NatToString(n / 10) + [DigitChar(n % 10)]
  }

  /** str(n) for an integer. */
  function IntToString(n: int): string
  {
    if n < 0 then "-" + NatToString(-n) else NatToString(n)
  }

  /** '%0*d' % (width, n): the decimal digits of n, left-padded with zeros. */
  function ZeroPad(n: nat, width: nat): (r: string)
    ensures |r| >= width && AllDigits(r)
    ensures |NatToString(n)| <= width ==> |r| == width
  {
    var d := NatToString(n);
    if |d| >= width then d else seq(width - |d|, _ => '0') + d
  }

  /** Numbers below 10^k have at most k digits. */
  lemma {:induction false} NatToStringLength(n: nat)
    ensures n < 10 ==> |NatToString(n)| == 1
    ensures n < 100 ==> |NatToString(n)| <= 2
    ensures n < 1000 ==> |NatToString(n)| <= 3
    ensures n < 10000 ==> |NatToString(n)| <= 4
  {
    if n >= 10 {
      NatToStringLength(n / 10);
    }
  }

  lemma {:induction false} DigitsValueOfNatToString(n: nat)
    ensures DigitsValue(NatToString(n)) == n
  {
    if n >= 10 {
      DigitsValueOfNatToString(n / 10);
      var s := NatToString(n);
      assert s[..|s| - 1] == NatToString(n / 10);
    }
  }

  lemma {:induction false} DigitsValueOfZeros(k: nat)
    ensures AllDigits(seq(k, _ => '0')) && DigitsValue(seq(k, _ => '0')) == 0
  {
    if k > 0 {
      DigitsValueOfZeros(k - 1);
      assert seq(k, _ => '0')[..k - 1] == seq(k - 1, _ => '0');
    }
  }

  /** Leading zeros do not change the value of a digit string. */
  lemma {:induction false} DigitsValueLeadingZeros(k: nat, s: string)
    requires AllDigits(s)
    ensures AllDigits(seq(k, _ => '0') + s)
    ensures DigitsValue(seq(k, _ => '0') + s) == DigitsValue(s)
    decreases |s|
  {
    var z := seq(k, _ => '0');
    if s == [] {
      assert z + s == z;
      DigitsValueOfZeros(k);
    } else {
      DigitsValueLeadingZeros(k, s[..|s| - 1]);
      assert (z + s)[..|z + s| - 1] == z + s[..|s| - 1];
    }
  }

  /** The digits of a zero-padded rendering denote the number. */
  lemma DigitsValueOfZeroPad(n: nat, width: nat)
    ensures DigitsValue(ZeroPad(n, width)) == n
  {
    var d := NatToString(n);
    DigitsValueOfNatToString(n);
    if |d| < width {
      DigitsValueLeadingZeros(width - |d|, d);
    }
  }

  /** int() reads back the value of a zero-padded rendering. */
  lemma ParseIntZeroPad(n: nat, width: nat)
    ensures ParseInt(ZeroPad(n, width)) == Some(n)
  {
    DigitsValueOfZeroPad(n, width);
    ParseIntOfDigits(ZeroPad(n, width));
  }

  /** int() of a non-empty digit string is its value. */
  lemma ParseIntOfDigits(s: string)
    requires |s| >= 1 && AllDigits(s)
    ensures ParseInt(s) == Some(DigitsValue(s))
  {
    assert IsDigit(s[0]) && IsDigit(s[|s| - 1]);
    ParseIntUntrimmed(s);
  }

  /** int(str(n)) == n */
  lemma ParseIntOfIntToString(n: int)
    ensures ParseInt(IntToString(n)) == Some(n)
  {
    var s := IntToString(n);
    var d := NatToString(if n < 0 then -n else n);
    DigitsValueOfNatToString(if n < 0 then -n else n);
    if n < 0 {
      assert s[1..] == d;
      assert IsDigit(d[|d| - 1]);
      ParseIntUntrimmed(s);
    } else {
      ParseIntOfDigits(s);
    }
  }
}
