/** The part of Python's datetime the rate table uses: construction with
    range checks, date(), subtracting one day, isoformat() and "%H:%M". */
module Calendar {
  import opened Wrappers
  import opened Text

  /** datetime.MINYEAR and datetime.MAXYEAR */
  const MinYear := 1
  const MaxYear := 9999

  predicate IsLeapYear(y: int)
  {
    y % 4 == 0 && (y % 100 != 0 || y % 400 == 0)
  }

  function DaysInMonth(y: int, m: int): int
    requires 1 <= m <= 12
  {
    if m == 2 then (if IsLeapYear(y) then 29 else 28)
    else if m == 4 || m == 6 || m == 9 || m == 11 then 30
    else 31
  }

  /** The checks datetime(year, month, day) makes before it raises ValueError. */
  predicate IsValidDate(y: int, m: int, d: int)
  {
    MinYear <= y <= MaxYear && 1 <= m <= 12 && 1 <= d <= DaysInMonth(y, m)
  }

  datatype Day = Day(year: int, month: int, day: int)

  /** A datetime.date value. */
  type Date = d: Day | IsValidDate(d.year, d.month, d.day) witness Day(1, 1, 1)

  datatype Stamp = Stamp(year: int, month: int, day: int, hour: int, minute: int)

  /** The checks datetime(year, month, day, hour, minute) makes. */
  predicate IsValidStamp(t: Stamp)
  {
    IsValidDate(t.year, t.month, t.day) && 0 <= t.hour <= 23 && 0 <= t.minute <= 59
  }

  /** A datetime.datetime value with zero seconds, as the rate parser builds them. */
  type DateTime = t: Stamp | IsValidStamp(t) witness Stamp(1, 1, 1, 0, 0)

  /** datetime.date() */
  function DateOf(t: DateTime): Date
  {
    Day(t.year, t.month, t.day)
  }

  /** date - timedelta(days=1); None stands for the OverflowError raised
      below date.min. */
  function PrevDay(d: Date): (r: Option<Date>)
    ensures r.None? <==> d == Day(MinYear, 1, 1)
  {
    if d.day > 1 then Some(Day(d.year, d.month, d.day - 1))
    else if d.month > 1 then Some(Day(d.year, d.month - 1, DaysInMonth(d.year, d.month - 1)))
    else if d.year > MinYear then Some(Day(d.year - 1, 12, 31))
    else None
  }

  /** date + timedelta(days=1); None stands for the OverflowError raised
      above date.max. */
  function NextDay(d: Date): (r: Option<Date>)
    ensures r.None? <==> d == Day(MaxYear, 12, 31)
  {
    if d.day < DaysInMonth(d.year, d.month) then Some(Day(d.year, d.month, d.day + 1))
    else if d.month < 12 then Some(Day(d.year, d.month + 1, 1))
    else if d.year < MaxYear then Some(Day(d.year + 1, 1, 1))
    else None
  }

  /** Stepping one day back and then one day forward returns to the same date. */
  lemma NextOfPrev(d: Date)
    requires d != Day(MinYear, 1, 1)
    ensures NextDay(PrevDay(d).value) == Some(d)
  {
  }

  /** Stepping one day forward and then one day back returns to the same date. */
  lemma PrevOfNext(d: Date)
    requires d != Day(MaxYear, 12, 31)
    ensures PrevDay(NextDay(d).value) == Some(d)
  {
  }

  /** The previous day is strictly earlier, so "yesterday" is never "today". */
  lemma PrevDayIsEarlier(d: Date)
    requires d != Day(MinYear, 1, 1)
    ensures PrevDay(d).value != d
  {
  }

  /** time().strftime("%H:%M") */
  function ClockText(t: DateTime): (r: string)
    ensures |r| == 5 && r[2] == ':'
  {
    var h := ZeroPad(t.hour, 2);
    var m := ZeroPad(t.minute, 2);
    assert |h| == 2 && |m| == 2 by {
      assert t.hour < 100 && t.minute < 100;
      assert |NatToString(t.hour)| <= 2 by { NatToStringLength(t.hour); }
      assert |NatToString(t.minute)| <= 2 by { NatToStringLength(t.minute); }
    }
    h + ":" + m
  }

  /** isoformat() of a datetime whose seconds and microseconds are zero:
      YYYY-MM-DDTHH:MM:SS. */
  function IsoFormat(t: DateTime): (r: string)
  {
    ZeroPad(t.year, 4) + "-" + ZeroPad(t.month, 2) + "-" + ZeroPad(t.day, 2)
      + "T" + ClockText(t) + ":00"
  }

  /** The middle part of a three-part concatenation. */
  lemma MiddleSlice(a: string, b: string, c: string)
    ensures (a + b + c)[|a|..|a| + |b|] == b
  {
    assert (a + b + c)[|a|..|a| + |b|] == ((a + b) + c)[|a|..|a| + |b|];
  }

  /** Where each field sits in the ISO text. */
  lemma IsoFormatLayout(t: DateTime)
    ensures |IsoFormat(t)| == 19
    ensures IsoFormat(t)[0..4] == ZeroPad(t.year, 4)
    ensures IsoFormat(t)[5..7] == ZeroPad(t.month, 2)
    ensures IsoFormat(t)[8..10] == ZeroPad(t.day, 2)
    ensures IsoFormat(t)[11..13] == ZeroPad(t.hour, 2)
    ensures IsoFormat(t)[14..16] == ZeroPad(t.minute, 2)
  {
    var y, mo, d := ZeroPad(t.year, 4), ZeroPad(t.month, 2), ZeroPad(t.day, 2);
    var h, mi := ZeroPad(t.hour, 2), ZeroPad(t.minute, 2);
    NatToStringLength(t.year);
    NatToStringLength(t.month);
    NatToStringLength(t.day);
    NatToStringLength(t.hour);
    NatToStringLength(t.minute);
    var s := IsoFormat(t);
    assert s == y + "-" + mo + "-" + d + "T" + (h + ":" + mi) + ":00";
  }

  /** The fields of the ISO text read back as the datetime's components. */
  lemma IsoFormatFields(t: DateTime)
    ensures ParseInt(IsoFormat(t)[0..4]) == Some(t.year)
    ensures ParseInt(IsoFormat(t)[5..7]) == Some(t.month)
    ensures ParseInt(IsoFormat(t)[8..10]) == Some(t.day)
    ensures ParseInt(IsoFormat(t)[11..13]) == Some(t.hour)
    ensures ParseInt(IsoFormat(t)[14..16]) == Some(t.minute)
  {
    IsoFormatLayout(t);
    ParseIntZeroPad(t.year, 4);
    ParseIntZeroPad(t.month, 2);
    ParseIntZeroPad(t.day, 2);
    ParseIntZeroPad(t.hour, 2);
    ParseIntZeroPad(t.minute, 2);
  }

  /** A field of decimal digits read as a number. */
  function ReadDigits(s: string): Option<nat>
  {
    if |s| > 0 && AllDigits(s) then Some(DigitsValue(s)) else None
  }

  /** Reads an ISO text YYYY-MM-DDTHH:MM:SS back into its components. */
  function ReadIso(s: string): Option<Stamp>
  {
    if |s| != 19 || s[4] != '-' || s[7] != '-' || s[10] != 'T' || s[13] != ':' || s[16] != ':'
       || s[17..] != "00"
    then None
    else
      match (ReadDigits(s[0..4]), ReadDigits(s[5..7]), ReadDigits(s[8..10]),
             ReadDigits(s[11..13]), ReadDigits(s[14..16]))
      case (Some(y), Some(mo), Some(d), Some(h), Some(mi)) => Some(Stamp(y, mo, d, h, mi))
      case _ => None
  }

  /** isoformat() loses nothing: reading its text back gives the timestamp. */
  lemma IsoRoundTrip(t: DateTime)
    ensures ReadIso(IsoFormat(t)) == Some(t)
  {
    IsoFormatLayout(t);
    var s := IsoFormat(t);
    assert s[4] == '-' && s[7] == '-' && s[10] == 'T' && s[13] == ':' && s[16] == ':' && s[17..] == "00" by {
      var y, mo, d := ZeroPad(t.year, 4), ZeroPad(t.month, 2), ZeroPad(t.day, 2);
      var h, mi := ZeroPad(t.hour, 2), ZeroPad(t.minute, 2);
      assert s == y + "-" + mo + "-" + d + "T" + (h + ":" + mi) + ":00";
    }
    DigitsValueOfZeroPad(t.year, 4);
    DigitsValueOfZeroPad(t.month, 2);
    DigitsValueOfZeroPad(t.day, 2);
    DigitsValueOfZeroPad(t.hour, 2);
    DigitsValueOfZeroPad(t.minute, 2);
  }
}
