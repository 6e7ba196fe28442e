/**
 * Calendar date and time of day (util/DateTime.cpp): clamping setters, the
 * comparison operators, formatting and the two parsers. now, toTimeStamp and
 * fromTimeStamp depend on the C library's clock and time zone and are not part
 * of this model.
 */
module DateTimes {
  import opened Wrappers
  import opened StrUtil

  /** The six fields of a DateTime, as the comparison operators and formatters read them. */
  datatype Stamp = Stamp(year: int, month: int, day: int, hour: int, minute: int, second: int)
  {
    /** The ranges setDate and setTime clamp into. */
    predicate InRange()
    {
      1 <= day <= 31 && 1 <= month <= 12 && 0 <= year <= 10000 &&
      0 <= hour <= 23 && 0 <= minute <= 59 && 0 <= second <= 59
    }

    function Fields(): seq<int>
    {
      [year, month, day, hour, minute, second]
    }
  }

  function Clamp(v: int, lo: int, hi: int): (r: int)
    requires lo <= hi
    ensures lo <= r <= hi
    ensures lo <= v <= hi ==> r == v
    ensures v < lo ==> r == lo
    ensures v > hi ==> r == hi
  {
    if v < lo then lo else if v > hi then hi else v
  }

  // ---------------------------------------------------------------------------
  // comparison
  // ---------------------------------------------------------------------------

  /** operator<, as the cascade of field comparisons the source writes. */
  predicate Less(a: Stamp, b: Stamp)
  {
    if a.year < b.year then true else if a.year > b.year then false
    else if a.month < b.month then true else if a.month > b.month then false
    else if a.day < b.day then true else if a.day > b.day then false
    else if a.hour < b.hour then true else if a.hour > b.hour then false
    else if a.minute < b.minute then true else if a.minute > b.minute then false
    else if a.second < b.second then true else if a.second > b.second then false
    else false
  }

  /** operator> is !< && !=. */
  predicate Greater(a: Stamp, b: Stamp) { !Less(a, b) && a != b }

  /** operator<= is !>. */
  predicate LessEq(a: Stamp, b: Stamp) { !Greater(a, b) }

  /** operator>= is !<. */
  predicate GreaterEq(a: Stamp, b: Stamp) { !Less(a, b) }

  /** The lexicographic order on equally long integer sequences: the reference for operator<. */
  predicate LexLess(xs: seq<int>, ys: seq<int>)
    requires |xs| == |ys|
  {
    |xs| > 0 && (xs[0] < ys[0] || (xs[0] == ys[0] && LexLess(xs[1..], ys[1..])))
  }

  lemma LexLessUnfold(xs: seq<int>, ys: seq<int>)
    requires |xs| == |ys| && |xs| > 0
    ensures LexLess(xs, ys) <==> xs[0] < ys[0] || (xs[0] == ys[0] && LexLess(xs[1..], ys[1..]))
  {
  }

  /** operator< is exactly the lexicographic order on (year, month, day, hour, minute, second). */
  lemma {:induction false} LessIsLexicographic(a: Stamp, b: Stamp)
    ensures Less(a, b) <==> LexLess(a.Fields(), b.Fields())
  {
    var xs, ys := a.Fields(), b.Fields();
    assert xs[1..] == [a.month, a.day, a.hour, a.minute, a.second];
    assert ys[1..] == [b.month, b.day, b.hour, b.minute, b.second];
    assert xs[1..][1..] == [a.day, a.hour, a.minute, a.second];
    assert ys[1..][1..] == [b.day, b.hour, b.minute, b.second];
    assert xs[1..][1..][1..] == [a.hour, a.minute, a.second];
    assert ys[1..][1..][1..] == [b.hour, b.minute, b.second];
    assert xs[1..][1..][1..][1..] == [a.minute, a.second];
    assert ys[1..][1..][1..][1..] == [b.minute, b.second];
    assert xs[1..][1..][1..][1..][1..] == [a.second];
    assert ys[1..][1..][1..][1..][1..] == [b.second];
    assert !LexLess([a.second][1..], [b.second][1..]);
    LexLessUnfold([a.second], [b.second]);
    LexLessUnfold([a.minute, a.second], [b.minute, b.second]);
    LexLessUnfold([a.hour, a.minute, a.second], [b.hour, b.minute, b.second]);
    LexLessUnfold(xs[1..][1..], ys[1..][1..]);
    LexLessUnfold(xs[1..], ys[1..]);
    LexLessUnfold(xs, ys);
  }

  /** operator< is a strict total order on stamps. */
  lemma LessIsStrictTotalOrder(a: Stamp, b: Stamp, c: Stamp)
    ensures !Less(a, a)
    ensures Less(a, b) ==> !Less(b, a)
    ensures Less(a, b) && Less(b, c) ==> Less(a, c)
    ensures a != b ==> Less(a, b) || Less(b, a)
  {
  }

  /** Exactly one of <, ==, > holds, and > is < with the operands swapped. */
  lemma Trichotomy(a: Stamp, b: Stamp)
    ensures (if Less(a, b) then 1 else 0) + (if a == b then 1 else 0) + (if Greater(a, b) then 1 else 0) == 1
    ensures Greater(a, b) <==> Less(b, a)
  {
  }

  /** <= and >= are the reflexive closures of < and >. */
  lemma NonStrictOrders(a: Stamp, b: Stamp)
    ensures LessEq(a, b) <==> Less(a, b) || a == b
    ensures GreaterEq(a, b) <==> Less(b, a) || a == b
    ensures LessEq(a, b) || LessEq(b, a)
  {
  }

  // ---------------------------------------------------------------------------
  // formatting
  // ---------------------------------------------------------------------------

  /** C++ '%' truncates toward zero: the remainder takes the sign of the dividend. */
  function CRem(a: int, b: int): (r: int)
    requires b > 0
    ensures a >= 0 ==> 0 <= r < b && r == a % b
    ensures a < 0 ==> -b < r <= 0
  {
    if a >= 0 then a % b else -((-a) % b)
  }

  /** A "0" in front of values below 10, then std::to_string. */
  function Pad2(v: int): string
  {
    (if v < 10 then "0" else "") + Decimal(v)
  }

  function ToStringTime(t: Stamp): string
  {
    Pad2(t.hour) + ":" + Pad2(t.minute) + ":" + Pad2(t.second)
  }

  const DefaultFormat: string := "dd.mm.yyyy"

  function ToStringDate(t: Stamp, format: string): string
  {
    var r1 := Replace(format, "dd", Pad2(t.day));
    var r2 := Replace(r1, "mm", Pad2(t.month));
    var r3 := Replace(r2, "yyyy", Decimal(t.year));
    Replace(r3, "yy", Decimal(CRem(t.year, 100)))
  }

  function ToString(t: Stamp): string
  {
    ToStringDate(t, DefaultFormat) + " " + ToStringTime(t)
  }

  predicate AllDigits(s: string)
  {
    forall i :: 0 <= i < |s| ==> IsDigit(s[i])
  }

  /** A field between 0 and 99 renders as exactly two digits that read back as the field. */
  lemma Pad2Field(v: int)
    requires 0 <= v < 100
    ensures |Pad2(v)| == 2 && AllDigits(Pad2(v))
    ensures ParseIntPrefix(Pad2(v)) == Some(v)
  {
    NatDecimalDigits(v);
    if v < 10 {
      ParseZeroPaddedDecimal(v);
    } else {
      assert NatDecimal(v / 10) == [DigitChar(v / 10)];
      assert NatDecimal(v) == NatDecimal(v / 10) + [DigitChar(v % 10)];
      assert Pad2(v) == NatDecimal(v);
      ParseDecimal(v);
    }
  }

  lemma DecimalField(v: int)
    requires 0 <= v <= INT_MAX
    ensures 0 < |Decimal(v)| && AllDigits(Decimal(v))
    ensures ParseIntPrefix(Decimal(v)) == Some(v)
  {
    NatDecimalDigits(v);
    ParseDecimal(v);
  }

  /** For fields in range, toStringTime is hh:mm:ss with every field two digits wide. */
  lemma ToStringTimeShape(t: Stamp)
    requires t.InRange()
    ensures var r := ToStringTime(t);
            |r| == 8 && r[2] == ':' && r[5] == ':' &&
            r[0..2] == Pad2(t.hour) && r[3..5] == Pad2(t.minute) && r[6..8] == Pad2(t.second) &&
            ParseIntPrefix(r[0..2]) == Some(t.hour) &&
            ParseIntPrefix(r[3..5]) == Some(t.minute) &&
            ParseIntPrefix(r[6..8]) == Some(t.second)
  {
    Pad2Field(t.hour);
    Pad2Field(t.minute);
    Pad2Field(t.second);
    ColonJoined(Pad2(t.hour), Pad2(t.minute), Pad2(t.second));
  }

  /** Three two-character fields joined by colons, and where each one sits. */
  lemma ColonJoined(a: string, b: string, c: string)
    requires |a| == 2 && |b| == 2 && |c| == 2
    ensures var r := a + ":" + b + ":" + c;
            |r| == 8 && r[2] == ':' && r[5] == ':' && r[0..2] == a && r[3..5] == b && r[6..8] == c
  {
  }

  /** The default format renders as dd.mm.yyyy: two-digit day and month, the year in full. */
  lemma DefaultFormatShape(t: Stamp)
    requires t.InRange()
    ensures ToStringDate(t, DefaultFormat) == Pad2(t.day) + "." + Pad2(t.month) + "." + Decimal(t.year)
  {
    var dd, mm, yyyy := Pad2(t.day), Pad2(t.month), Decimal(t.year);
    Pad2Field(t.day);
    Pad2Field(t.month);
    DecimalField(t.year);
    DefaultDay(dd);
    DefaultMonth(dd, mm);
    DefaultYear(dd, mm, yyyy, Decimal(CRem(t.year, 100)));
  }

  lemma DefaultDay(dd: string)
    requires AllDigits(dd)
    ensures Replace(DefaultFormat, "dd", dd) == dd + ".mm.yyyy"
  {
    assert DefaultFormat == "" + "dd" + ".mm.yyyy";
    ReplaceSingle("", "dd", ".mm.yyyy", dd);
    assert "" + dd + ".mm.yyyy" == dd + ".mm.yyyy";
  }

  lemma DefaultMonth(dd: string, mm: string)
    requires AllDigits(dd) && AllDigits(mm)
    ensures Replace(dd + ".mm.yyyy", "mm", mm) == dd + "." + mm + ".yyyy"
  {
    assert dd + ".mm.yyyy" == (dd + ".") + "mm" + ".yyyy";
    ReplaceSingle(dd + ".", "mm", ".yyyy", mm);
    assert (dd + ".") + mm + ".yyyy" == dd + "." + mm + ".yyyy";
  }

  lemma DefaultYear(dd: string, mm: string, yyyy: string, yy: string)
    requires AllDigits(dd) && AllDigits(mm) && AllDigits(yyyy)
    ensures Replace(Replace(dd + "." + mm + ".yyyy", "yyyy", yyyy), "yy", yy) == dd + "." + mm + "." + yyyy
  {
    assert dd + "." + mm + ".yyyy" == (dd + "." + mm + ".") + "yyyy" + "";
    ReplaceSingle(dd + "." + mm + ".", "yyyy", "", yyyy);
    var r3 := dd + "." + mm + "." + yyyy;
    assert (dd + "." + mm + ".") + yyyy + "" == r3;
    ReplaceAbsent(r3, "yy", yy);
  }

  /** The format "yyyy-mm-dd", which fromStringYYYYMMDD reads, renders as the year, then two-digit month and day. */
  lemma IsoFormatShape(t: Stamp)
    requires t.InRange()
    ensures ToStringDate(t, "yyyy-mm-dd") == Decimal(t.year) + "-" + Pad2(t.month) + "-" + Pad2(t.day)
  {
    var dd, mm, yyyy := Pad2(t.day), Pad2(t.month), Decimal(t.year);
    Pad2Field(t.day);
    Pad2Field(t.month);
    DecimalField(t.year);
    IsoDay(dd);
    IsoMonth(mm, dd);
    IsoYear(yyyy, mm, dd, Decimal(CRem(t.year, 100)));
  }

  lemma IsoDay(dd: string)
    requires AllDigits(dd)
    ensures Replace("yyyy-mm-dd", "dd", dd) == "yyyy-mm-" + dd
  {
    assert "yyyy-mm-dd" == "yyyy-mm-" + "dd" + "";
    ReplaceSingle("yyyy-mm-", "dd", "", dd);
    assert "yyyy-mm-" + dd + "" == "yyyy-mm-" + dd;
  }

  lemma IsoMonth(mm: string, dd: string)
    requires AllDigits(mm) && AllDigits(dd)
    ensures Replace("yyyy-mm-" + dd, "mm", mm) == "yyyy-" + mm + "-" + dd
  {
    assert "yyyy-mm-" + dd == "yyyy-" + "mm" + ("-" + dd);
    ReplaceSingle("yyyy-", "mm", "-" + dd, mm);
    assert "yyyy-" + mm + ("-" + dd) == "yyyy-" + mm + "-" + dd;
  }

  lemma IsoYear(yyyy: string, mm: string, dd: string, yy: string)
    requires AllDigits(yyyy) && AllDigits(mm) && AllDigits(dd)
    ensures Replace(Replace("yyyy-" + mm + "-" + dd, "yyyy", yyyy), "yy", yy) == yyyy + "-" + mm + "-" + dd
  {
    assert "yyyy-" + mm + "-" + dd == "" + "yyyy" + ("-" + mm + "-" + dd);
    ReplaceSingle("", "yyyy", "-" + mm + "-" + dd, yyyy);
    var r3 := yyyy + "-" + mm + "-" + dd;
    assert "" + yyyy + ("-" + mm + "-" + dd) == r3;
    ReplaceAbsent(r3, "yy", yy);
  }

  // ---------------------------------------------------------------------------
  // parsing
  // ---------------------------------------------------------------------------

  /**
   * The outcome of fromString: Rejected is the "return false" path. On the
   * other path the source falls off the end of a bool function, so only the
   * new field values are defined, not the returned value.
   */
  datatype ParseOutcome = Rejected | Applied

  /** The (day, month, year) fromString hands on to setDate, before clamping. */
  function ParsedDate(parts: seq<string>, dayAt: nat, monthAt: nat, yearAt: nat): (r: (int, int, int))
    requires dayAt < |parts| && monthAt < |parts| && yearAt < |parts|
  {
    var y := ToInt(parts[yearAt], -1);
    (ToInt(parts[dayAt], -1), ToInt(parts[monthAt], -1), if y < 100 then y + 2000 else y)
  }

  class DateTime {
    var year: int
    var month: int
    var day: int
    var hour: int
    var minute: int
    var second: int

    function AsStamp(): Stamp
      reads this
    {
      Stamp(year, month, day, hour, minute, second)
    }

    /** 01.01.1970 00:00:00. */
    constructor ()
      ensures AsStamp() == Stamp(1970, 1, 1, 0, 0, 0)
    {
      day, month, year := 1, 1, 1970;
      hour, minute, second := 0, 0, 0;
    }

    constructor FromDate(day: int, month: int, year: int)
      ensures AsStamp() == Stamp(Clamp(year, 0, 10000), Clamp(month, 1, 12), Clamp(day, 1, 31), 0, 0, 0)
      ensures AsStamp().InRange()
    {
      this.day := Clamp(day, 1, 31);
      this.month := Clamp(month, 1, 12);
      this.year := Clamp(year, 0, 10000);
      hour, minute, second := 0, 0, 0;
    }

    constructor FromDateAndTime(day: int, month: int, year: int, hour: int, minute: int, second: int)
      ensures AsStamp() == Stamp(Clamp(year, 0, 10000), Clamp(month, 1, 12), Clamp(day, 1, 31),
                               Clamp(hour, 0, 23), Clamp(minute, 0, 59), Clamp(second, 0, 59))
      ensures AsStamp().InRange()
    {
      this.day := Clamp(day, 1, 31);
      this.month := Clamp(month, 1, 12);
      this.year := Clamp(year, 0, 10000);
      this.hour := Clamp(hour, 0, 23);
      this.minute := Clamp(minute, 0, 59);
      this.second := Clamp(second, 0, 59);
    }

    /** Day into [1, 31], month into [1, 12], year into [0, 10000]; the time is untouched. */
    method SetDate(day: int, month: int, year: int)
      modifies this
      ensures this.day == Clamp(day, 1, 31) && this.month == Clamp(month, 1, 12) && this.year == Clamp(year, 0, 10000)
      ensures hour == old(hour) && minute == old(minute) && second == old(second)
    {
      this.day := day;
      this.day := if this.day < 1 then 1 else this.day;
      this.day := if this.day > 31 then 31 else this.day;
      this.month := month;
      this.month := if this.month < 1 then 1 else this.month;
      this.month := if this.month > 12 then 12 else this.month;
      this.year := year;
      this.year := if this.year < 0 then 0 else this.year;
      this.year := if this.year > 10000 then 10000 else this.year;
    }

    /** Hour into [0, 23], minute and second into [0, 59]; the date is untouched. */
    method SetTime(hour: int, minute: int, second: int)
      modifies this
      ensures this.hour == Clamp(hour, 0, 23) && this.minute == Clamp(minute, 0, 59) && this.second == Clamp(second, 0, 59)
      ensures day == old(day) && month == old(month) && year == old(year)
    {
      this.hour := hour;
      this.hour := if this.hour < 0 then 0 else this.hour;
      this.hour := if this.hour > 23 then 23 else this.hour;
      this.minute := minute;
      this.minute := if this.minute < 0 then 0 else this.minute;
      this.minute := if this.minute > 59 then 59 else this.minute;
      this.second := second;
      this.second := if this.second < 0 then 0 else this.second;
      this.second := if this.second > 59 then 59 else this.second;
    }

    method ResetTime()
      modifies this
      ensures AsStamp() == old(AsStamp()).(hour := 0, minute := 0, second := 0)
    {
      hour, minute, second := 0, 0, 0;
    }

    /** dd.mm.yy(yy): three non-empty '.'-separated parts, or nothing changes. */
    method FromString(str: string) returns (outcome: ParseOutcome)
      modifies this
      ensures var parts := SplitSpec(str, ".", false);
              if |parts| == 3 then
                var (d, m, y) := ParsedDate(parts, 0, 1, 2);
                outcome == Applied &&
                AsStamp() == old(AsStamp()).(day := Clamp(d, 1, 31), month := Clamp(m, 1, 12), year := Clamp(y, 0, 10000))
              else
                outcome == Rejected && AsStamp() == old(AsStamp())
    {
      var parts := Split(str, ".", false);
      if |parts| == 3 {
        day := ToInt(parts[0], -1);
        month := ToInt(parts[1], -1);
        year := ToInt(parts[2], -1);
        if year < 100 {
          year := year + 2000;
        }
        SetDate(day, month, year);
        outcome := Applied;
      } else {
        outcome := Rejected;
      }
    }

    /** yyyy-mm-dd: three non-empty '-'-separated parts, or nothing changes. */
    method FromStringYYYYMMDD(str: string) returns (outcome: ParseOutcome)
      modifies this
      ensures var parts := SplitSpec(str, "-", false);
              if |parts| == 3 then
                var (d, m, y) := ParsedDate(parts, 2, 1, 0);
                outcome == Applied &&
                AsStamp() == old(AsStamp()).(day := Clamp(d, 1, 31), month := Clamp(m, 1, 12), year := Clamp(y, 0, 10000))
              else
                outcome == Rejected && AsStamp() == old(AsStamp())
    {
      var parts := Split(str, "-", false);
      if |parts| == 3 {
        year := ToInt(parts[0], -1);
        month := ToInt(parts[1], -1);
        day := ToInt(parts[2], -1);
        if year < 100 {
          year := year + 2000;
        }
        SetDate(day, month, year);
        outcome := Applied;
      } else {
        outcome := Rejected;
      }
    }
  }

  /** Splitting the rendered default date on '.' gives back its three fields. */
  lemma DefaultFormatParts(t: Stamp)
    requires t.InRange()
    ensures SplitSpec(ToStringDate(t, DefaultFormat), ".", false) == [Pad2(t.day), Pad2(t.month), Decimal(t.year)]
  {
    DefaultFormatShape(t);
    Pad2Field(t.day);
    Pad2Field(t.month);
    DecimalField(t.year);
    SplitThree(Pad2(t.day), Pad2(t.month), Decimal(t.year), '.');
  }

  lemma IsoFormatParts(t: Stamp)
    requires t.InRange()
    ensures SplitSpec(ToStringDate(t, "yyyy-mm-dd"), "-", false) == [Decimal(t.year), Pad2(t.month), Pad2(t.day)]
  {
    IsoFormatShape(t);
    Pad2Field(t.day);
    Pad2Field(t.month);
    DecimalField(t.year);
    SplitThree(Decimal(t.year), Pad2(t.month), Pad2(t.day), '-');
  }

  /**
   * Round trip: for fields in range and a year of at least 100, fromString
   * reads back the day, month and year that toStringDate wrote.
   */
  lemma DefaultFormatRoundTrip(t: Stamp)
    requires t.InRange() && t.year >= 100
    ensures var parts := SplitSpec(ToStringDate(t, DefaultFormat), ".", false);
            |parts| == 3 && ParsedDate(parts, 0, 1, 2) == (t.day, t.month, t.year)
  {
    DefaultFormatParts(t);
    Pad2Field(t.day);
    Pad2Field(t.month);
    DecimalField(t.year);
  }

  /** The same for fromStringYYYYMMDD and the format "yyyy-mm-dd". */
  lemma IsoFormatRoundTrip(t: Stamp)
    requires t.InRange() && t.year >= 100
    ensures var parts := SplitSpec(ToStringDate(t, "yyyy-mm-dd"), "-", false);
            |parts| == 3 && ParsedDate(parts, 2, 1, 0) == (t.day, t.month, t.year)
  {
    IsoFormatParts(t);
    Pad2Field(t.day);
    Pad2Field(t.month);
    DecimalField(t.year);
  }

  /** A two-digit year is read as 20yy. */
  lemma TwoDigitYear(t: Stamp)
    requires t.InRange() && t.year < 100
    ensures var parts := SplitSpec(ToStringDate(t, DefaultFormat), ".", false);
            |parts| == 3 && ParsedDate(parts, 0, 1, 2) == (t.day, t.month, t.year + 2000)
  {
    DefaultFormatParts(t);
    Pad2Field(t.day);
    Pad2Field(t.month);
    DecimalField(t.year);
  }
}
