/**
 * Calendar dates in the proleptic Gregorian calendar, the date part of
 * Date.prototype.toISOString, and the forms of the ECMAScript date-time
 * string format that `new Date(string)` reads, as V8 reads them: any day of
 * the month from 01 to 31 is accepted and carried into the next month when
 * the month is shorter, and 24:00 is the end of the day.
 */
module Calendar {
  import opened Base

  datatype Date = Date(year: int, month: int, day: int)

  predicate IsLeap(y: int) {
    (y % 4 == 0 && y % 100 != 0) || y % 400 == 0
  }

  function DaysIn(y: int, m: int): (n: int)
    requires 1 <= m <= 12
    ensures 28 <= n <= 31
  {
    if m == 2 then (if IsLeap(y) then 29 else 28)
    else if m == 4 || m == 6 || m == 9 || m == 11 then 30
    else 31
  }

  predicate Valid(d: Date) {
    1 <= d.month <= 12 && 1 <= d.day <= DaysIn(d.year, d.month)
  }

  /** The calendar day after `d` (what `setDate(getDate() + 1)` gives in UTC). */
  function Next(d: Date): (r: Date)
    requires Valid(d)
    ensures Valid(r)
  {
    if d.day < DaysIn(d.year, d.month) then d.(day := d.day + 1)
    else if d.month < 12 then Date(d.year, d.month + 1, 1)
    else Date(d.year + 1, 1, 1)
  }

  /** The calendar day before `d` (what `setDate(getDate() - 1)` gives in UTC). */
  function Prev(d: Date): (r: Date)
    requires Valid(d)
    ensures Valid(r)
  {
    if d.day > 1 then d.(day := d.day - 1)
    else if d.month > 1 then Date(d.year, d.month - 1, DaysIn(d.year, d.month - 1))
    else Date(d.year - 1, 12, 31)
  }

  /** The date `n` days after `d`. */
  function After(d: Date, n: nat): (r: Date)
    requires Valid(d)
    ensures Valid(r)
    decreases n
  {
    if n == 0 then d else After(Next(d), n - 1)
  }

  /** The first day of the month after the month of `d`. */
  function NextMonth(d: Date): (r: Date)
    requires Valid(d)
    ensures Valid(r) && r.day == 1
  {
    if d.month < 12 then Date(d.year, d.month + 1, 1) else Date(d.year + 1, 1, 1)
  }

  /** Within a month, counting days forward moves only the day of the month. */
  lemma {:induction false} AfterInMonth(d: Date, k: nat)
    requires Valid(d) && d.day + k <= DaysIn(d.year, d.month)
    ensures After(d, k) == d.(day := d.day + k)
    decreases k
  {
    if k > 0 {
      AfterInMonth(Next(d), k - 1);
    }
  }

  /** Counting past the end of the month lands in the next month, with the excess as the day. */
  lemma {:induction false} AfterIntoNextMonth(d: Date, k: nat)
    requires Valid(d) && DaysIn(d.year, d.month) < d.day + k <= DaysIn(d.year, d.month) + 28
    ensures After(d, k) == NextMonth(d).(day := d.day + k - DaysIn(d.year, d.month))
    decreases k
  {
    if d.day == DaysIn(d.year, d.month) {
      AfterInMonth(NextMonth(d), k - 1);
    } else {
      AfterIntoNextMonth(Next(d), k - 1);
    }
  }

  /**
   * The date V8 makes of a year, a month and a day of the month from 1 to 31:
   * that many days counted from the first of the month, so a day past the
   * month's end carries into the next month of the same year.
   */
  function MakeDay(y: int, m: int, day: int): (r: Date)
    requires 1 <= m <= 12 && 1 <= day <= 31
    ensures Valid(r) && r.year == y
    ensures r == After(Date(y, m, 1), day - 1)
    ensures Valid(Date(y, m, day)) ==> r == Date(y, m, day)
  {
    var first := Date(y, m, 1);
    var n := DaysIn(y, m);
    if day <= n then
      AfterInMonth(first, day - 1);
      Date(y, m, day)
    else
      AfterIntoNextMonth(first, day - 1);
      NextMonth(first).(day := day - n)
  }

  /** Chronological order. */
  predicate Before(a: Date, b: Date) {
    a.year < b.year || (a.year == b.year && (a.month < b.month || (a.month == b.month && a.day < b.day)))
  }

  /** Stepping back a day and forward a day are inverse, across month and year ends. */
  lemma NextPrev(d: Date)
    requires Valid(d)
    ensures Next(Prev(d)) == d && Prev(Next(d)) == d
    ensures Before(Prev(d), d) && Before(d, Next(d))
  {
  }

  // ---------------------------------------------------------------------------
  // Text forms.

  function Digits(n: nat, width: nat): (s: string)
    ensures |s| == width
    ensures forall i | 0 <= i < |s| :: '0' <= s[i] <= '9'
  {
    if width == 0 then "" else Digits(n / 10, width - 1) + [DigitChar(n % 10)]
  }

  function DigitValue(c: char): nat
    requires '0' <= c <= '9'
  {
    c as int - '0' as int
  }

  function DigitsValue(s: string): nat
    requires forall i | 0 <= i < |s| :: '0' <= s[i] <= '9'
  {
    if s == [] then 0 else DigitsValue(s[..|s| - 1]) * 10 + DigitValue(s[|s| - 1])
  }

  function Pow10(k: nat): (r: nat)
    ensures r >= 1
  {
    if k == 0 then 1 else 10 * Pow10(k - 1)
  }

  lemma {:induction false} DigitsRoundTrip(n: nat, width: nat)
    requires n < Pow10(width)
    ensures DigitsValue(Digits(n, width)) == n
  {
    if width > 0 {
      var s := Digits(n, width);
      assert s[..|s| - 1] == Digits(n / 10, width - 1);
      DigitsRoundTrip(n / 10, width - 1);
      assert DigitValue(DigitChar(n % 10)) == n % 10;
    }
  }

  /**
   * The date part of toISOString: four-digit years for 0..9999, otherwise a
   * sign and six digits.
   */
  function FormatIso(d: Date): (s: string)
    requires Valid(d)
    ensures 'T' !in s && '/' !in s && s != "" && s != "."
  {
    var y := if 0 <= d.year <= 9999 then Digits(d.year, 4)
             else (if d.year < 0 then "-" else "+") + Digits(if d.year < 0 then -d.year else d.year, 6);
    y + "-" + Digits(d.month, 2) + "-" + Digits(d.day, 2)
  }

  predicate AllDigits(s: string) {
    forall i | 0 <= i < |s| :: '0' <= s[i] <= '9'
  }

  /**
   * `new Date(s)` for the forms YYYY, YYYY-MM, YYYY-MM-DD and
   * YYYY-MM-DDTHH:mm[:ss[.sss]][Z], giving the calendar date; None is the
   * invalid Date. A time of 24:00 gives the next day.
   */
  function ParseIso(s: string): (r: Option<Date>)
    ensures r.Some? ==> Valid(r.value) && 0 <= r.value.year <= 10000
    ensures |s| == 10 ==> r == ParseYmd(s)
    ensures |s| > 10 ==> (r.Some? ==> s[10] == 'T' && IsTime(s[11..]) && ParseYmd(s[..10]).Some?)
    ensures |s| > 10 && s[10] == 'T' && IsTime(s[11..]) && ParseYmd(s[..10]).Some? ==>
      r == Some(if EndOfDay(s[11..]) then Next(ParseYmd(s[..10]).value) else ParseYmd(s[..10]).value)
  {
    if |s| == 4 && AllDigits(s) then
      DigitsBound(s);
      Some(Date(DigitsValue(s), 1, 1))
    else if |s| == 7 && AllDigits(s[..4]) && s[4] == '-' && AllDigits(s[5..]) then
      var m := DigitsValue(s[5..]);
      DigitsBound(s[..4]);
      if 1 <= m <= 12 then Some(Date(DigitsValue(s[..4]), m, 1)) else None
    else if |s| == 10 then ParseYmd(s)
    else if |s| > 10 && s[10] == 'T' && IsTime(s[11..]) then
      var d := ParseYmd(s[..10]);
      if d.Some? && EndOfDay(s[11..]) then Some(Next(d.value)) else d
    else None
  }

  /** Two digits whose value is below `bound`. */
  predicate TwoDigitsBelow(s: string, bound: nat) {
    |s| == 2 && AllDigits(s) && DigitsValue(s) < bound
  }

  /**
   * The time of day after the 'T': HH:mm, optionally :ss and .sss, optionally
   * Z; the hour runs to 24, and hour 24 only with every other digit zero.
   */
  predicate IsTime(t: string) {
    var u := if t != [] && t[|t| - 1] == 'Z' then t[..|t| - 1] else t;
    (|u| == 5 || |u| == 8 || |u| == 12) &&
    TwoDigitsBelow(u[..2], 25) && u[2] == ':' && TwoDigitsBelow(u[3..5], 60) &&
    (|u| >= 8 ==> u[5] == ':' && TwoDigitsBelow(u[6..8], 60)) &&
    (|u| == 12 ==> u[8] == '.' && AllDigits(u[9..])) &&
    (u[..2] == "24" ==> forall i | 3 <= i < |u| :: u[i] == '0' || u[i] == ':' || u[i] == '.')
  }

  /** A time of day whose hour is 24: the end of the day. */
  predicate EndOfDay(t: string) {
    |t| >= 2 && t[..2] == "24"
  }

  /** Four digits, '-', two digits, '-', two digits. */
  predicate YmdShape(s: string) {
    |s| == 10 && AllDigits(s[..4]) && s[4] == '-' && AllDigits(s[5..7]) && s[7] == '-' && AllDigits(s[8..])
  }

  /**
   * YYYY-MM-DD: a month from 01 to 12 and a day from 01 to 31, giving that
   * many days counted from the first of the month.
   */
  function ParseYmd(s: string): (r: Option<Date>)
    requires |s| == 10
    ensures r.Some? <==> YmdShape(s) && 1 <= DigitsValue(s[5..7]) <= 12 && 1 <= DigitsValue(s[8..]) <= 31
    ensures r.Some? ==> r.value == After(Date(DigitsValue(s[..4]), DigitsValue(s[5..7]), 1), DigitsValue(s[8..]) - 1)
    ensures r.Some? ==> 0 <= r.value.year <= 9999
  {
    if YmdShape(s) then
      var y, m, day := DigitsValue(s[..4]), DigitsValue(s[5..7]), DigitsValue(s[8..]);
      DigitsBound(s[..4]);
      if 1 <= m <= 12 && 1 <= day <= 31 then Some(MakeDay(y, m, day)) else None
    else None
  }

  /** The 30th of February 2024 is read as the 1st of March. */
  lemma LeapFebruaryOverflow()
    ensures ParseIso("2024-02-30") == Some(Date(2024, 3, 1))
  {
    var s := "2024-02-30";
    assert s[..4] == "2024" && s[5..7] == "02" && s[8..] == "30";
    assert DigitsValue("2024") == 2024 by {
      assert "2024"[..3] == "202" && "202"[..2] == "20" && "20"[..1] == "2";
    }
    assert DigitsValue("02") == 2 && DigitsValue("30") == 30 by {
      assert "02"[..1] == "0" && "30"[..1] == "3";
    }
    assert YmdShape(s);
    assert DaysIn(2024, 2) == 29;
    assert ParseYmd(s) == Some(MakeDay(2024, 2, 30));
  }

  /** "T24:00" is the end of the day, which is the start of the next; "T00:00" is its start. */
  lemma EndOfDayIsNextDay(ymd: string)
    requires |ymd| == 10 && ParseYmd(ymd).Some?
    ensures ParseIso(ymd + "T24:00") == Some(Next(ParseYmd(ymd).value))
    ensures ParseIso(ymd + "T00:00") == ParseYmd(ymd)
  {
    var late, early := ymd + "T24:00", ymd + "T00:00";
    assert late[..10] == ymd && late[11..] == "24:00" && "24:00"[..2] == "24" && "24:00"[3..5] == "00";
    assert early[..10] == ymd && early[11..] == "00:00" && "00:00"[..2] == "00" && "00:00"[3..5] == "00";
    assert DigitsValue("24") == 24 by { assert "24"[..1] == "2"; }
    assert DigitsValue("00") == 0 by { assert "00"[..1] == "0"; }
  }

  lemma {:induction false} DigitsBound(s: string)
    requires AllDigits(s)
    ensures DigitsValue(s) < Pow10(|s|)
    ensures |s| == 4 ==> DigitsValue(s) <= 9999
  {
    if s != [] {
      DigitsBound(s[..|s| - 1]);
    }
    assert Pow10(4) == 10000;
  }

  /** Reading back a formatted date gives the date. */
  lemma ParseFormat(d: Date)
    requires Valid(d) && 0 <= d.year <= 9999
    ensures ParseIso(FormatIso(d)) == Some(d)
  {
    FormatShape(d);
    RoundTrips(d);
    ReadBack(Digits(d.year, 4), Digits(d.month, 2), Digits(d.day, 2), d);
  }

  lemma FormatShape(d: Date)
    requires Valid(d) && 0 <= d.year <= 9999
    ensures FormatIso(d) == Digits(d.year, 4) + "-" + Digits(d.month, 2) + "-" + Digits(d.day, 2)
  {
  }

  /** The pieces of a valid date, read back, give the date. */
  lemma ReadBack(y: string, m: string, dd: string, d: Date)
    requires Valid(d)
    requires |y| == 4 && |m| == 2 && |dd| == 2 && AllDigits(y) && AllDigits(m) && AllDigits(dd)
    requires DigitsValue(y) == d.year && DigitsValue(m) == d.month && DigitsValue(dd) == d.day
    ensures ParseIso(y + "-" + m + "-" + dd) == Some(d)
  {
    ReadPieces(y, m, dd);
    ParseTen(y + "-" + m + "-" + dd);
  }

  /** Ten characters are read as YYYY-MM-DD or not at all. */
  lemma ParseTen(s: string)
    requires |s| == 10
    ensures ParseIso(s) == ParseYmd(s)
  {
  }

  lemma RoundTrips(d: Date)
    requires Valid(d) && 0 <= d.year <= 9999
    ensures DigitsValue(Digits(d.year, 4)) == d.year
    ensures DigitsValue(Digits(d.month, 2)) == d.month
    ensures DigitsValue(Digits(d.day, 2)) == d.day
  {
    assert Pow10(4) == 10000 && Pow10(2) == 100;
    DigitsRoundTrip(d.year, 4);
    DigitsRoundTrip(d.month, 2);
    DigitsRoundTrip(d.day, 2);
  }

  /** A date written as YYYY-MM-DD is read field by field. */
  lemma ReadPieces(y: string, m: string, dd: string)
    requires |y| == 4 && |m| == 2 && |dd| == 2 && AllDigits(y) && AllDigits(m) && AllDigits(dd)
    ensures var s := y + "-" + m + "-" + dd;
      |s| == 10 &&
      ParseYmd(s) == (if 1 <= DigitsValue(m) <= 12 && 1 <= DigitsValue(dd) <= 31
                      then Some(MakeDay(DigitsValue(y), DigitsValue(m), DigitsValue(dd))) else None)
  {
    Pieces(y, m, dd);
  }

  lemma Pieces(y: string, m: string, dd: string)
    requires |y| == 4 && |m| == 2 && |dd| == 2
    ensures var s := y + "-" + m + "-" + dd;
      |s| == 10 && s[..4] == y && s[4] == '-' && s[5..7] == m && s[7] == '-' && s[8..] == dd
  {
  }

  /** `s.split('T')[0]`: the text before the first 'T'. */
  function DatePart(s: string): (r: string)
    ensures 'T' !in r
    ensures StartsWith(s, r)
    ensures |r| == |s| || s[|r|] == 'T'
  {
    if s == [] || s[0] == 'T' then []
    else
      var r := [s[0]] + DatePart(s[1..]);
      assert s == [s[0]] + s[1..];
      r
  }

  lemma DatePartIdempotent(s: string)
    ensures DatePart(DatePart(s)) == DatePart(s)
  {
    DatePartFree(DatePart(s));
  }

  /** A string without 'T' is its own date part. */
  lemma {:induction false} DatePartFree(s: string)
    requires 'T' !in s
    ensures DatePart(s) == s
  {
    if s != [] {
      assert 'T' !in s[1..] by {
        assert forall x | x in s[1..] :: x in s;
      }
      DatePartFree(s[1..]);
      assert s[0] in s;
      assert [s[0]] + s[1..] == s;
    }
  }

  /** The date part of an ISO timestamp is the formatted date. */
  lemma DatePartOfTimestamp(d: Date, time: string)
    requires Valid(d)
    ensures DatePart(FormatIso(d) + "T" + time) == FormatIso(d)
  {
    DatePartBeforeT(FormatIso(d), time);
  }

  /** Text without 'T', then 'T' and anything, has that text as its date part. */
  lemma DatePartBeforeT(a: string, time: string)
    requires 'T' !in a
    ensures DatePart(a + "T" + time) == a
  {
    DatePartAppend(a, "T" + time);
    assert a + "T" + time == a + ("T" + time);
  }

  lemma {:induction false} DatePartAppend(a: string, b: string)
    requires 'T' !in a
    ensures DatePart(a + b) == a + DatePart(b)
  {
    if a != [] {
      FirstOfAppend(a, b, 'T');
      DatePartAppend(a[1..], b);
      assert DatePart(a + b) == [a[0]] + DatePart(a[1..] + b);
      assert [a[0]] + a[1..] == a;
    } else {
      assert a + b == b;
    }
  }
}
