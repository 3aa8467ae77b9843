/** The two orders the pull side puts on the server's `updatedAt` stamps: raw string
    order for the watermark, epoch milliseconds for reconciliation. */
module Timestamps {
  import opened Wrappers
  import opened Strings

  predicate IsDigit(c: char) {
    '0' <= c <= '9'
  }

  function DigitValue(c: char): (v: nat)
    requires IsDigit(c)
  {
    c as int - '0' as int
  }

  predicate AllDigits(s: string) {
    forall i | 0 <= i < |s| :: IsDigit(s[i])
  }

  /** Value of a decimal digit string, most significant digit first. */
  function Value(s: string): nat
    requires AllDigits(s)
  {
    if s == "" then 0 else Value(s[..|s| - 1]) * 10 + DigitValue(s[|s| - 1])
  }

  const I64_MAX := 0x7fff_ffff_ffff_ffff

  /** Signed 64-bit decimal parsing: an optional sign, then at least one digit. */
  function ParseI64(s: string): Option<int> {
    if s == "" then None
    else
      var negative := s[0] == '-';
      var digits := if s[0] == '-' || s[0] == '+' then s[1..] else s;
      if digits == "" || !AllDigits(digits) then None
      else if negative then
        if Value(digits) <= I64_MAX + 1 then Some(-(Value(digits) as int)) else None
      else
        if Value(digits) <= I64_MAX then Some(Value(digits)) else None
  }

  function KeepDigits(s: string): (r: string)
    ensures AllDigits(r)
    ensures AllDigits(s) ==> r == s
  {
    if s == "" then ""
    else if IsDigit(s[0]) then [s[0]] + KeepDigits(s[1..])
    else KeepDigits(s[1..])
  }

  /** The fraction cut to three digits, or padded on the right with zeros to three. */
  function Millis3(digits: string): (r: string)
    requires AllDigits(digits)
    ensures |r| == 3 && AllDigits(r)
    ensures |digits| == 3 ==> r == digits
  {
    if |digits| >= 3 then digits[..3]
    else if |digits| == 2 then digits + "0"
    else if |digits| == 1 then digits + "00"
    else "000"
  }

  /** Whole seconds and milliseconds of the seconds component. */
  function ParseSeconds(part: string): Option<(int, int)> {
    match Find(part, ".")
    case None =>
      (match ParseI64(part)
       case None => None
       case Some(sec) => Some((sec, 0)))
    case Some(dot) =>
      match ParseI64(part[..dot])
      case None => None
      case Some(sec) => Some((sec, Value(Millis3(KeepDigits(part[dot + 1..])))))
  }

  /** Integer division that truncates toward zero, for a positive divisor. */
  function TruncDiv(a: int, b: int): int
    requires b > 0
  {
    if a >= 0 then a / b else -((-a) / b)
  }

  /** Days from 1970-01-01 to the given civil date, in closed form. */
  function DaysClosedForm(year: int, m: int, d: int): int {
    var y := year - (if m <= 2 then 1 else 0);
    var era := TruncDiv(if y >= 0 then y else y - 399, 400);
    var yoe := y - era * 400;
    var mp := if m > 2 then m - 3 else m + 9;
    var doy := TruncDiv(153 * mp + 2, 5) + d - 1;
    var doe := yoe * 365 + TruncDiv(yoe, 4) - TruncDiv(yoe, 100) + doy;
    era * 146_097 + doe - 719_468
  }

  function EpochMs(y: int, m: int, d: int, h: int, mi: int, s: int, ms: int): int {
    (DaysClosedForm(y, m, d) * 86_400 + h * 3_600 + mi * 60 + s) * 1_000 + ms
  }

  function ParseDate(date: string): Option<(int, int, int)> {
    var parts := Split(date, '-');
    if |parts| < 3 then None
    else
      var y, m, d := ParseI64(parts[0]), ParseI64(parts[1]), ParseI64(parts[2]);
      if y.None? || m.None? || d.None? then None else Some((y.value, m.value, d.value))
  }

  function ParseTime(time: string): Option<(int, int, int, int)> {
    var parts := Split(time, ':');
    if |parts| < 3 then None
    else
      var h, mi, s := ParseI64(parts[0]), ParseI64(parts[1]), ParseSeconds(parts[2]);
      if h.None? || mi.None? || s.None? then None
      else Some((h.value, mi.value, s.value.0, s.value.1))
  }

  /** `parse_iso_to_ms`: epoch milliseconds of an RFC 3339 stamp, its offset ignored. */
  function ParseIsoToMs(iso: string): Option<int> {
    match Find(iso, "T")
    case None => None
    case Some(t) =>
      var date, rest := iso[..t], iso[t + 1..];
      match Find(rest, "Z+-")
      case None => None
      case Some(z) =>
        var day, clock := ParseDate(date), ParseTime(rest[..z]);
        if day.None? || clock.None? then None
        else
          Some(EpochMs(day.value.0, day.value.1, day.value.2,
                       clock.value.0, clock.value.1, clock.value.2, clock.value.3))
  }

  // ---- The Gregorian calendar, counted ----

  predicate Leap(y: int) {
    y % 4 == 0 && (y % 100 != 0 || y % 400 == 0)
  }

  function YearLength(y: int): int {
    if Leap(y) then 366 else 365
  }

  function MonthLength(y: int, m: int): int {
    if m == 2 then (if Leap(y) then 29 else 28)
    else if m == 4 || m == 6 || m == 9 || m == 11 then 30
    else 31
  }

  /** Days from 1970-01-01 to January 1st of `y`, one year at a time, in either direction. */
  function DaysBeforeYear(y: int): int
    decreases if y >= 1970 then y - 1970 else 1970 - y
  {
    if y == 1970 then 0
    else if y > 1970 then DaysBeforeYear(y - 1) + YearLength(y - 1)
    else DaysBeforeYear(y + 1) - YearLength(y)
  }

  /** Days from January 1st to the first of month `m`, one month at a time. */
  function DaysBeforeMonth(y: int, m: int): int
    requires 1 <= m
  {
    if m == 1 then 0 else DaysBeforeMonth(y, m - 1) + MonthLength(y, m - 1)
  }

  /** The shift by 399 makes truncation round down, so `era` is right for negative years too. */
  lemma EraRoundsDown(y: int)
    ensures TruncDiv(if y >= 0 then y else y - 399, 400) == y / 400
  {
    if y < 0 {
      var q := (399 - y) / 400;
      assert 400 * q <= 399 - y < 400 * q + 400;
    }
  }

  /** The closed form without its detour through 400-year eras. */
  lemma ClosedFormUnrolled(year: int, m: int, d: int)
    requires 1 <= m <= 12
    ensures
      var y := year - (if m <= 2 then 1 else 0);
      var mp := if m > 2 then m - 3 else m + 9;
      DaysClosedForm(year, m, d) == 365 * y + y / 4 - y / 100 + y / 400 + (153 * mp + 2) / 5 + d - 719_469
  {
    var y := year - (if m <= 2 then 1 else 0);
    EraRoundsDown(y);
    var era := y / 400;
    var yoe := y - era * 400;
    assert 0 <= yoe < 400;
    assert yoe / 4 == y / 4 - 100 * era;
    assert yoe / 100 == y / 100 - 4 * era;
  }

  lemma LeapQuotients(y: int)
    ensures YearLength(y) == 365 + (y / 4 - (y - 1) / 4) - (y / 100 - (y - 1) / 100) + (y / 400 - (y - 1) / 400)
  {
    QuotientSteps(y);
    CenturiesDivide(y);
  }

  lemma QuotientSteps(y: int)
    ensures y / 4 - (y - 1) / 4 == if y % 4 == 0 then 1 else 0
    ensures y / 100 - (y - 1) / 100 == if y % 100 == 0 then 1 else 0
    ensures y / 400 - (y - 1) / 400 == if y % 400 == 0 then 1 else 0
  {
  }

  lemma CenturiesDivide(y: int)
    ensures y % 400 == 0 ==> y % 100 == 0
    ensures y % 100 == 0 ==> y % 4 == 0
  {
  }

  lemma ClosedFormNextYear(y: int)
    ensures DaysClosedForm(y + 1, 1, 1) == DaysClosedForm(y, 1, 1) + YearLength(y)
  {
    ClosedFormUnrolled(y + 1, 1, 1);
    ClosedFormUnrolled(y, 1, 1);
    LeapQuotients(y);
  }

  lemma {:induction false} ClosedFormCountsYears(y: int)
    ensures DaysClosedForm(y, 1, 1) == DaysBeforeYear(y)
    decreases if y >= 1970 then y - 1970 else 1970 - y
  {
    if y > 1970 {
      ClosedFormCountsYears(y - 1);
      ClosedFormNextYear(y - 1);
    } else if y < 1970 {
      ClosedFormCountsYears(y + 1);
      ClosedFormNextYear(y);
    }
  }

  /** Outside February the shifted month offsets differ by the month's length. */
  lemma MonthOffsets(y: int, m: int)
    requires 1 <= m < 12 && m != 2
    ensures
      var mp := if m > 2 then m - 3 else m + 9;
      (153 * (mp + 1) + 2) / 5 == (153 * mp + 2) / 5 + MonthLength(y, m)
  {
  }

  lemma ClosedFormNextMonth(y: int, m: int)
    requires 1 <= m < 12
    ensures DaysClosedForm(y, m + 1, 1) == DaysClosedForm(y, m, 1) + MonthLength(y, m)
  {
    ClosedFormUnrolled(y, m, 1);
    ClosedFormUnrolled(y, m + 1, 1);
    if m == 2 {
      LeapQuotients(y);
    } else {
      MonthOffsets(y, m);
    }
  }

  /** The closed form is the calendar count, for every year, month and day. */
  lemma {:induction false} ClosedFormIsGregorian(y: int, m: int, d: int)
    requires 1 <= m <= 12
    ensures DaysClosedForm(y, m, d) == DaysBeforeYear(y) + DaysBeforeMonth(y, m) + d - 1
  {
    if m == 1 {
      ClosedFormCountsYears(y);
    } else {
      ClosedFormIsGregorian(y, m - 1, 1);
      ClosedFormNextMonth(y, m - 1);
    }
  }

  // ---- Well-formed UTC stamps ----

  /** Lexicographic string order, which compares the stamps byte by byte (they are ASCII). */
  predicate StrLess(s: string, t: string) {
    t != "" && (s == "" || s[0] < t[0] || (s[0] == t[0] && StrLess(s[1..], t[1..])))
  }

  predicate SeparatorsInPlace(s: string) {
    |s| == 24 && s[4] == '-' && s[7] == '-' && s[10] == 'T' && s[13] == ':' && s[16] == ':'
    && s[19] == '.' && s[23] == 'Z'
  }

  predicate DigitsInPlace(s: string)
    requires |s| == 24
  {
    AllDigits(s[..4]) && AllDigits(s[5..7]) && AllDigits(s[8..10]) && AllDigits(s[11..13])
    && AllDigits(s[14..16]) && AllDigits(s[17..19]) && AllDigits(s[20..23])
  }

  /** `YYYY-MM-DDTHH:MM:SS.mmmZ`, without any check of the field ranges. */
  predicate StampShape(s: string) {
    SeparatorsInPlace(s) && DigitsInPlace(s)
  }

  /** The seven numeric fields, most significant first. */
  function Fields(s: string): (f: seq<int>)
    requires StampShape(s)
    ensures |f| == 7
  {
    [Value(s[..4]), Value(s[5..7]), Value(s[8..10]), Value(s[11..13]), Value(s[14..16]), Value(s[17..19]),
     Value(s[20..23])]
  }

  /** A UTC stamp naming a real calendar date and a time of day, which may be in a leap second at its
      very end (sections 5.6 and 5.7 of RFC 3339). */
  predicate Admissible(s: string) {
    StampShape(s)
    && var f := Fields(s);
       && 1 <= f[1] <= 12 && 1 <= f[2] <= MonthLength(f[0], f[1]) && f[3] < 24 && f[4] < 60
       && (f[5] < 60 || (f[3] == 23 && f[4] == 59 && f[5] == 60))
  }

  /** An admissible stamp that is not in a leap second. */
  predicate WellFormed(s: string) {
    Admissible(s) && Fields(s)[5] < 60
  }

  function FieldsMs(f: seq<int>): int
    requires |f| == 7
  {
    EpochMs(f[0], f[1], f[2], f[3], f[4], f[5], f[6])
  }

  /** Splitting three separator-free pieces joined by separators gives them back. */
  lemma SplitThree(a: string, b: string, c: string, sep: char)
    requires sep !in a && sep !in b && sep !in c
    ensures Split(a + [sep] + b + [sep] + c, sep) == [a, b, c]
  {
    assert a + [sep] + b + [sep] + c == a + [sep] + (b + [sep] + c);
    SplitAt(a, b + [sep] + c, sep);
    SplitAt(b, c, sep);
    SplitWhole(c, sep);
  }

  lemma {:induction false} ValueBound(s: string)
    requires AllDigits(s) && |s| <= 4
    ensures Value(s) < if |s| == 0 then 1 else if |s| == 1 then 10 else if |s| == 2 then 100
                       else if |s| == 3 then 1000 else 10000
  {
    if s != "" {
      ValueBound(s[..|s| - 1]);
    }
  }

  lemma ParseDigits(s: string)
    requires AllDigits(s) && 1 <= |s| <= 4
    ensures ParseI64(s) == Some(Value(s))
  {
    assert IsDigit(s[0]);
    ValueBound(s);
  }

  lemma ParseDateShape(s: string)
    requires StampShape(s)
    ensures ParseDate(s[..10]) == Some((Fields(s)[0], Fields(s)[1], Fields(s)[2]))
  {
    var y, m, d := s[..4], s[5..7], s[8..10];
    assert s[..10] == y + ['-'] + m + ['-'] + d;
    SplitThree(y, m, d, '-');
    ParseDigits(y);
    ParseDigits(m);
    ParseDigits(d);
  }

  lemma ParseTimeShape(s: string)
    requires StampShape(s)
    ensures ParseTime(s[11..23]) == Some((Fields(s)[3], Fields(s)[4], Fields(s)[5], Fields(s)[6]))
  {
    var h, mi, sec, ms := s[11..13], s[14..16], s[17..19], s[20..23];
    var part := s[17..23];
    assert s[11..23] == h + [':'] + mi + [':'] + part;
    assert part == sec + ['.'] + ms;
    SplitThree(h, mi, part, ':');
    FindFirst(part, ".", 2);
    assert part[..2] == sec && part[3..] == ms;
    ParseDigits(h);
    ParseDigits(mi);
    ParseDigits(sec);
  }

  lemma DatePartIsPlain(s: string)
    requires StampShape(s)
    ensures forall k | 0 <= k < 10 :: s[k] == '-' || IsDigit(s[k])
  {
    assert s[..10] == s[..4] + ['-'] + s[5..7] + ['-'] + s[8..10];
    forall k | 0 <= k < 10 ensures s[k] == '-' || IsDigit(s[k]) {
      assert s[k] == s[..10][k];
    }
  }

  lemma TimePartIsPlain(s: string)
    requires StampShape(s)
    ensures forall k | 0 <= k < 12 :: s[11..23][k] in ":." || IsDigit(s[11..23][k])
  {
    assert s[11..23] == s[11..13] + [':'] + s[14..16] + [':'] + s[17..19] + ['.'] + s[20..23];
  }

  /** A stamp of the right shape parses to the epoch time of its fields. */
  lemma ParseShape(s: string)
    requires StampShape(s)
    ensures ParseIsoToMs(s) == Some(FieldsMs(Fields(s)))
  {
    DatePartIsPlain(s);
    FindFirst(s, "T", 10);
    var rest := s[11..];
    TimePartIsPlain(s);
    assert forall k | 0 <= k < 12 :: rest[k] == s[11..23][k];
    FindFirst(rest, "Z+-", 12);
    assert rest[..12] == s[11..23];
    ParseDateShape(s);
    ParseTimeShape(s);
  }

  // ---- String order against time order ----

  /** Position of the first difference between two equally long strings in order. */
  lemma {:induction false} FirstDifference(s: string, t: string) returns (i: nat)
    requires |s| == |t| && StrLess(s, t)
    ensures i < |s| && s[..i] == t[..i] && s[i] < t[i]
  {
    if s[0] < t[0] {
      i := 0;
    } else {
      var k := FirstDifference(s[1..], t[1..]);
      i := k + 1;
      assert s[..i] == [s[0]] + s[1..][..k] && t[..i] == [t[0]] + t[1..][..k];
    }
  }

  lemma {:induction false} Trichotomy(s: string, t: string)
    ensures StrLess(s, t) || s == t || StrLess(t, s)
    ensures !(StrLess(s, t) && StrLess(t, s)) && !StrLess(s, s)
  {
    if s != "" && t != "" {
      Trichotomy(s[1..], t[1..]);
    } else if s != "" {
      Trichotomy(s[1..], []);
    }
  }

  lemma {:induction false} SmallerDigits(a: string, b: string, i: nat)
    requires AllDigits(a) && AllDigits(b) && |a| == |b| && i < |a|
    requires a[..i] == b[..i] && a[i] < b[i]
    ensures Value(a) < Value(b)
  {
    var n := |a| - 1;
    if i == n {
      assert a[..n] == b[..n];
    } else {
      assert a[..n][..i] == a[..i] && b[..n][..i] == b[..i];
      SmallerDigits(a[..n], b[..n], i);
    }
  }

  /** `f` precedes `g` in field order: equal up to field `k`, smaller there. */
  predicate FieldsLessAt(f: seq<int>, g: seq<int>, k: nat) {
    |f| == |g| && k < |f| && f[..k] == g[..k] && f[k] < g[k]
  }

  lemma StringOrderIsFieldOrder(s: string, t: string) returns (k: nat)
    requires StampShape(s) && StampShape(t) && StrLess(s, t)
    ensures FieldsLessAt(Fields(s), Fields(t), k)
  {
    var i := FirstDifference(s, t);
    var starts := [0, 5, 8, 11, 14, 17, 20, 24];
    k := if i < 4 then 0 else if i < 7 then 1 else if i < 10 then 2 else if i < 13 then 3
         else if i < 16 then 4 else if i < 19 then 5 else 6;
    var lo, hi := starts[k], starts[k + 1] - 1;
    assert lo <= i < hi;
    assert forall j | 0 <= j < i :: s[j] == t[j] by {
      forall j | 0 <= j < i ensures s[j] == t[j] {
        assert s[..i][j] == t[..i][j];
      }
    }
    assert s[lo..hi][..i - lo] == t[lo..hi][..i - lo] by {
      assert forall j | 0 <= j < i - lo :: s[lo..hi][j] == s[lo + j] && t[lo..hi][j] == t[lo + j];
    }
    SmallerDigits(s[lo..hi], t[lo..hi], i - lo);
    assert k > 0 ==> s[..4] == t[..4];
    assert k > 1 ==> s[5..7] == t[5..7];
    assert k > 2 ==> s[8..10] == t[8..10];
    assert k > 3 ==> s[11..13] == t[11..13];
    assert k > 4 ==> s[14..16] == t[14..16];
    assert k > 5 ==> s[17..19] == t[17..19];
  }

  /** Days before a month, counted from the closed form. */
  lemma DaysBeforeMonthIs(y: int, m: int)
    requires 1 <= m <= 12
    ensures DaysBeforeMonth(y, m) == DaysClosedForm(y, m, 1) - DaysClosedForm(y, 1, 1)
  {
    ClosedFormIsGregorian(y, m, 1);
    ClosedFormCountsYears(y);
  }

  lemma DaysBeforeMonthBound(y: int, m: int)
    requires 1 <= m <= 12
    ensures 0 <= DaysBeforeMonth(y, m)
    ensures DaysBeforeMonth(y, m) + MonthLength(y, m) <= YearLength(y)
  {
    DaysBeforeMonthIs(y, m);
    ClosedFormUnrolled(y, m, 1);
    ClosedFormUnrolled(y, 1, 1);
    LeapQuotients(y);
  }

  lemma {:induction false} LaterYear(y: int, y': int)
    requires y < y'
    ensures DaysBeforeYear(y) + YearLength(y) <= DaysBeforeYear(y')
    decreases y' - y
  {
    if y + 1 < y' {
      LaterYear(y + 1, y');
    }
  }

  lemma {:induction false} LaterMonth(y: int, m: int, m': int)
    requires 1 <= m < m' <= 12
    ensures DaysBeforeMonth(y, m) + MonthLength(y, m) <= DaysBeforeMonth(y, m')
    decreases m' - m
  {
    if m + 1 < m' {
      LaterMonth(y, m + 1, m');
    }
  }

  /** Later calendar dates have larger day counts. */
  lemma LaterDate(y: int, m: int, d: int, y': int, m': int, d': int)
    requires 1 <= m <= 12 && 1 <= d <= MonthLength(y, m)
    requires 1 <= m' <= 12 && 1 <= d' <= MonthLength(y', m')
    requires y < y' || (y == y' && (m < m' || (m == m' && d < d')))
    ensures DaysClosedForm(y, m, d) < DaysClosedForm(y', m', d')
  {
    ClosedFormIsGregorian(y, m, d);
    ClosedFormIsGregorian(y', m', d');
    if y < y' {
      LaterYear(y, y');
      DaysBeforeMonthBound(y, m);
      DaysBeforeMonthBound(y', m');
    } else if m < m' {
      LaterMonth(y, m, m');
    }
  }

  /** Stamp `f` is in the leap second that ends a day, and `g` in the first second of the next, by no
      more milliseconds. */
  predicate LeapsOver(f: seq<int>, g: seq<int>)
    requires |f| == 7 && |g| == 7
  {
    f[5] == 60 && g[3] == 0 && g[4] == 0 && g[5] == 0 && g[6] <= f[6]
    && DaysClosedForm(g[0], g[1], g[2]) == DaysClosedForm(f[0], f[1], f[2]) + 1
  }

  /** Milliseconds since midnight. */
  function TimeOfDay(f: seq<int>): int
    requires |f| == 7
  {
    (f[3] * 3_600 + f[4] * 60 + f[5]) * 1_000 + f[6]
  }

  lemma TimeOfDayBound(s: string)
    requires Admissible(s)
    ensures 0 <= TimeOfDay(Fields(s)) && 0 <= Fields(s)[6] < 1_000
    ensures Fields(s)[5] < 60 ==> TimeOfDay(Fields(s)) < 86_400_000
    ensures Fields(s)[5] == 60 ==> TimeOfDay(Fields(s)) == 86_400_000 + Fields(s)[6]
  {
    ValueBound(s[20..23]);
  }

  /** Of two stamps in field order the second is the later in time, exactly unless the first leaps
      over it. */
  lemma FieldOrderIsTimeOrder(s: string, t: string, k: nat)
    requires Admissible(s) && Admissible(t) && FieldsLessAt(Fields(s), Fields(t), k)
    ensures FieldsMs(Fields(s)) < FieldsMs(Fields(t)) <==> !LeapsOver(Fields(s), Fields(t))
    ensures !LeapsOver(Fields(t), Fields(s))
  {
    var f, g := Fields(s), Fields(t);
    assert forall j | 0 <= j < k :: f[j] == g[j] by {
      forall j | 0 <= j < k ensures f[j] == g[j] {
        assert f[..k][j] == g[..k][j];
      }
    }
    TimeOfDayBound(s);
    TimeOfDayBound(t);
    if k <= 2 {
      LaterDate(f[0], f[1], f[2], g[0], g[1], g[2]);
      LaterDay(f, g);
    } else {
      assert TimeOfDay(f) < TimeOfDay(g);
    }
  }

  lemma LaterDay(f: seq<int>, g: seq<int>)
    requires |f| == 7 && |g| == 7 && DaysClosedForm(f[0], f[1], f[2]) < DaysClosedForm(g[0], g[1], g[2])
    requires 0 <= TimeOfDay(g) && 0 <= f[3] && 0 <= g[3] && 0 <= g[4] && 0 <= g[5] && 0 <= f[6] < 1_000
             && 0 <= g[6] < 1_000
    requires if f[5] == 60 then TimeOfDay(f) == 86_400_000 + f[6] else TimeOfDay(f) < 86_400_000
    ensures FieldsMs(f) < FieldsMs(g) <==> !LeapsOver(f, g)
  {
  }

  /** The two orders agree on a pair of stamps. */
  ghost predicate OrdersAgree(s: string, t: string) {
    && ParseIsoToMs(s).Some? && ParseIsoToMs(t).Some?
    && (StrLess(s, t) <==> ParseIsoToMs(s).value < ParseIsoToMs(t).value)
    && (StrLess(t, s) <==> ParseIsoToMs(t).value < ParseIsoToMs(s).value)
  }

  /** The watermark's string comparison and reconciliation's millisecond comparison agree exactly
      unless one stamp is in a leap second and the other within as many milliseconds of the midnight
      after it. */
  lemma OrdersAgreeIff(s: string, t: string)
    requires Admissible(s) && Admissible(t)
    ensures OrdersAgree(s, t) <==> !LeapsOver(Fields(s), Fields(t)) && !LeapsOver(Fields(t), Fields(s))
  {
    ParseShape(s);
    ParseShape(t);
    Trichotomy(s, t);
    if StrLess(s, t) {
      var k := StringOrderIsFieldOrder(s, t);
      FieldOrderIsTimeOrder(s, t, k);
    } else if StrLess(t, s) {
      var k := StringOrderIsFieldOrder(t, s);
      FieldOrderIsTimeOrder(t, s, k);
    }
  }

  /** For stamps outside leap seconds they are the same order. */
  lemma StringOrderIsTimeOrder(s: string, t: string)
    requires WellFormed(s) && WellFormed(t)
    ensures ParseIsoToMs(s).Some? && ParseIsoToMs(t).Some?
    ensures StrLess(s, t) <==> ParseIsoToMs(s).value < ParseIsoToMs(t).value
    ensures s == t <==> ParseIsoToMs(s) == ParseIsoToMs(t)
  {
    OrdersAgreeIff(s, t);
    Trichotomy(s, t);
  }

  lemma TwoDigits(s: string)
    requires AllDigits(s) && |s| == 2
    ensures Value(s) == DigitValue(s[0]) * 10 + DigitValue(s[1])
  {
    assert s[..1] == [s[0]] && s[..1][..0] == [];
    assert Value(s[..1]) == DigitValue(s[0]);
  }

  lemma MoreDigits(s: string, n: nat)
    requires AllDigits(s) && n < |s| == n + 1
    ensures Value(s) == Value(s[..n]) * 10 + DigitValue(s[n])
  {
  }

  /** The fields of a stamp, digit by digit. */
  lemma FieldsByDigit(s: string)
    requires StampShape(s)
    ensures
      var d := (k: nat) => if k < |s| && IsDigit(s[k]) then DigitValue(s[k]) else 0;
      Fields(s) == [((d(0) * 10 + d(1)) * 10 + d(2)) * 10 + d(3), d(5) * 10 + d(6), d(8) * 10 + d(9),
        d(11) * 10 + d(12),
                    d(14) * 10 + d(15), d(17) * 10 + d(18), (d(20) * 10 + d(21)) * 10 + d(22)]
  {
    assert s[..4][..3] == s[..3] && s[..3][..2] == s[..2] && s[20..23][..2] == s[20..22];
    TwoDigits(s[..2]);
    MoreDigits(s[..3], 2);
    MoreDigits(s[..4], 3);
    TwoDigits(s[5..7]);
    TwoDigits(s[8..10]);
    TwoDigits(s[11..13]);
    TwoDigits(s[14..16]);
    TwoDigits(s[17..19]);
    TwoDigits(s[20..22]);
    MoreDigits(s[20..23], 2);
  }

  /** A stamp that leaps over another precedes it as a string, and is no earlier in time. */
  lemma LeapingStamps(s: string, t: string)
    requires Admissible(s) && Admissible(t) && LeapsOver(Fields(s), Fields(t))
    ensures StrLess(s, t) && ParseIsoToMs(s).Some? && ParseIsoToMs(t).Some?
    ensures ParseIsoToMs(s).value - ParseIsoToMs(t).value == Fields(s)[6] - Fields(t)[6] >= 0
  {
    ParseShape(s);
    ParseShape(t);
    TimeOfDayBound(s);
    TimeOfDayBound(t);
    Trichotomy(s, t);
    if StrLess(t, s) {
      var k := StringOrderIsFieldOrder(t, s);
      FieldOrderIsTimeOrder(t, s, k);
    }
  }

  /** The orders are really opposite for a stamp in the leap second that ended 2016 and one soon after. */
  lemma LeapSecondInverts()
    ensures Inverted("2016-12-31T23:59:60.500Z", "2017-01-01T00:00:00.400Z")
  {
    assert ReadsLeapSecond("2016-12-31T23:59:60.500Z");
    assert ReadsNewYear("2017-01-01T00:00:00.400Z");
    NewYearInverts("2016-12-31T23:59:60.500Z", "2017-01-01T00:00:00.400Z");
  }

  /** Admissible stamps, in one order as strings and in the other in time. */
  ghost predicate Inverted(s: string, t: string) {
    && Admissible(s) && Admissible(t) && StrLess(s, t)
    && ParseIsoToMs(s).Some? && ParseIsoToMs(t).Some? && ParseIsoToMs(t).value < ParseIsoToMs(s).value
  }

  lemma NewYearInverts(s: string, t: string)
    requires ReadsLeapSecond(s) && ReadsNewYear(t)
    ensures Inverted(s, t)
  {
    LeapStamp(s);
    NextStamp(t);
    ClosedFormUnrolled(2016, 12, 31);
    ClosedFormUnrolled(2017, 1, 1);
    LeapingStamps(s, t);
  }

  predicate ReadsLeapSecond(s: string) {
    && |s| == 24
    && s[0] == '2' && s[1] == '0' && s[2] == '1' && s[3] == '6' && s[4] == '-' && s[5] == '1'
    && s[6] == '2' && s[7] == '-' && s[8] == '3' && s[9] == '1' && s[10] == 'T' && s[11] == '2'
    && s[12] == '3' && s[13] == ':' && s[14] == '5' && s[15] == '9' && s[16] == ':' && s[17] == '6'
    && s[18] == '0' && s[19] == '.' && s[20] == '5' && s[21] == '0' && s[22] == '0' && s[23] == 'Z'
  }

  lemma LeapStamp(s: string)
    requires ReadsLeapSecond(s)
    ensures Admissible(s) && Fields(s) == [2016, 12, 31, 23, 59, 60, 500]
  {
    FieldsByDigit(s);
  }

  predicate ReadsNewYear(s: string) {
    && |s| == 24
    && s[0] == '2' && s[1] == '0' && s[2] == '1' && s[3] == '7' && s[4] == '-' && s[5] == '0'
    && s[6] == '1' && s[7] == '-' && s[8] == '0' && s[9] == '1' && s[10] == 'T' && s[11] == '0'
    && s[12] == '0' && s[13] == ':' && s[14] == '0' && s[15] == '0' && s[16] == ':' && s[17] == '0'
    && s[18] == '0' && s[19] == '.' && s[20] == '4' && s[21] == '0' && s[22] == '0' && s[23] == 'Z'
  }

  lemma NextStamp(s: string)
    requires ReadsNewYear(s)
    ensures Admissible(s) && Fields(s) == [2017, 1, 1, 0, 0, 0, 400]
  {
    FieldsByDigit(s);
  }
}
