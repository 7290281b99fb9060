/** UTC instants, the text `to_rfc3339` writes for them (section 5.6 of RFC 3339), and the byte
    order in which SQLite compares that text. */
module Timestamps {
  import opened Text

  // --- byte order of text ---------------------------------------------------

  predicate TextLess(s: string, t: string) {
    t != [] && (s == [] || s[0] < t[0] || (s[0] == t[0] && TextLess(s[1..], t[1..])))
  }

  predicate TextLeq(s: string, t: string) {
    !TextLess(t, s)
  }

  lemma {:induction false} CommonPrefix(p: string, s: string, t: string)
    ensures TextLess(p + s, p + t) == TextLess(s, t)
  {
    if p == [] {
      assert p + s == s && p + t == t;
    } else {
      assert (p + s)[1..] == p[1..] + s && (p + t)[1..] == p[1..] + t;
      CommonPrefix(p[1..], s, t);
    }
  }

  lemma {:induction false} FirstDifference(p: string, q: string, s: string, t: string)
    requires |p| == |q| && p != q
    ensures TextLess(p + s, q + t) == TextLess(p, q)
  {
    assert (p + s)[1..] == p[1..] + s && (q + t)[1..] == q[1..] + t;
    if p[0] == q[0] {
      assert p == [p[0]] + p[1..] && q == [q[0]] + q[1..];
      FirstDifference(p[1..], q[1..], s, t);
    }
  }

  // --- zero-padded fields ---------------------------------------------------

  function Pow10(w: nat): (r: nat)
    ensures r > 0
  {
    if w == 0 then 1 else 10 * Pow10(w - 1)
  }

  /** `{:0w}`: the last w decimal digits of n. */
  function Pad(n: nat, w: nat): (s: string)
    ensures |s| == w && AllDigits(s)
  {
    if w == 0 then [] else Pad(n / 10, w - 1) + [DigitChar(n % 10)]
  }

  lemma {:induction false} PadOrder(m: nat, n: nat, w: nat)
    requires m < Pow10(w) && n < Pow10(w)
    ensures Pad(m, w) == Pad(n, w) ==> m == n
    ensures TextLess(Pad(m, w), Pad(n, w)) <==> m < n
  {
    if w > 0 {
      var p, q := Pad(m / 10, w - 1), Pad(n / 10, w - 1);
      PadOrder(m / 10, n / 10, w - 1);
      if p == q {
        CommonPrefix(p, [DigitChar(m % 10)], [DigitChar(n % 10)]);
        assert p + [DigitChar(m % 10)] == q + [DigitChar(n % 10)] ==>
            (p + [DigitChar(m % 10)])[w - 1] == (q + [DigitChar(n % 10)])[w - 1];
      } else {
        FirstDifference(p, q, [DigitChar(m % 10)], [DigitChar(n % 10)]);
        assert (p + [DigitChar(m % 10)])[..w - 1] == p && (q + [DigitChar(n % 10)])[..w - 1] == q;
      }
    }
  }

  /** Comparing texts that start with a padded field compares the field first. */
  lemma FieldOrder(m: nat, n: nat, w: nat, s: string, t: string)
    requires m < Pow10(w) && n < Pow10(w)
    ensures TextLess(Pad(m, w) + s, Pad(n, w) + t) <==> m < n || (m == n && TextLess(s, t))
  {
    PadOrder(m, n, w);
    if m == n {
      CommonPrefix(Pad(m, w), s, t);
    } else {
      FirstDifference(Pad(m, w), Pad(n, w), s, t);
    }
  }

  // --- the calendar ---------------------------------------------------------

  predicate IsLeap(y: nat) {
    y % 4 == 0 && (y % 100 != 0 || y % 400 == 0)
  }

  function YearDays(y: nat): nat {
    if IsLeap(y) then 366 else 365
  }

  function MonthDays(y: nat, m: nat): nat {
    if m == 2 then (if IsLeap(y) then 29 else 28)
    else if m == 4 || m == 6 || m == 9 || m == 11 then 30
    else 31
  }

  function DaysBeforeYear(y: nat): nat {
    if y == 0 then 0 else DaysBeforeYear(y - 1) + YearDays(y - 1)
  }

  function DaysBeforeMonth(y: nat, m: nat): nat {
    if m <= 1 then 0 else DaysBeforeMonth(y, m - 1) + MonthDays(y, m - 1)
  }

  datatype Civil = Civil(year: nat, month: nat, day: nat, hour: nat, minute: nat, second: nat, nano: nat)

  ghost predicate Valid(c: Civil) {
    && c.year < 10_000 && 1 <= c.month <= 12 && 1 <= c.day <= MonthDays(c.year, c.month)
    && c.hour < 24 && c.minute < 60 && c.second < 60 && c.nano < 1_000_000_000
  }

  function DayNumber(c: Civil): int {
    DaysBeforeYear(c.year) + DaysBeforeMonth(c.year, c.month) + c.day - 1
  }

  /** Nanoseconds since the start of year 0. */
  function Instant(c: Civil): int {
    (((DayNumber(c) * 24 + c.hour) * 60 + c.minute) * 60 + c.second) * 1_000_000_000 + c.nano
  }

  predicate CivilLess(a: Civil, b: Civil) {
    || a.year < b.year
    || (a.year == b.year
       && (|| a.month < b.month
           || (a.month == b.month
              && (|| a.day < b.day
                  || (a.day == b.day
                     && (|| a.hour < b.hour
                         || (a.hour == b.hour
                            && (|| a.minute < b.minute
                                || (a.minute == b.minute
                                   && (a.second < b.second || (a.second == b.second && a.nano < b.nano)))))))))))
  }

  lemma FourthYears(z: nat)
    ensures (z + 4) / 4 == (z + 3) / 4 + if z % 4 == 0 then 1 else 0
  {
  }

  lemma Centuries(z: nat)
    ensures (z + 100) / 100 == (z + 99) / 100 + if z % 100 == 0 then 1 else 0
  {
  }

  lemma FourthCenturies(z: nat)
    ensures (z + 400) / 400 == (z + 399) / 400 + if z % 400 == 0 then 1 else 0
  {
  }

  lemma FourTimes(z: nat, q: nat)
    requires z == 4 * q
    ensures z % 4 == 0
  {
    assert 4 * (q - z / 4) == z % 4;
  }

  lemma HundredTimes(z: nat, q: nat)
    requires z == 100 * q
    ensures z % 100 == 0
  {
    assert 100 * (q - z / 100) == z % 100;
  }

  lemma CenturiesNest(z: nat)
    ensures z % 100 == 0 ==> z % 4 == 0
    ensures z % 400 == 0 ==> z % 100 == 0
  {
    if z % 100 == 0 {
      FourTimes(z, 25 * (z / 100));
    }
    if z % 400 == 0 {
      HundredTimes(z, 4 * (z / 400));
    }
  }

  function LeapDaysBefore(y: nat): int {
    (y + 3) / 4 - (y + 99) / 100 + (y + 399) / 400
  }

  lemma LeapStep(z: nat)
    ensures LeapDaysBefore(z + 1) == LeapDaysBefore(z) + if IsLeap(z) then 1 else 0
  {
    FourthYears(z);
    Centuries(z);
    FourthCenturies(z);
    CenturiesNest(z);
  }

  /** The days before a year by the Gregorian rule: one leap day in four years, none in a century
      but the fourth. */
  lemma {:induction false} GregorianDays(y: nat)
    ensures DaysBeforeYear(y) == 365 * y + LeapDaysBefore(y)
  {
    if y > 0 {
      GregorianDays(y - 1);
      LeapStep(y - 1);
      hide LeapDaysBefore, IsLeap;
    }
  }

  lemma {:induction false} YearsGrow(y: nat, z: nat)
    requires y < z
    ensures DaysBeforeYear(y) + YearDays(y) <= DaysBeforeYear(z)
  {
    if y + 1 < z {
      YearsGrow(y, z - 1);
    }
  }

  lemma {:induction false} MonthsGrow(y: nat, m: nat, n: nat)
    requires 1 <= m < n
    ensures DaysBeforeMonth(y, m) + MonthDays(y, m) <= DaysBeforeMonth(y, n)
  {
    if m + 1 < n {
      MonthsGrow(y, m, n - 1);
    }
  }

  /** The days before each month of a common year; from March on a leap year has one more. */
  const MONTH_STARTS := [0, 31, 59, 90, 120, 151, 181, 212, 243, 273, 304, 334]

  lemma {:induction false} MonthStarts(y: nat, m: nat)
    requires 1 <= m <= 12
    ensures DaysBeforeMonth(y, m) == MONTH_STARTS[m - 1] + if IsLeap(y) && m > 2 then 1 else 0
  {
    hide IsLeap;
    if m > 1 {
      MonthStarts(y, m - 1);
    }
  }

  lemma MonthsFillYear(y: nat)
    ensures DaysBeforeMonth(y, 13) == YearDays(y)
  {
    MonthStarts(y, 12);
  }

  /** The first instant of 1970, from which Unix time counts. */
  lemma UnixEpoch()
    ensures Instant(Civil(1970, 1, 1, 0, 0, 0, 0)) == 719_528 * 86_400 * 1_000_000_000
  {
    GregorianDays(1970);
    hide DaysBeforeYear;
  }

  lemma DayInYear(c: Civil)
    requires Valid(c)
    ensures DaysBeforeYear(c.year) <= DayNumber(c) < DaysBeforeYear(c.year) + YearDays(c.year)
  {
    MonthsFillYear(c.year);
    MonthsGrow(c.year, c.month, 13);
  }

  lemma DayOrder(a: Civil, b: Civil)
    requires Valid(a) && Valid(b)
    requires a.year < b.year || (a.year == b.year && (a.month < b.month || (a.month == b.month && a.day < b.day)))
    ensures DayNumber(a) < DayNumber(b)
  {
    if a.year < b.year {
      DayInYear(a);
      DayInYear(b);
      YearsGrow(a.year, b.year);
    } else if a.month < b.month {
      MonthsGrow(a.year, a.month, b.month);
    }
  }

  /** Calendar fields, read from the year down, order as the instants they name. */
  lemma CivilOrder(a: Civil, b: Civil)
    requires Valid(a) && Valid(b)
    ensures CivilLess(a, b) <==> Instant(a) < Instant(b)
  {
    if a.year < b.year || (a.year == b.year && (a.month < b.month || (a.month == b.month && a.day < b.day))) {
      DayOrder(a, b);
    } else if b.year < a.year || (a.year == b.year && (b.month < a.month || (a.month == b.month && b.day < a.day))) {
      DayOrder(b, a);
    }
  }

  // --- rendering ------------------------------------------------------------

  const OFFSET := "+00:00"

  /** The shortest of 0, 3, 6 or 9 fraction digits that shows every nanosecond. */
  function Fraction(nano: nat): string {
    if nano == 0 then ""
    else if nano % 1_000_000 == 0 then "." + Pad(nano / 1_000_000, 3)
    else if nano % 1_000 == 0 then "." + Pad(nano / 1_000, 6)
    else "." + Pad(nano, 9)
  }

  lemma {:induction false} PadValue(n: nat, w: nat)
    requires n < Pow10(w)
    ensures DigitsValue(Pad(n, w)) == n
  {
    if w > 0 {
      PadValue(n / 10, w - 1);
      LastDigit(Pad(n / 10, w - 1), n % 10);
    }
  }

  lemma LastDigit(front: string, d: nat)
    requires AllDigits(front) && d < 10
    ensures DigitsValue(front + [DigitChar(d)]) == 10 * DigitsValue(front) + d
  {
    assert (front + [DigitChar(d)])[..|front|] == front;
  }

  /** A fraction shows the nanoseconds, in three, six or nine digits, and in fewer when the last three
      would be zeros. */
  lemma FractionShows(nano: nat)
    requires 0 < nano < 1_000_000_000
    ensures var digits := Fraction(nano)[1..];
            && Fraction(0) == "" && Fraction(nano)[0] == '.'
            && AllDigits(digits)
            && (|digits| == 3 || |digits| == 6 || |digits| == 9)
            && (|digits| == 3 ==> DigitsValue(digits) * 1_000_000 == nano)
            && (|digits| == 6 ==> DigitsValue(digits) * 1_000 == nano && nano % 1_000_000 != 0)
            && (|digits| == 9 ==> DigitsValue(digits) == nano && nano % 1_000 != 0)
  {
    Powers();
    hide Pow10, Pad, DigitsValue;
    if nano % 1_000_000 == 0 {
      PadValue(nano / 1_000_000, 3);
      assert Fraction(nano)[1..] == Pad(nano / 1_000_000, 3);
    } else if nano % 1_000 == 0 {
      PadValue(nano / 1_000, 6);
      assert Fraction(nano)[1..] == Pad(nano / 1_000, 6);
    } else {
      PadValue(nano, 9);
      assert Fraction(nano)[1..] == Pad(nano, 9);
    }
  }

  function FromSecond(c: Civil): string {
    Pad(c.second, 2) + (Fraction(c.nano) + OFFSET)
  }

  function FromHour(c: Civil): string {
    Pad(c.hour, 2) + (":" + (Pad(c.minute, 2) + (":" + FromSecond(c))))
  }

  function FromMonth(c: Civil): string {
    Pad(c.month, 2) + ("-" + (Pad(c.day, 2) + ("T" + FromHour(c))))
  }

  function Render(c: Civil): string {
    Pad(c.year, 4) + ("-" + FromMonth(c))
  }

  /** The number written by the digits of d followed by the last v digits of r. */
  function Joined(d: nat, r: nat, v: nat): nat {
    if v == 0 then d else 10 * Joined(d, r / 10, v - 1) + r % 10
  }

  lemma TwoDigits(n: nat)
    requires n < 100
    ensures Pad(n, 2) == [DigitChar(n / 10), DigitChar(n % 10)]
  {
    hide DigitChar, DigitValue;
    var d := n / 10;
    assert d % 10 == d;
    assert Pad(d, 1) == Pad(d / 10, 0) + [DigitChar(d)] == [DigitChar(d)];
  }

  lemma RenderedNumbers()
    ensures Pad(2024, 4) == "2024" && Pad(50, 3) == "050"
    ensures Pad(2, 2) == "02" && Pad(29, 2) == "29" && Pad(12, 2) == "12" && Pad(5, 2) == "05" && Pad(9, 2) == "09"
  {
    TwoDigits(20);
    TwoDigits(5);
    assert Pad(2024, 4) == Pad(20, 2) + [DigitChar(2)] + [DigitChar(4)];
    assert Pad(50, 3) == Pad(5, 2) + [DigitChar(0)];
    TwoDigits(2);
    TwoDigits(29);
    TwoDigits(12);
    TwoDigits(9);
  }

  const LEAP_DAY := Civil(2024, 2, 29, 12, 5, 9, 50_000_000)

  lemma RenderedNoon()
    ensures FromHour(LEAP_DAY) == "12:05:09.050+00:00"
  {
    RenderedNumbers();
    hide Pad;
    assert Fraction(LEAP_DAY.nano) == ".050";
    hide Fraction;
    assert FromSecond(LEAP_DAY) == "09.050+00:00";
  }

  lemma RenderedFebruary()
    ensures FromMonth(LEAP_DAY) == "02-29T" + "12:05:09.050+00:00"
  {
    RenderedNumbers();
    RenderedNoon();
    hide Pad, FromHour;
    var time := FromHour(LEAP_DAY);
    assert "02" + ("-" + ("29" + ("T" + time))) == "02-29T" + time;
  }

  /** One leap day rendered, with a fraction of three digits. */
  lemma RenderedLeapDay()
    ensures Render(LEAP_DAY) == "2024-" + ("02-29T" + "12:05:09.050+00:00")
  {
    RenderedNumbers();
    RenderedFebruary();
    hide Pad, FromMonth;
    var rest := FromMonth(LEAP_DAY);
    assert "2024" + ("-" + rest) == "2024-" + rest;
  }

  lemma {:induction false} PadJoined(d: nat, w: nat, r: nat, v: nat)
    ensures Pad(Joined(d, r, v), w + v) == Pad(d, w) + Pad(r, v)
  {
    if v > 0 {
      var n := Joined(d, r / 10, v - 1);
      assert (10 * n + r % 10) / 10 == n && (10 * n + r % 10) % 10 == r % 10;
      PadJoined(d, w, r / 10, v - 1);
    }
  }

  lemma Joined3(d: nat, r: nat)
    requires r < 1_000
    ensures Joined(d, r, 3) == 1_000 * d + r
  {
    assert Joined(d, r / 10, 2) == 100 * d + r / 10 by {
      assert Joined(d, r / 10 / 10, 1) == 10 * d + r / 10 / 10;
    }
  }

  lemma PadThree(n: nat, w: nat)
    ensures Pad(n, w + 3) == Pad(n / 1_000, w) + Pad(n % 1_000, 3)
  {
    hide Pad, Joined;
    Joined3(n / 1_000, n % 1_000);
    PadJoined(n / 1_000, w, n % 1_000, 3);
  }

  lemma PadSix(n: nat, w: nat)
    ensures Pad(n, w + 6) == Pad(n / 1_000_000, w) + Pad(n % 1_000_000, 6)
  {
    hide Pad;
    var m := n % 1_000_000;
    assert m / 1_000 == n / 1_000 % 1_000 && m % 1_000 == n % 1_000 && n / 1_000 / 1_000 == n / 1_000_000;
    PadThree(n, w + 3);
    PadThree(n / 1_000, w);
    PadThree(m, 3);
    var x, y, z := Pad(n / 1_000_000, w), Pad(m / 1_000, 3), Pad(m % 1_000, 3);
    assert (x + y) + z == x + (y + z);
  }

  lemma Powers()
    ensures Pow10(2) == 100 && Pow10(3) == 1_000 && Pow10(4) == 10_000
    ensures Pow10(6) == 1_000_000 && Pow10(9) == 1_000_000_000
  {
    assert Pow10(3) == 1_000;
    assert Pow10(5) == 100_000;
    assert Pow10(7) == 10_000_000;
  }

  lemma SignBeforeDigits(n: nat, w: nat, t: string)
    requires w > 0
    ensures TextLess(OFFSET, Pad(n, w) + t) && !TextLess(Pad(n, w) + t, OFFSET)
  {
    assert (Pad(n, w) + t)[0] == Pad(n, w)[0];
  }

  /** A fraction with fewer digits m against one with more, the digits of d and then those of r. */
  lemma ShorterFraction(m: nat, w: nat, d: nat, r: nat, v: nat)
    requires v > 0 && m < Pow10(w) && d < Pow10(w)
    ensures TextLess(Pad(m, w) + OFFSET, (Pad(d, w) + Pad(r, v)) + OFFSET) <==> m <= d
    ensures TextLess((Pad(d, w) + Pad(r, v)) + OFFSET, Pad(m, w) + OFFSET) <==> d < m
  {
    var t := Pad(r, v) + OFFSET;
    assert (Pad(d, w) + Pad(r, v)) + OFFSET == Pad(d, w) + t;
    SignBeforeDigits(r, v, OFFSET);
    FieldOrder(m, d, w, OFFSET, t);
    FieldOrder(d, m, w, t, OFFSET);
  }

  function Digits(nano: nat): nat {
    if nano == 0 then 0 else if nano % 1_000_000 == 0 then 3 else if nano % 1_000 == 0 then 6 else 9
  }

  /** The fraction after its dot, when there is one. */
  function FractionNumber(nano: nat): nat {
    if nano % 1_000_000 == 0 then nano / 1_000_000 else if nano % 1_000 == 0 then nano / 1_000 else nano
  }

  lemma FractionOrder(a: nat, b: nat)
    requires a < 1_000_000_000 && b < 1_000_000_000
    ensures TextLess(Fraction(a) + OFFSET, Fraction(b) + OFFSET) <==> a < b
  {
    if a == 0 || b == 0 {
      NoFraction(a, b);
    } else {
      FractionDigits(a);
      FractionDigits(b);
      var s, t := Pad(FractionNumber(a), Digits(a)) + OFFSET, Pad(FractionNumber(b), Digits(b)) + OFFSET;
      assert Fraction(a) + OFFSET == "." + s && Fraction(b) + OFFSET == "." + t;
      CommonPrefix(".", s, t);
      SameOrMixed(a, b);
    }
  }

  /** A text without a fraction goes on with its plus sign, which sorts before a dot. */
  lemma NoFraction(a: nat, b: nat)
    requires a == 0 || b == 0
    ensures TextLess(Fraction(a) + OFFSET, Fraction(b) + OFFSET) <==> a < b
  {
    TextIrreflexive(OFFSET);
    assert a != 0 ==> (Fraction(a) + OFFSET)[0] == '.';
    assert b != 0 ==> (Fraction(b) + OFFSET)[0] == '.';
    assert Fraction(0) + OFFSET == OFFSET;
  }

  lemma FractionDigits(nano: nat)
    requires 0 < nano < 1_000_000_000
    ensures Fraction(nano) == "." + Pad(FractionNumber(nano), Digits(nano))
    ensures FractionNumber(nano) < Pow10(Digits(nano))
  {
    Powers();
  }

  lemma SameOrMixed(a: nat, b: nat)
    requires 0 < a < 1_000_000_000 && 0 < b < 1_000_000_000
    ensures TextLess(Pad(FractionNumber(a), Digits(a)) + OFFSET, Pad(FractionNumber(b), Digits(b)) + OFFSET) <==> a < b
  {
    Powers();
    if Digits(a) == Digits(b) {
      FractionDigits(a);
      FractionDigits(b);
      FieldOrder(FractionNumber(a), FractionNumber(b), Digits(a), OFFSET, OFFSET);
      TextIrreflexive(OFFSET);
    } else if Digits(a) < Digits(b) {
      Mixed(a, b);
    } else {
      Mixed(b, a);
    }
  }

  lemma Mixed(a: nat, b: nat)
    requires 0 < a < 1_000_000_000 && 0 < b < 1_000_000_000 && Digits(a) < Digits(b)
    ensures var s, t := Pad(FractionNumber(a), Digits(a)) + OFFSET, Pad(FractionNumber(b), Digits(b)) + OFFSET;
            (TextLess(s, t) <==> a < b) && (TextLess(t, s) <==> b < a)
  {
    Powers();
    if Digits(a) == 3 && Digits(b) == 6 {
      var n := b / 1_000;
      PadThree(n, 3);
      ShorterFraction(a / 1_000_000, 3, n / 1_000, n % 1_000, 3);
    } else if Digits(a) == 3 {
      PadSix(b, 3);
      ShorterFraction(a / 1_000_000, 3, b / 1_000_000, b % 1_000_000, 6);
    } else {
      PadThree(b, 6);
      ShorterFraction(a / 1_000, 6, b / 1_000, b % 1_000, 3);
    }
  }

  lemma {:induction false} TextIrreflexive(s: string)
    ensures !TextLess(s, s)
  {
    if s != [] {
      TextIrreflexive(s[1..]);
    }
  }

  lemma SecondOrder(a: Civil, b: Civil)
    requires Valid(a) && Valid(b)
    ensures TextLess(FromSecond(a), FromSecond(b)) <==>
              a.second < b.second || (a.second == b.second && a.nano < b.nano)
  {
    Powers();
    FractionOrder(a.nano, b.nano);
    FieldOrder(a.second, b.second, 2, Fraction(a.nano) + OFFSET, Fraction(b.nano) + OFFSET);
  }

  lemma HourOrder(a: Civil, b: Civil)
    requires Valid(a) && Valid(b)
    ensures TextLess(FromHour(a), FromHour(b)) <==>
              a.hour < b.hour || (a.hour == b.hour
                && (a.minute < b.minute || (a.minute == b.minute && TextLess(FromSecond(a), FromSecond(b)))))
  {
    Powers();
    var s, t := ":" + FromSecond(a), ":" + FromSecond(b);
    CommonPrefix(":", FromSecond(a), FromSecond(b));
    FieldOrder(a.minute, b.minute, 2, s, t);
    CommonPrefix(":", Pad(a.minute, 2) + s, Pad(b.minute, 2) + t);
    FieldOrder(a.hour, b.hour, 2, ":" + (Pad(a.minute, 2) + s), ":" + (Pad(b.minute, 2) + t));
  }

  lemma MonthOrder(a: Civil, b: Civil)
    requires Valid(a) && Valid(b)
    ensures TextLess(FromMonth(a), FromMonth(b)) <==>
              a.month < b.month || (a.month == b.month
                && (a.day < b.day || (a.day == b.day && TextLess(FromHour(a), FromHour(b)))))
  {
    Powers();
    var s, t := "T" + FromHour(a), "T" + FromHour(b);
    CommonPrefix("T", FromHour(a), FromHour(b));
    FieldOrder(a.day, b.day, 2, s, t);
    CommonPrefix("-", Pad(a.day, 2) + s, Pad(b.day, 2) + t);
    FieldOrder(a.month, b.month, 2, "-" + (Pad(a.day, 2) + s), "-" + (Pad(b.day, 2) + t));
  }

  /** For valid UTC fields in years 0000 to 9999, whatever number of fraction digits each text
      has, byte order of the texts is order of the instants. */
  lemma RenderedOrderIsTimeOrder(a: Civil, b: Civil)
    requires Valid(a) && Valid(b)
    ensures TextLess(Render(a), Render(b)) <==> Instant(a) < Instant(b)
  {
    Powers();
    CommonPrefix("-", FromMonth(a), FromMonth(b));
    FieldOrder(a.year, b.year, 4, "-" + FromMonth(a), "-" + FromMonth(b));
    MonthOrder(a, b);
    HourOrder(a, b);
    SecondOrder(a, b);
    CivilOrder(a, b);
  }

  // --- from instants to text ------------------------------------------------

  /** The year holding day n counted from the start of year y, and the day within it. */
  function YearFrom(n: nat, y: nat): (r: (nat, nat))
    ensures r.1 < YearDays(r.0) && DaysBeforeYear(r.0) + r.1 == DaysBeforeYear(y) + n
  {
    if n < YearDays(y) then (y, n) else YearFrom(n - YearDays(y), y + 1)
  }

  function MonthFrom(y: nat, n: nat, m: nat): (r: (nat, nat))
    requires 1 <= m <= 12 && DaysBeforeMonth(y, m) + n < DaysBeforeMonth(y, 13)
    ensures m <= r.0 <= 12 && r.1 < MonthDays(y, r.0)
    ensures DaysBeforeMonth(y, r.0) + r.1 == DaysBeforeMonth(y, m) + n
    decreases 13 - m
  {
    if n < MonthDays(y, m) then (m, n)
    else
      assert DaysBeforeMonth(y, m + 1) == DaysBeforeMonth(y, m) + MonthDays(y, m);
      MonthFrom(y, n - MonthDays(y, m), m + 1)
  }

  /** The first instant of year 10000, past which years no longer have four digits. */
  ghost function EndOfTime(): nat {
    DaysBeforeYear(10_000) * 86_400_000_000_000
  }

  lemma SecondsOfDay(n: nat)
    ensures n == ((n / 86_400 * 24 + n / 3_600 % 24) * 60 + n / 60 % 60) * 60 + n % 60
  {
    assert n / 60 / 60 == n / 3_600;
    assert n / 3_600 / 24 == n / 86_400;
  }

  lemma LateYears(year: nat)
    requires year >= 10_000
    ensures DaysBeforeYear(year) >= DaysBeforeYear(10_000)
  {
    if year > 10_000 {
      YearsGrow(10_000, year);
    }
  }

  /** The calendar fields of the instant t. */
  function CivilOf(t: nat): (c: Civil)
    ensures Instant(c) == t
    ensures t < EndOfTime() ==> Valid(c)
  {
    var n := t / 1_000_000_000;
    var (year, yearDay) := YearFrom(n / 86_400, 0);
    MonthsFillYear(year);
    var (month, monthDay) := MonthFrom(year, yearDay, 1);
    SecondsOfDay(n);
    assert t < EndOfTime() ==> year < 10_000 by {
      if year >= 10_000 {
        LateYears(year);
      }
    }
    Civil(year, month, monthDay + 1, n / 3_600 % 24, n / 60 % 60, n % 60, t % 1_000_000_000)
  }

  /** What `to_rfc3339` writes for the instant t. */
  function Stamp(t: nat): string {
    Render(CivilOf(t))
  }

  /** The stored text of two instants compares as the instants do. */
  lemma StampOrder(s: nat, t: nat)
    requires s < EndOfTime() && t < EndOfTime()
    ensures TextLeq(Stamp(s), Stamp(t)) <==> s <= t
  {
    RenderedOrderIsTimeOrder(CivilOf(t), CivilOf(s));
  }
}
