/**
 Query log time bounds (`query_log_bound`): rows carry UTC time as text, the
 store compares text, and a bound has to sort where its time belongs.
 */
module QueryLogBound {
  import opened Text

  // ---- Time -------------------------------------------------------------------------

  /** A UTC date and time to the second (no leap seconds). */
  datatype Moment = Moment(year: int, month: nat, day: nat, hour: nat, minute: nat, second: nat)

  predicate LeapYear(y: int) {
    y % 4 == 0 && (y % 100 != 0 || y % 400 == 0)
  }

  function DaysIn(y: int, month: nat): nat {
    if month == 2 then (if LeapYear(y) then 29 else 28)
    else if month in {4, 6, 9, 11} then 30 else 31
  }

  predicate Valid(m: Moment) {
    && 1 <= m.month <= 12 && 1 <= m.day <= DaysIn(m.year, m.month)
    && m.hour < 24 && m.minute < 60 && m.second < 60
  }

  /** Days from the start of year 0 to the start of `y`. */
  function DaysBeforeYear(y: int): int {
    365 * y + (y + 3) / 4 - (y + 99) / 100 + (y + 399) / 400
  }

  function DaysBeforeMonth(y: int, month: nat): nat {
    if month <= 1 then 0 else DaysBeforeMonth(y, month - 1) + DaysIn(y, month - 1)
  }

  function DayNumber(m: Moment): int {
    DaysBeforeYear(m.year) + DaysBeforeMonth(m.year, m.month) + m.day - 1
  }

  /** Seconds since the start of year 0. */
  function Instant(m: Moment): int {
    DayNumber(m) * 86_400 + m.hour * 3_600 + m.minute * 60 + m.second
  }

  lemma YearLength(y: int)
    ensures DaysBeforeYear(y + 1) == DaysBeforeYear(y) + (if LeapYear(y) then 366 else 365)
    ensures DaysBeforeMonth(y, 12) + 31 == (if LeapYear(y) then 366 else 365)
  {
    LeapDays(y);
    MonthsAddUp(y);
  }

  lemma LeapDays(y: int)
    ensures DaysBeforeYear(y + 1) == DaysBeforeYear(y) + (if LeapYear(y) then 366 else 365)
  {
    Fourths(y);
    Hundredths(y);
    FourHundredths(y);
    if y % 100 == 0 {
      CenturyIsFourths(y);
    }
    if y % 400 == 0 {
      FourCenturiesAreCenturies(y);
    }
  }

  lemma Fourths(y: int)
    ensures (y + 4) / 4 == (y + 3) / 4 + if y % 4 == 0 then 1 else 0
  {
  }

  lemma QuotientBy100(n: int, q: int)
    requires 100 * q <= n < 100 * q + 100
    ensures n / 100 == q
  {
  }

  lemma Hundredths(y: int)
    ensures (y + 100) / 100 == (y + 99) / 100 + if y % 100 == 0 then 1 else 0
  {
    var q := y / 100;
    assert 100 * q <= y < 100 * q + 100 && (y % 100 == 0 <==> y == 100 * q);
    QuotientBy100(y + 100, q + 1);
    QuotientBy100(y + 99, if y == 100 * q then q else q + 1);
  }

  lemma CenturyIsFourths(y: int)
    requires y % 100 == 0
    ensures y % 4 == 0
  {
    var q := y / 100;
    assert y == 4 * (25 * q);
  }

  lemma QuotientBy400(n: int, q: int)
    requires 400 * q <= n < 400 * q + 400
    ensures n / 400 == q
  {
  }

  lemma FourHundredths(y: int)
    ensures (y + 400) / 400 == (y + 399) / 400 + if y % 400 == 0 then 1 else 0
  {
    var q := y / 400;
    assert 400 * q <= y < 400 * q + 400 && (y % 400 == 0 <==> y == 400 * q);
    QuotientBy400(y + 400, q + 1);
    QuotientBy400(y + 399, if y == 400 * q then q else q + 1);
  }

  lemma FourCenturiesAreCenturies(y: int)
    requires y % 400 == 0
    ensures y % 100 == 0
  {
    var q := y / 400;
    assert y == 100 * (4 * q);
  }

  lemma MonthsAddUp(y: int)
    ensures DaysBeforeMonth(y, 12) + 31 == (if LeapYear(y) then 366 else 365)
  {
    assert DaysBeforeMonth(y, 2) == 31;
    assert DaysBeforeMonth(y, 4) == DaysBeforeMonth(y, 2) + DaysIn(y, 2) + 31;
    assert DaysBeforeMonth(y, 6) == DaysBeforeMonth(y, 4) + 61;
    assert DaysBeforeMonth(y, 8) == DaysBeforeMonth(y, 6) + 61;
    assert DaysBeforeMonth(y, 10) == DaysBeforeMonth(y, 8) + 61;
    assert DaysBeforeMonth(y, 12) == DaysBeforeMonth(y, 10) + 61;
  }

  lemma {:induction false} YearsInOrder(y: int, z: int)
    requires y < z
    ensures DaysBeforeYear(y + 1) <= DaysBeforeYear(z)
    decreases z - y
  {
    if y + 1 < z {
      YearsInOrder(y, z - 1);
      YearLength(z - 1);
    }
  }

  lemma {:induction false} MonthsInOrder(y: int, a: nat, b: nat)
    requires 1 <= a < b
    ensures DaysBeforeMonth(y, a) + DaysIn(y, a) <= DaysBeforeMonth(y, b)
    decreases b
  {
    if a + 1 < b {
      MonthsInOrder(y, a, b - 1);
    }
  }

  /** The calendar: the months' lengths, leap years among them. */
  lemma MonthLengths(y: int)
    ensures forall month | month in {1, 3, 5, 7, 8, 10, 12} :: DaysIn(y, month) == 31
    ensures forall month | month in {4, 6, 9, 11} :: DaysIn(y, month) == 30
    ensures DaysIn(y, 2) == if y % 4 == 0 && (y % 100 == 0 ==> y % 400 == 0) then 29 else 28
  {
  }

  /** What a clock shows one second later. */
  function OneSecondOn(m: Moment): Moment {
    if m.second < 59 then m.(second := m.second + 1)
    else if m.minute < 59 then m.(second := 0, minute := m.minute + 1)
    else if m.hour < 23 then m.(second := 0, minute := 0, hour := m.hour + 1)
    else if m.day < DaysIn(m.year, m.month) then Moment(m.year, m.month, m.day + 1, 0, 0, 0)
    else if m.month < 12 then Moment(m.year, m.month + 1, 1, 0, 0, 0)
    else Moment(m.year + 1, 1, 1, 0, 0, 0)
  }

  /** Time goes on by one where the calendar does, and 1970 begins where UNIX time does. */
  lemma SecondsCount(m: Moment)
    requires Valid(m)
    ensures Valid(OneSecondOn(m)) && Instant(OneSecondOn(m)) == Instant(m) + 1
    ensures Instant(Moment(1970, 1, 1, 0, 0, 0)) == 62_167_219_200
  {
    YearLength(m.year);
    if m.month == 12 {
      assert DaysBeforeMonth(m.year + 1, 1) == 0;
    }
  }

  /** The calendar's order: year, then month, and so on down. */
  predicate Earlier(a: Moment, b: Moment) {
    if a.year != b.year then a.year < b.year
    else if a.month != b.month then a.month < b.month
    else if a.day != b.day then a.day < b.day
    else if a.hour != b.hour then a.hour < b.hour
    else if a.minute != b.minute then a.minute < b.minute
    else a.second < b.second
  }

  lemma EarlierDay(a: Moment, b: Moment)
    requires Valid(a) && Valid(b) && Earlier(a, b)
    ensures DayNumber(a) < DayNumber(b) || (DayNumber(a) == DayNumber(b) && a.(hour := 0, minute := 0, second := 0) == b.(hour := 0, minute := 0, second := 0))
  {
    if a.year != b.year {
      YearsInOrder(a.year, b.year);
      YearLength(a.year);
      if a.month < 12 {
        MonthsInOrder(a.year, a.month, 12);
      }
    } else if a.month != b.month {
      MonthsInOrder(a.year, a.month, b.month);
    }
  }

  /** The calendar's order is the order of time. */
  lemma EarlierIsBefore(a: Moment, b: Moment)
    requires Valid(a) && Valid(b)
    ensures Earlier(a, b) <==> Instant(a) < Instant(b)
  {
    if Earlier(a, b) {
      EarlierDay(a, b);
    } else if a != b {
      EarlierDay(b, a);
    }
  }

  // ---- Text -------------------------------------------------------------------------

  function Pow10(w: nat): (p: nat)
    ensures p >= 1
  {
    if w == 0 then 1 else 10 * Pow10(w - 1)
  }

  /** The last `w` decimal digits of `n`. */
  function Pad(n: nat, w: nat): (s: string)
    ensures |s| == w
    ensures forall i | 0 <= i < w :: '0' <= s[i] <= '9'
  {
    if w == 0 then "" else Pad(n / 10, w - 1) + [Digit(n % 10)]
  }

  /** Years outside 0..9999 are written with a sign. */
  function YearText(y: int): (s: string)
    ensures |s| >= 1
  {
    if 0 <= y <= 9999 then Pad(y, 4)
    else if y > 9999 then "+" + Decimal(y)
    else "-" + if -y < 10_000 then Pad(-y, 4) else Decimal(-y)
  }

  /** A separator, a two-digit field, and what follows. */
  function Field(c: char, n: nat, rest: string): string {
    [c] + Pad(n, 2) + rest
  }

  /** `-MM-DDTHH:MM:SS`, and what follows. */
  function RestText(m: Moment, rest: string): string {
    Field('-', m.month, Field('-', m.day, Field('T', m.hour, Field(':', m.minute, Field(':', m.second, rest)))))
  }

  /** `YYYY-MM-DDTHH:MM:SS` */
  function SecondText(m: Moment): string {
    YearText(m.year) + RestText(m, "")
  }

  /** A stored row's time: no fraction, or one of 3, 6 or 9 digits. */
  function StoredText(m: Moment, fraction: string): string {
    SecondText(m) + (if fraction == "" then "" else "." + fraction) + "+00:00"
  }

  function FromBound(m: Moment): string {
    SecondText(m)
  }

  function ToBound(m: Moment): string {
    SecondText(m) + ".999999999+99:99"
  }

  predicate Fraction(f: string) {
    |f| in {0, 3, 6, 9} && forall i | 0 <= i < |f| :: '0' <= f[i] <= '9'
  }

  predicate AtMost(a: string, b: string) {
    a == b || Less(a, b)
  }

  lemma TwoDigits(n: nat)
    requires n < 100
    ensures Pad(n, 2) == [Digit(n / 10), Digit(n % 10)]
  {
    var tens := n / 10;
    assert tens < 10 && tens % 10 == tens;
    assert Pad(tens, 1) == Pad(tens / 10, 0) + [Digit(tens % 10)];
  }

  /** A year has four digits, with a sign in front if it is negative; more with a sign if it needs more. */
  lemma YearTextIs(y: int)
    ensures 0 <= y <= 9999 ==> YearText(y) == Pad(y / 100, 2) + Pad(y % 100, 2)
    ensures -9999 <= y < 0 ==> YearText(y) == "-" + (Pad(-y / 100, 2) + Pad(-y % 100, 2))
    ensures y >= 10_000 ==> YearText(y) == "+" + Decimal(y)
    ensures y <= -10_000 ==> YearText(y) == "-" + Decimal(-y)
  {
    if 0 <= y <= 9999 {
      FourDigits(y);
    } else if -9999 <= y < 0 {
      FourDigits(-y);
    }
  }

  lemma FourDigits(n: nat)
    requires n <= 9999
    ensures Pad(n, 4) == Pad(n / 100, 2) + Pad(n % 100, 2)
  {
    TwoDigits(n % 100);
    assert n / 10 / 10 == n / 100 && n % 100 / 10 == n / 10 % 10 && n % 100 % 10 == n % 10;
    assert Pad(n, 4) == Pad(n / 10, 3) + [Digit(n % 10)];
    assert Pad(n / 10, 3) == Pad(n / 10 / 10, 2) + [Digit(n / 10 % 10)];
  }

  /** A stored time in full. */
  lemma SecondTextIs(m: Moment)
    requires Valid(m)
    ensures SecondText(m) == YearText(m.year) + ("-" + (Pad(m.month, 2) + ("-" + (Pad(m.day, 2) + ("T" + (Pad(m.hour, 2)
                             + (":" + (Pad(m.minute, 2) + (":" + Pad(m.second, 2))))))))))
  {
    var r5 := Field(':', m.second, "");
    var r4 := Field(':', m.minute, r5);
    var r3 := Field('T', m.hour, r4);
    var r2 := Field('-', m.day, r3);
    FieldIs(':', m.second, "");
    FieldIs(':', m.minute, r5);
    FieldIs('T', m.hour, r4);
    FieldIs('-', m.day, r3);
    FieldIs('-', m.month, r2);
    assert Pad(m.second, 2) + "" == Pad(m.second, 2);
  }

  lemma FieldIs(c: char, n: nat, rest: string)
    ensures Field(c, n, rest) == [c] + (Pad(n, 2) + rest)
  {
  }

  /** Texts with beginnings of equal length are ordered by those first. */
  lemma {:induction false} LessByPrefix(p: string, q: string, s: string, t: string)
    requires |p| == |q|
    ensures Less(p + s, q + t) <==> Less(p, q) || (p == q && Less(s, t))
    decreases |p|
  {
    if p == "" {
      assert p + s == s && q + t == t;
    } else {
      LessByPrefix(p[1..], q[1..], s, t);
      assert (p + s)[1..] == p[1..] + s && (q + t)[1..] == q[1..] + t;
      assert p == [p[0]] + p[1..] && q == [q[0]] + q[1..];
    }
  }

  lemma {:induction false} PadInOrder(a: nat, b: nat, w: nat)
    requires a < Pow10(w) && b < Pow10(w)
    ensures Less(Pad(a, w), Pad(b, w)) <==> a < b
    ensures Pad(a, w) == Pad(b, w) <==> a == b
    decreases w
  {
    if w > 0 {
      PadInOrder(a / 10, b / 10, w - 1);
      LessByPrefix(Pad(a / 10, w - 1), Pad(b / 10, w - 1), [Digit(a % 10)], [Digit(b % 10)]);
      assert Pad(a, w)[..w - 1] == Pad(a / 10, w - 1) && Pad(a, w)[w - 1] == Digit(a % 10);
      assert Pad(b, w)[..w - 1] == Pad(b / 10, w - 1) && Pad(b, w)[w - 1] == Digit(b % 10);
    }
  }

  lemma FieldInOrder(c: char, a: nat, b: nat, s: string, t: string)
    requires a < 100 && b < 100
    ensures Less(Field(c, a, s), Field(c, b, t)) <==> a < b || (a == b && Less(s, t))
  {
    assert Pow10(2) == 100 by {
      assert Pow10(1) == 10;
    }
    PadInOrder(a, b, 2);
    LessByPrefix([c], [c], Pad(a, 2), Pad(b, 2));
    LessByPrefix([c] + Pad(a, 2), [c] + Pad(b, 2), s, t);
    assert ([c] + Pad(a, 2))[1..] == Pad(a, 2) && ([c] + Pad(b, 2))[1..] == Pad(b, 2);
  }

  lemma FieldAppend(c: char, n: nat, rest: string, s: string)
    ensures Field(c, n, rest) + s == Field(c, n, rest + s)
  {
  }

  lemma SecondAppend(m: Moment, s: string)
    ensures SecondText(m) + s == YearText(m.year) + RestText(m, s)
  {
    var r5 := Field(':', m.second, "");
    var r4 := Field(':', m.minute, r5);
    var r3 := Field('T', m.hour, r4);
    var r2 := Field('-', m.day, r3);
    assert "" + s == s;
    FieldAppend(':', m.second, "", s);
    FieldAppend(':', m.minute, r5, s);
    FieldAppend('T', m.hour, r4, s);
    FieldAppend('-', m.day, r3, s);
    FieldAppend('-', m.month, r2, s);
  }

  lemma RestInOrder(a: Moment, b: Moment, s: string, t: string)
    requires Valid(a) && Valid(b) && a.year == b.year
    ensures Less(RestText(a, s), RestText(b, t)) <==> Earlier(a, b) || (a == b && Less(s, t))
  {
    var a5, b5 := Field(':', a.second, s), Field(':', b.second, t);
    var a4, b4 := Field(':', a.minute, a5), Field(':', b.minute, b5);
    var a3, b3 := Field('T', a.hour, a4), Field('T', b.hour, b4);
    var a2, b2 := Field('-', a.day, a3), Field('-', b.day, b3);
    FieldInOrder(':', a.second, b.second, s, t);
    FieldInOrder(':', a.minute, b.minute, a5, b5);
    FieldInOrder('T', a.hour, b.hour, a4, b4);
    FieldInOrder('-', a.day, b.day, a3, b3);
    FieldInOrder('-', a.month, b.month, a2, b2);
  }

  predicate FourDigitYear(m: Moment) {
    0 <= m.year <= 9999
  }

  /** Seconds of four-digit years, followed by anything, sort by time first. */
  lemma SecondsInOrder(a: Moment, b: Moment, s: string, t: string)
    requires Valid(a) && Valid(b) && FourDigitYear(a) && FourDigitYear(b)
    ensures Less(SecondText(a) + s, SecondText(b) + t) <==> Earlier(a, b) || (a == b && Less(s, t))
  {
    SecondAppend(a, s);
    SecondAppend(b, t);
    assert Pow10(4) == 10_000 by {
      assert Pow10(2) == 10 * Pow10(1);
    }
    PadInOrder(a.year, b.year, 4);
    LessByPrefix(Pad(a.year, 4), Pad(b.year, 4), RestText(a, s), RestText(b, t));
    if a.year == b.year {
      RestInOrder(a, b, s, t);
    }
  }

  // ---- The bounds -------------------------------------------------------------------

  function Tail(fraction: string): string {
    (if fraction == "" then "" else "." + fraction) + "+00:00"
  }

  const LAST := ".999999999+99:99"

  /** Any fraction and offset text sorts below the one a `to` bound ends with. */
  lemma TailBelowLast(fraction: string)
    requires Fraction(fraction)
    ensures Less(Tail(fraction), LAST)
  {
    if fraction == "" {
      assert Tail(fraction) == "+00:00";
    } else if |fraction| == 3 {
      FractionBelow(fraction, "999", "999999+99:99");
      assert LAST == "." + "999" + "999999+99:99";
    } else if |fraction| == 6 {
      FractionBelow(fraction, "999999", "999+99:99");
      assert LAST == "." + "999999" + "999+99:99";
    } else {
      assert Less("00:00", "99:99");
      assert "+00:00"[1..] == "00:00" && "+99:99"[1..] == "99:99";
      FractionBelow(fraction, "999999999", "+99:99");
      assert LAST == "." + "999999999" + "+99:99";
    }
  }

  lemma FractionBelow(fraction: string, nines: string, after: string)
    requires fraction != "" && Fraction(fraction) && |nines| == |fraction|
    requires forall i | 0 <= i < |nines| :: nines[i] == '9'
    requires Less("+00:00", after)
    ensures Less(Tail(fraction), "." + nines + after)
  {
    LessByPrefix(".", ".", fraction, nines);
    LessByPrefix("." + fraction, "." + nines, "+00:00", after);
    BelowNines(fraction, nines);
    assert ("." + fraction)[1..] == fraction && ("." + nines)[1..] == nines;
  }

  lemma {:induction false} BelowNines(f: string, nines: string)
    requires |f| == |nines| && (forall i | 0 <= i < |f| :: '0' <= f[i] <= '9') && forall i | 0 <= i < |f| :: nines[i] == '9'
    ensures f == nines || Less(f, nines)
    decreases |f|
  {
    if f != "" {
      BelowNines(f[1..], nines[1..]);
      assert f == [f[0]] + f[1..] && nines == [nines[0]] + nines[1..];
    }
  }

  /** With a four-digit year, text and time agree at both ends. */
  lemma BoundsAgree(row: Moment, fraction: string, bound: Moment)
    requires Valid(row) && FourDigitYear(row) && Fraction(fraction) && Valid(bound) && FourDigitYear(bound)
    ensures AtMost(FromBound(bound), StoredText(row, fraction)) <==> Instant(bound) <= Instant(row)
    ensures AtMost(StoredText(row, fraction), ToBound(bound)) <==> Instant(row) <= Instant(bound)
  {
    var tail := Tail(fraction);
    assert StoredText(row, fraction) == SecondText(row) + tail;
    assert FromBound(bound) + "" == FromBound(bound);
    EarlierIsBefore(row, bound);
    EarlierIsBefore(bound, row);
    SecondsInOrder(bound, row, "", tail);
    SecondsInOrder(row, bound, tail, "");
    SecondsInOrder(row, bound, tail, LAST);
    SecondsInOrder(bound, row, LAST, tail);
    TailBelowLast(fraction);
    LessTotal(tail, LAST);
    LessTotal(FromBound(bound), StoredText(row, fraction));
    LessTotal(StoredText(row, fraction), ToBound(bound));
  }

  /** A signed year sorts before every row, whatever its sign. */
  lemma SignedYearSortsFirst(row: Moment, fraction: string, bound: Moment)
    requires FourDigitYear(row) && !FourDigitYear(bound)
    ensures Less(FromBound(bound), StoredText(row, fraction))
    ensures !AtMost(StoredText(row, fraction), ToBound(bound))
  {
    var row0 := YearText(row.year)[0];
    assert '0' <= row0 <= '9';
    assert StoredText(row, fraction)[0] == row0;
    assert FromBound(bound)[0] == ToBound(bound)[0] == YearText(bound.year)[0];
  }

  /**
   For every row and bound, text order agrees with time order at both ends if
   and only if the bound's UTC year is at most 9999.
   */
  lemma BoundsAgreeExactly(row: Moment, fraction: string, bound: Moment)
    requires Valid(row) && FourDigitYear(row) && Fraction(fraction) && Valid(bound)
    ensures bound.year <= 9999 <==>
              && (AtMost(FromBound(bound), StoredText(row, fraction)) <==> Instant(bound) <= Instant(row))
              && (AtMost(StoredText(row, fraction), ToBound(bound)) <==> Instant(row) <= Instant(bound))
  {
    if FourDigitYear(bound) {
      BoundsAgree(row, fraction, bound);
    } else {
      SignedYearSortsFirst(row, fraction, bound);
      EarlierIsBefore(row, bound);
      EarlierIsBefore(bound, row);
    }
  }
}
