/** The proleptic Gregorian calendar over day numbers; day 0 is 1 January 1970. */
module Calendar {

  predicate Leap(y: int) { y % 4 == 0 && (y % 100 != 0 || y % 400 == 0) }

  function YearLen(y: int): int { if Leap(y) then 366 else 365 }

  // Days before year 1970 counted from 1 January of year 0.
  const EPOCH := 719528

  /** The day number of 1 January of year y. */
  function YearStart(y: int): int {
    365 * y + (y + 3) / 4 - (y + 99) / 100 + (y + 399) / 400 - EPOCH
  }

  lemma YearStep(y: int)
    ensures YearStart(y + 1) == YearStart(y) + YearLen(y)
  {
    Carry(y, 4);
    Carry(y, 100);
    Carry(y, 400);
    Multiples(y);
  }

  lemma Carry(y: int, n: int)
    requires n == 4 || n == 100 || n == 400
    ensures (y + n) / n - (y + n - 1) / n == if y % n == 0 then 1 else 0
  {}

  lemma Multiples(y: int)
    ensures y % 400 == 0 ==> y % 100 == 0
    ensures y % 100 == 0 ==> y % 4 == 0
  {}

  /** The mean Gregorian year is 146097/400 days, and no year drifts far from it. */
  lemma YearDrift(y: int)
    ensures 146097 * y - 396 <= 400 * (YearStart(y) + EPOCH) <= 146097 * y + 699
  {}

  function YearOf(d: int): (y: int)
    ensures YearStart(y) <= d < YearStart(y + 1)
  {
    var y0 := 400 * (d + EPOCH) / 146097;
    YearDrift(y0 - 1);
    YearDrift(y0 + 2);
    assert y0 + 1 + 1 == y0 + 2 && y0 - 1 + 1 == y0;
    if d < YearStart(y0) then y0 - 1 else if d < YearStart(y0 + 1) then y0 else y0 + 1
  }

  lemma {:induction false} YearStartMonotone(a: int, b: int)
    requires a <= b
    ensures YearStart(a) + 365 * (b - a) <= YearStart(b) <= YearStart(a) + 366 * (b - a)
    decreases b - a
  {
    if a < b {
      YearStartMonotone(a, b - 1);
      YearStep(b - 1);
    }
  }

  lemma YearUnique(d: int, y: int)
    requires YearStart(y) <= d < YearStart(y + 1)
    ensures YearOf(d) == y
  {
    var z := YearOf(d);
    if z < y {
      YearStartMonotone(z + 1, y);
    } else if y < z {
      YearStartMonotone(y + 1, z);
    }
  }

  function MonthLen(y: int, m: int): int {
    if m == 2 then (if Leap(y) then 29 else 28)
    else if m == 4 || m == 6 || m == 9 || m == 11 then 30
    else 31
  }

  const LENGTHS := [31, 28, 31, 30, 31, 30, 31, 31, 30, 31, 30, 31]

  /** The lengths of the months; February has a day more in every fourth year, but of the
      hundredth ones only in the four hundredth. */
  lemma MonthLengths(y: int, m: int)
    requires 1 <= m <= 12
    ensures MonthLen(y, m) == LENGTHS[m - 1] + if m == 2 && (y % 400 == 0 || (y % 100 != 0 && y % 4 == 0)) then 1 else 0
    ensures YearStart(1970) == 0 && YearStart(y + 1) - YearStart(y) == MonthStart(y, 13)
  {
    Multiples(y);
    YearStep(y);
    MonthTable(y);
    hide MonthStart;
  }

  /** Days of the year before month m. */
  function MonthStart(y: int, m: int): int
    requires 1 <= m <= 13
  {
    if m == 1 then 0 else MonthStart(y, m - 1) + MonthLen(y, m - 1)
  }

  lemma MonthTable(y: int)
    ensures MonthStart(y, 13) == YearLen(y)
    ensures forall m :: 1 <= m <= 12 ==> MonthStart(y, m + 1) == MonthStart(y, m) + MonthLen(y, m)
  {
    assert MonthStart(y, 2) == 31;
    assert MonthStart(y, 3) == 31 + MonthLen(y, 2);
    assert MonthStart(y, 5) == MonthStart(y, 3) + 61;
    assert MonthStart(y, 7) == MonthStart(y, 5) + 61;
    assert MonthStart(y, 9) == MonthStart(y, 7) + 62;
    assert MonthStart(y, 11) == MonthStart(y, 9) + 61;
  }

  /** The month holding day-of-year n, searched from month m. */
  function MonthFrom(y: int, n: int, m: int): (r: int)
    requires 1 <= m <= 12 && MonthStart(y, m) <= n < YearLen(y)
    ensures 1 <= r <= 12 && MonthStart(y, r) <= n < MonthStart(y, r + 1)
    decreases 12 - m
  {
    MonthTable(y);
    if n < MonthStart(y, m + 1) then m else MonthFrom(y, n, m + 1)
  }

  datatype Civil = Civil(year: int, month: int, day: int)

  predicate ValidDate(c: Civil) { 1 <= c.month <= 12 && 1 <= c.day <= MonthLen(c.year, c.month) }

  function DayNumber(c: Civil): int
    requires 1 <= c.month <= 12
  {
    YearStart(c.year) + MonthStart(c.year, c.month) + c.day - 1
  }

  /** The date of a day number. */
  function CivilOf(d: int): (c: Civil)
    ensures ValidDate(c) && DayNumber(c) == d
  {
    var y := YearOf(d);
    YearStep(y);
    var n := d - YearStart(y);
    var m := MonthFrom(y, n, 1);
    MonthTable(y);
    Civil(y, m, n - MonthStart(y, m) + 1)
  }

  lemma {:induction false} MonthStartMonotone(y: int, a: int, b: int)
    requires 1 <= a <= b <= 13
    ensures MonthStart(y, a) <= MonthStart(y, b)
    decreases b - a
  {
    if a < b { MonthStartMonotone(y, a, b - 1); }
  }

  /** A date is the date of exactly one day. */
  lemma CivilUnique(c: Civil)
    requires ValidDate(c)
    ensures CivilOf(DayNumber(c)) == c
  {
    var y, m := c.year, c.month;
    MonthTable(y);
    MonthStartMonotone(y, m + 1, 13);
    MonthStartMonotone(y, 1, m);
    YearStep(y);
    YearUnique(DayNumber(c), y);
    MonthUnique(y, DayNumber(c) - YearStart(y), m, CivilOf(DayNumber(c)).month);
  }

  lemma MonthUnique(y: int, n: int, a: int, b: int)
    requires 1 <= a <= 12 && MonthStart(y, a) <= n < MonthStart(y, a + 1)
    requires 1 <= b <= 12 && MonthStart(y, b) <= n < MonthStart(y, b + 1)
    ensures a == b
  {
    if a < b { MonthStartMonotone(y, a + 1, b); }
    if b < a { MonthStartMonotone(y, b + 1, a); }
  }

  // Sunday is 0; day 0 was a Thursday.
  function Weekday(d: int): int { (d + 4) % 7 }

  /** 1 January 1970 was a Thursday, 4 counted from Sunday, and weekdays take turns. */
  lemma WeekdayIs(d: int)
    ensures CivilOf(0) == Civil(1970, 1, 1) && Weekday(0) == 4
    ensures Weekday(d + 1) == if Weekday(d) == 6 then 0 else Weekday(d) + 1
  {
    FirstDay();
    hide CivilOf;
  }

  lemma JanuaryFirst(c: Civil)
    requires c == Civil(1970, 1, 1)
    ensures ValidDate(c) && DayNumber(c) == 0
  {}

  lemma FirstDay()
    ensures CivilOf(0) == Civil(1970, 1, 1)
  {
    var c := Civil(1970, 1, 1);
    JanuaryFirst(c);
    hide *;
    CivilUnique(c);
  }
}
