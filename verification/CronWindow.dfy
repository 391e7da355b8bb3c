/** Why searchDays is far enough, and for which schedules it is not. */
module CronWindow {
  import opened JsonValue
  import opened Calendar
  import opened Cron

  // From a 29 February to the next over a century that is not a leap year.
  const LEAP_GAP := 8 * 365 + 1

  /** The day fields combine with OR, or one of them is the whole set. */
  predicate Free(s: Schedule) {
    || (!s.domStar && !s.dowStar)
    || (forall d :: 1 <= d <= 31 ==> d in s.dom)
    || (forall w :: 0 <= w <= 6 ==> w in s.dow)
  }

  ghost predicate FiresEver(s: Schedule) { exists u :: Matches(s, u) }

  // ── dates come round ──────────

  /** Every date but 29 February comes round within two years. */
  lemma PlainDateRecurs(m: int, day: int, d0: int) returns (d: int)
    requires 1 <= m <= 12 && 1 <= day <= MonthLen(1, m)
    ensures d0 <= d < d0 + 732 && CivilOf(d).month == m && CivilOf(d).day == day
  {
    hide YearStart, MonthStart, CivilOf, YearOf;
    var y := YearOf(d0);
    var c := Civil(y + 1, m, day);
    d := DayNumber(c);
    CivilUnique(c);
    assert !Leap(1);
    InYear(c);
    YearStartMonotone(y, y + 2);
  }

  lemma InYear(c: Civil)
    requires ValidDate(c)
    ensures YearStart(c.year) <= DayNumber(c) < YearStart(c.year + 1)
  {
    hide YearStart;
    MonthTable(c.year);
    MonthStartMonotone(c.year, c.month + 1, 13);
    MonthStartMonotone(c.year, 1, c.month);
    YearStep(c.year);
  }

  function LeapDay(y: int): int { YearStart(y) + 59 }

  lemma LeapDayIs(y: int)
    requires Leap(y)
    ensures CivilOf(LeapDay(y)) == Civil(y, 2, 29)
  {
    assert MonthStart(y, 2) == 31;
    CivilUnique(Civil(y, 2, 29));
  }

  /** 29 February comes round within LEAP_GAP days of any day. */
  lemma LeapDayRecurs(d0: int) returns (d: int)
    ensures d0 <= d < d0 + LEAP_GAP && CivilOf(d).month == 2 && CivilOf(d).day == 29
  {
    var y := YearOf(d0);
    var z: int;
    if Leap(y) {
      if d0 <= LeapDay(y) {
        z := y;
        YearStartMonotone(y, y);
      } else {
        z := if Leap(y + 4) then y + 4 else y + 8;
        NextLeap(y);
      }
    } else {
      var k := 4 - y % 4;
      z := if Leap(y + k) then y + k else y + k + 4;
      CenturyGap(y);
      YearStartMonotone(y, z);
      YearStartMonotone(y + 1, z);
    }
    LeapDayIs(z);
    d := LeapDay(z);
  }

  lemma CenturyGap(y: int)
    requires !Leap(y)
    ensures var k := 4 - y % 4; Leap(y + k) || (Leap(y + k + 4) && k <= 3)
  {
    var k := 4 - y % 4;
    FourthYear(y + k);
    if y % 4 == 0 {
      assert y % 100 == 0;
      NotCentury(y);
    }
  }

  lemma NotCentury(y: int)
    requires y % 100 == 0
    ensures Leap(y + 4)
  {
    var c := y / 100;
    assert y + 4 == 100 * c + 4 && y + 4 == 4 * (25 * c + 1);
    assert (100 * c + 4) % 100 == 4;
    assert (y + 4) % 4 == 0;
  }

  lemma FourthYear(z: int)
    requires z % 4 == 0
    ensures Leap(z) || Leap(z + 4)
  {
    if !Leap(z) {
      assert z % 100 == 0;
      NotCentury(z);
    }
  }

  lemma NotLeap(y: int, k: int)
    requires y % 4 == 0 && (k == 1 || k == 2 || k == 3)
    ensures !Leap(y + k)
  {}

  lemma LeapSoon(y: int)
    requires Leap(y)
    ensures Leap(y + 4) || ((y + 4) % 4 == 0 && Leap(y + 8))
  {
    assert (y + 4) % 4 == 0;
    if !Leap(y + 4) { NotCentury(y + 4); }
  }

  /** Four years that start with year y, y divisible by four. */
  lemma FourYears(y: int)
    requires y % 4 == 0
    ensures YearStart(y + 4) == YearStart(y) + YearLen(y) + 1095
  {
    hide YearStart, Leap;
    NotLeap(y, 1);
    NotLeap(y, 2);
    NotLeap(y, 3);
    YearStep(y);
    YearStep(y + 1);
    YearStep(y + 2);
    YearStep(y + 3);
  }

  lemma NextLeap(y: int)
    requires Leap(y)
    ensures Leap(y + 4) ==> YearStart(y + 4) == YearStart(y) + 1461
    ensures !Leap(y + 4) ==> Leap(y + 8) && YearStart(y + 8) == YearStart(y) + LEAP_GAP
  {
    hide YearStart;
    FourYears(y);
    LeapSoon(y);
    if !Leap(y + 4) { FourYears(y + 4); }
  }

  /** Every weekday falls in every month, within two years. */
  lemma MonthWeekdayRecurs(m: int, w: int, d0: int) returns (d: int)
    requires 1 <= m <= 12 && 0 <= w <= 6
    ensures d0 <= d < d0 + 732 && CivilOf(d).month == m && Weekday(d) == w
  {
    hide YearStart, MonthStart, CivilOf, Weekday, YearOf;
    var y := YearOf(d0);
    var first := DayNumber(Civil(y + 1, m, 1));
    var k := (w - Weekday(first)) % 7;
    var c := Civil(y + 1, m, 1 + k);
    d := DayNumber(c);
    WeekdayShift(first, w);
    CivilUnique(c);
    InYear(c);
    YearStartMonotone(y, y + 2);
  }

  lemma WeekdayShift(first: int, w: int)
    requires 0 <= w <= 6
    ensures Weekday(first + (w - Weekday(first)) % 7) == w
  {}

  /** MAIN: when the day fields are free, a schedule with a matching day has one in
      every run of LEAP_GAP days. */
  lemma WindowHolds(s: Schedule, some: int, d0: int) returns (d: int)
    requires Free(s) && DayMatches(s, some)
    ensures d0 <= d < d0 + LEAP_GAP && DayMatches(s, d)
  {
    var c := CivilOf(some);
    var either := !s.domStar && !s.dowStar;
    if either && c.day !in s.dom {
      d := MonthWeekdayRecurs(c.month, Weekday(some), d0);
    } else if either || forall w :: 0 <= w <= 6 ==> w in s.dow {
      if c.month == 2 && c.day == 29 {
        d := LeapDayRecurs(d0);
      } else {
        d := PlainDateRecurs(c.month, c.day, d0);
      }
      assert 0 <= Weekday(d) <= 6;
    } else {
      d := MonthWeekdayRecurs(c.month, Weekday(some), d0);
      assert 1 <= CivilOf(d).day <= 31;
    }
  }

  /** The gap is met: a leap-day schedule is silent for LEAP_GAP - 1 days from
      1 March 1896. */
  lemma WindowTight(d: int)
    requires LeapDay(1896) < d < LeapDay(1904)
    ensures !(CivilOf(d).month == 2 && CivilOf(d).day == 29)
    ensures LeapDay(1904) - LeapDay(1896) == LEAP_GAP
  {
    assert YearStart(1896) == -27028 && YearStart(1904) == -24107;
    var c := CivilOf(d);
    if c.month == 2 && c.day == 29 {
      assert MonthStart(c.year, 2) == 31;
      assert Leap(c.year);
      if c.year <= 1896 { YearStartMonotone(c.year, 1896); }
      if c.year >= 1904 { YearStartMonotone(1904, c.year); }
      assert false;
    }
  }

  // ── the searches never miss ──────────

  lemma FireOnDay(s: Schedule, u: int, d: int)
    requires Matches(s, u) && DayMatches(s, d)
    ensures d * DAY <= d * DAY + u % DAY < (d + 1) * DAY && Matches(s, d * DAY + u % DAY)
  {
    hide DayMatches;
    Rebuild(u);
    Split(d, u % DAY / 60, u % 60);
  }

  /** MAIN: on free day fields Next and Prev answer whenever the schedule fires at all. */
  lemma SearchesNeverMiss(s: Schedule, t: int, n: Option<int>, p: Option<int>)
    requires Free(s)
    ensures IsNext(s, t, n) ==> (n.Some? <==> FiresEver(s))
    ensures IsPrev(s, t, p) ==> (p.Some? <==> FiresEver(s))
  {
    if FiresEver(s) {
      var u :| Matches(s, u);
      var d := WindowHolds(s, u / DAY, (t + 1) / DAY + 1);
      FireOnDay(s, u, d);
      var e := WindowHolds(s, u / DAY, t / DAY - SEARCH_DAYS + 1);
      FireOnDay(s, u, e);
      WindowAhead(t, d, u % DAY);
      WindowBehind(t, e, u % DAY);
    }
  }

  lemma WindowAhead(t: int, d: int, m: int)
    requires (t + 1) / DAY + 1 <= d < (t + 1) / DAY + 1 + LEAP_GAP && 0 <= m < DAY
    ensures t < d * DAY + m < NextEnd(t)
  {}

  lemma WindowBehind(t: int, e: int, m: int)
    requires t / DAY - SEARCH_DAYS + 1 <= e < t / DAY - SEARCH_DAYS + 1 + LEAP_GAP && 0 <= m < DAY
    ensures PrevStart(t) <= e * DAY + m <= t
  {}

  /** On free day fields the gaps MaxGap measures are between consecutive fires. */
  lemma GapIsConsecutive(s: Schedule, a: int, b: int)
    requires Free(s)
    ensures Gap(s, a, b) <==> a < b && Matches(s, a) && Matches(s, b) && Silent(s, a + 1, b)
  {
    hide Matches;
    if a < b && Matches(s, a) && Matches(s, b) && Silent(s, a + 1, b) {
      var d := WindowHoldsAt(s, a, b - 1);
      assert d <= a;
    }
  }

  lemma MatchesDay(s: Schedule, u: int)
    requires Matches(s, u)
    ensures DayMatches(s, u / DAY)
  {
    hide DayMatches;
  }

  lemma WindowHoldsAt(s: Schedule, u: int, t: int) returns (f: int)
    requires Free(s) && Matches(s, u)
    ensures PrevStart(t) <= f <= t && Matches(s, f)
  {
    hide Free, DayMatches, PrevStart;
    assert DayMatches(s, u / DAY) by { MatchesDay(s, u); }
    var e := WindowHolds(s, u / DAY, t / DAY - SEARCH_DAYS + 1);
    hide Matches;
    FireOnDay(s, u, e);
    WindowBehind(t, e, u % DAY);
    f := e * DAY + u % DAY;
  }

  // ── the 400-year cycle decides the rest ──────────

  const CYCLE := 146097

  lemma Shift(x: int)
    ensures (x + 400) / 4 == x / 4 + 100 && (x + 400) / 100 == x / 100 + 4 && (x + 400) / 400 == x / 400 + 1
    ensures (x + 400) % 4 == x % 4 && (x + 400) % 100 == x % 100 && (x + 400) % 400 == x % 400
  {}

  lemma YearCycle(y: int)
    ensures YearStart(y + 400) == YearStart(y) + CYCLE
  {
    Shift(y + 3);
    Shift(y + 99);
    Shift(y + 399);
  }

  lemma LeapCycle(y: int)
    ensures Leap(y + 400) == Leap(y)
  {
    Shift(y);
  }

  /** The calendar, weekdays included, repeats every 400 years. */
  lemma Periodic(s: Schedule, d: int)
    ensures DayMatches(s, d + CYCLE) == DayMatches(s, d)
  {
    hide YearStart, Leap, MonthStart, CivilOf, YearOf;
    var c := CivilOf(d);
    YearCycle(c.year);
    LeapCycle(c.year);
    SameMonths(c.year, c.year + 400, c.month);
    CivilUnique(Civil(c.year + 400, c.month, c.day));
    assert Weekday(d + CYCLE) == Weekday(d);
  }

  lemma {:induction false} SameMonths(y: int, z: int, m: int)
    requires Leap(y) == Leap(z) && 1 <= m <= 12
    ensures MonthStart(y, m) == MonthStart(z, m) && MonthLen(y, m) == MonthLen(z, m)
    decreases m
  {
    if m > 1 { SameMonths(y, z, m - 1); }
  }

  lemma {:induction false} PeriodicMany(s: Schedule, d: int, k: int)
    ensures DayMatches(s, d + k * CYCLE) == DayMatches(s, d)
    decreases if k >= 0 then k else -k
  {
    hide DayMatches;
    if k > 0 {
      PeriodicMany(s, d, k - 1);
      Periodic(s, d + (k - 1) * CYCLE);
    } else if k < 0 {
      PeriodicMany(s, d, k + 1);
      Periodic(s, d + k * CYCLE);
    }
  }

  ghost predicate Covered(s: Schedule, d0: int) {
    exists d :: d0 <= d < d0 + SEARCH_DAYS && DayMatches(s, d)
  }

  lemma CoveredShifted(s: Schedule, d0: int)
    requires Covered(s, d0 % CYCLE)
    ensures Covered(s, d0)
  {
    hide DayMatches;
    var r, k := d0 % CYCLE, d0 / CYCLE;
    var d :| r <= d < r + SEARCH_DAYS && DayMatches(s, d);
    PeriodicMany(s, d, k);
    assert d0 <= d + k * CYCLE < d0 + SEARCH_DAYS;
  }

  /** For any schedule, free or not: every window of searchDays holds a matching day
      exactly when the windows that start inside one 400-year cycle do. */
  lemma WindowsDecidable(s: Schedule)
    ensures (forall d0 :: Covered(s, d0)) <==> forall d0 :: 0 <= d0 < CYCLE ==> Covered(s, d0)
  {
    hide Covered;
    if forall d0 :: 0 <= d0 < CYCLE ==> Covered(s, d0) {
      forall d0 ensures Covered(s, d0) { CoveredShifted(s, d0); }
    }
  }

  predicate HasTime(s: Schedule) {
    (exists h :: 0 <= h < 24 && h in s.hour) && exists m :: 0 <= m < 60 && m in s.minute
  }

  /** From midnight, Next answers exactly when its window holds a matching day. */
  lemma MidnightExact(s: Schedule, d0: int, n: Option<int>)
    requires HasTime(s) && IsNext(s, d0 * DAY - 1, n)
    ensures n.Some? <==> Covered(s, d0)
  {
    hide DayMatches;
    if n.Some? {
      assert d0 <= n.value / DAY < d0 + SEARCH_DAYS;
    }
    if Covered(s, d0) {
      var d :| d0 <= d < d0 + SEARCH_DAYS && DayMatches(s, d);
      var h :| 0 <= h < 24 && h in s.hour;
      var m :| 0 <= m < 60 && m in s.minute;
      Split(d, h, m);
      assert Matches(s, d * DAY + h * 60 + m);
    }
  }

  // Next, asked at the last minute before day d0, answers n.
  ghost predicate FromMidnight(s: Schedule, d0: int, n: Option<int>) { IsNext(s, d0 * DAY - 1, n) }

  /** MAIN: for any schedule with a time of day, Next from every midnight answers if
      and only if the windows of one 400-year cycle are all covered. */
  lemma NextAnswersIff(s: Schedule)
    requires HasTime(s)
    ensures (forall d0, n :: FromMidnight(s, d0, n) ==> n.Some?)
       <==> forall d0 :: 0 <= d0 < CYCLE ==> Covered(s, d0)
  {
    hide Covered, Matches;
    WindowsDecidable(s);
    forall d0, n | FromMidnight(s, d0, n) ensures n.Some? <==> Covered(s, d0) { MidnightExact(s, d0, n); }
    forall d0 | !Covered(s, d0) ensures FromMidnight(s, d0, None) { Uncovered(s, d0); }
  }

  lemma Uncovered(s: Schedule, d0: int)
    requires !Covered(s, d0)
    ensures IsNext(s, d0 * DAY - 1, None)
  {
    hide DayMatches;
    forall u | d0 * DAY - 1 < u < NextEnd(d0 * DAY - 1) ensures !Matches(s, u) {
      assert d0 <= u / DAY < d0 + SEARCH_DAYS;
    }
  }

  // ── refused although it fires ──────────

  // The day Parse starts looking on.
  const DAY2000 := 10957

  /** The first minute of 2000, after which Parse looks for a fire. */
  const Y2000 := DAY2000 * DAY

  /** Midnight is the only time of day. */
  predicate MidnightOnly(s: Schedule) {
    && (forall h :: 0 <= h < 24 && h in s.hour ==> h == 0)
    && forall m :: 0 <= m < 60 && m in s.minute ==> m == 0
  }

  predicate SomeDayOfCycle(s: Schedule) { exists d :: 0 <= d < CYCLE && DayMatches(s, d) }

  /** No matching day in the window from 2000; 1 January 2000 itself does not help
      a schedule that fires at midnight alone. */
  predicate SilentFrom2000(s: Schedule) {
    && (forall d :: DAY2000 < d < DAY2000 + SEARCH_DAYS ==> !DayMatches(s, d))
    && (DayMatches(s, DAY2000) ==> MidnightOnly(s))
  }

  /** A schedule fires exactly when a day of the 400-year cycle matches. */
  lemma FiresInCycle(s: Schedule)
    requires HasTime(s)
    ensures FiresEver(s) <==> SomeDayOfCycle(s)
  {
    hide DayMatches;
    if FiresEver(s) {
      var u :| Matches(s, u);
      var d := u / DAY;
      PeriodicMany(s, d % CYCLE, d / CYCLE);
    }
    if d :| 0 <= d < CYCLE && DayMatches(s, d) {
      var h, m := TimeOf(s, d);
    }
  }

  lemma TimeOf(s: Schedule, d: int) returns (h: int, m: int)
    requires HasTime(s) && DayMatches(s, d)
    ensures 0 <= h < 24 && h in s.hour && 0 <= m < 60 && m in s.minute && Matches(s, d * DAY + h * 60 + m)
    ensures !MidnightOnly(s) ==> h * 60 + m > 0
  {
    hide DayMatches;
    h :| 0 <= h < 24 && h in s.hour;
    m :| 0 <= m < 60 && m in s.minute;
    if !MidnightOnly(s) && h == 0 && m == 0 {
      if x :| 0 <= x < 24 && x in s.hour && x != 0 {
        h := x;
      } else {
        m :| 0 <= m < 60 && m in s.minute && m != 0;
      }
    }
    Split(d, h, m);
  }

  lemma SilentIs(s: Schedule)
    requires HasTime(s)
    ensures IsNext(s, Y2000, None) <==> SilentFrom2000(s)
  {
    hide DayMatches;
    if IsNext(s, Y2000, None) {
      forall d | DAY2000 < d < DAY2000 + SEARCH_DAYS ensures !DayMatches(s, d) {
        if DayMatches(s, d) { var h, m := TimeOf(s, d); }
      }
      if DayMatches(s, DAY2000) && !MidnightOnly(s) {
        var h, m := TimeOf(s, DAY2000);
      }
    }
    if SilentFrom2000(s) {
      forall u | Y2000 < u < NextEnd(Y2000) ensures !Matches(s, u) {
        Rebuild(u);
        assert u / DAY > DAY2000 || u % DAY > 0;
      }
    }
  }

  /** MAIN: for every schedule with a time of day, free or not, Parse finds no fire of one
      that does fire if and only if some day of the 400-year cycle matches and none of the
      window from 2000 does. */
  lemma RefusedThoughFires(s: Schedule)
    requires HasTime(s)
    ensures IsNext(s, Y2000, None) && FiresEver(s) <==> SilentFrom2000(s) && SomeDayOfCycle(s)
  {
    FiresInCycle(s);
    SilentIs(s);
  }

  /** 0 0 *\/30 2 1: dom {1, 31} and Monday, ANDed because dom starts with a star. */
  function StarMonday(): Schedule {
    Schedule({0}, {0}, {1, 31}, {2}, {1}, true, false, [0], [0])
  }

  /** It fires on 1 February 2010, and Next finds nothing from 2000 on: Parse
      refuses a schedule that does fire. */
  lemma StarMondayRefused()
    ensures FiresEver(StarMonday()) && IsNext(StarMonday(), Y2000, None)
  {
    hide DayMatches;
    StarMondayFires();
    Split(14641, 0, 0);
    assert Matches(StarMonday(), 14641 * DAY);
    forall u | Y2000 < u < NextEnd(Y2000) ensures !Matches(StarMonday(), u) {
      StarMondayDays(u / DAY);
    }
  }

  lemma StarMondayFires()
    ensures DayMatches(StarMonday(), 14641)
  {
    hide CivilOf;
    assert MonthStart(2010, 2) == 31;
    CivilUnique(Civil(2010, 2, 1));
    assert DayNumber(Civil(2010, 2, 1)) == 14641;
  }

  lemma StarMondayDays(d: int)
    requires DAY2000 <= d < DAY2000 + SEARCH_DAYS
    ensures !DayMatches(StarMonday(), d)
  {
    var c := CivilOf(d);
    var z := StarMonday();
    hide CivilOf, YearStart;
    if c.month == 2 && c.day == 1 {
      FebruaryFirst(d, c);
      NoMonday(c.year);
    } else {
      assert c.month != 2 || c.day == 31 || c.day !in z.dom;
      assert c.month == 2 ==> c.day <= 29;
    }
  }

  lemma FebruaryFirst(d: int, c: Civil)
    requires DAY2000 <= d < DAY2000 + SEARCH_DAYS && ValidDate(c) && DayNumber(c) == d && c.month == 2 && c.day == 1
    ensures 2000 <= c.year <= 2008 && d == YearStart(c.year) + 31
  {
    assert MonthStart(c.year, 2) == 31;
    assert YearStart(2000) == DAY2000 && YearStart(2009) == 14245;
    InYear(c);
    hide YearStart;
    if c.year < 2000 { YearStartMonotone(c.year + 1, 2000); }
    if c.year > 2008 { YearStartMonotone(2009, c.year); }
  }

  lemma NoMonday(y: int)
    requires 2000 <= y <= 2008
    ensures Weekday(YearStart(y) + 31) != 1
  {
    assert y == 2000 || y == 2001 || y == 2002 || y == 2003 || y == 2004
      || y == 2005 || y == 2006 || y == 2007 || y == 2008;
  }
}
