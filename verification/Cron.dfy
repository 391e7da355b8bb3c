/** The schedule matcher: Matches, Prev, Next and MaxGap.  A time is its minute,
    counted from 1970 in UTC; the zero time is None. */
module Cron {
  import opened JsonValue
  import opened Calendar

  // Eight years with two leap days: how far a search looks, in days.
  const SEARCH_DAYS := 8 * 366 + 1
  const DAY := 1440
  const WEEK := 7 * 24 * 60

  datatype Schedule = Schedule(
    minute: set<int>, hour: set<int>, dom: set<int>, month: set<int>, dow: set<int>,
    domStar: bool, dowStar: bool,
    minutesAsc: seq<int>, minutesDescend: seq<int>)

  /** The minute lists hold the minute set, ascending and descending. */
  ghost predicate Ready(s: Schedule) {
    && (forall m :: m in s.minute ==> 0 <= m < 60)
    && (forall i, j :: 0 <= i < j < |s.minutesAsc| ==> s.minutesAsc[i] < s.minutesAsc[j])
    && (forall m :: m in s.minutesAsc <==> m in s.minute)
    && |s.minutesDescend| == |s.minutesAsc|
    && (forall i :: 0 <= i < |s.minutesAsc| ==> s.minutesDescend[i] == s.minutesAsc[|s.minutesAsc| - 1 - i])
  }

  predicate DayMatches(s: Schedule, d: int) {
    var c := CivilOf(d);
    if c.month !in s.month then false
    else
      var dom := c.day in s.dom;
      var dow := Weekday(d) in s.dow;
      if !s.domStar && !s.dowStar then dom || dow else dom && dow
  }

  predicate Matches(s: Schedule, t: int) {
    DayMatches(s, t / DAY) && t % DAY / 60 in s.hour && t % 60 in s.minute
  }

  // ── what the searches answer ──────────

  /** r is the first fire after t, if one lies in the days Next searches. */
  ghost predicate IsNext(s: Schedule, t: int, r: Option<int>) {
    match r
    case Some(n) =>
      t < n < NextEnd(t) && Matches(s, n) && forall u {:trigger Matches(s, u)} :: t < u < n ==> !Matches(s, u)
    case None => forall u {:trigger Matches(s, u)} :: t < u < NextEnd(t) ==> !Matches(s, u)
  }

  /** r is the last fire at or before t, if one lies in the days Prev searches. */
  ghost predicate IsPrev(s: Schedule, t: int, r: Option<int>) {
    match r
    case Some(p) =>
      PrevStart(t) <= p <= t && Matches(s, p) && forall u {:trigger Matches(s, u)} :: p < u <= t ==> !Matches(s, u)
    case None => forall u {:trigger Matches(s, u)} :: PrevStart(t) <= u <= t ==> !Matches(s, u)
  }

  function NextEnd(t: int): int { ((t + 1) / DAY + SEARCH_DAYS) * DAY }
  function PrevStart(t: int): int { (t / DAY - SEARCH_DAYS + 1) * DAY }

  lemma Split(d: int, h: int, m: int)
    requires 0 <= h < 24 && 0 <= m < 60
    ensures var t := d * DAY + h * 60 + m; t / DAY == d && t % DAY == h * 60 + m && t % DAY / 60 == h && t % 60 == m
  {
    var t := d * DAY + h * 60 + m;
    assert t == 60 * (24 * d + h) + m;
  }

  lemma Rebuild(t: int)
    ensures t == t / DAY * DAY + t % DAY / 60 * 60 + t % 60
    ensures 0 <= t % DAY / 60 < 24 && 0 <= t % 60 < 60 && 0 <= t % DAY < DAY
  {
    HourOf(t, t / DAY, t % DAY);
  }

  lemma HourOf(t: int, d: int, r: int)
    requires t == d * DAY + r && 0 <= r < DAY
    ensures r % 60 == t % 60 && 0 <= r / 60 < 24 && r == r / 60 * 60 + r % 60
  {
    assert t == 60 * (24 * d) + r;
  }

  /** The nested-loop forward search finds the first fire after t. */
  method Next(s: Schedule, t0: int) returns (r: Option<int>)
    requires Ready(s)
    ensures IsNext(s, t0, r)
  {
    hide DayMatches, Matches;
    var t := t0 + 1;
    var day := t / DAY;
    var floor := t % DAY;
    for i := 0 to SEARCH_DAYS
      invariant day == t / DAY + i
      invariant floor == if i == 0 then t % DAY else 0
      invariant Silent(s, t, day * DAY + floor)
    {
      if DayMatches(s, day) {
        var found := NextInDay(s, day, floor);
        if found.Some? { return found; }
      } else {
        DaySilent(s, day);
      }
      day := day + 1;
      floor := 0;
    }
    r := None;
  }

  /** The minute loop of Next: the first listed minute at or after floor. */
  method FirstMinute(s: Schedule, h: int, floor: int) returns (r: Option<int>)
    requires Ready(s)
    ensures r.Some? ==> r.value in s.minute && h * 60 + r.value >= floor
    ensures forall m :: m in s.minute && h * 60 + m >= floor ==> r.Some? && r.value <= m
  {
    for k := 0 to |s.minutesAsc|
      invariant forall j :: 0 <= j < k ==> h * 60 + s.minutesAsc[j] < floor
    {
      var m := s.minutesAsc[k];
      assert m in s.minutesAsc;
      if h * 60 + m >= floor { return Some(m); }
    }
    r := None;
  }

  /** The hour loop of Next, over one matching day. */
  method NextInDay(s: Schedule, day: int, floor: int) returns (r: Option<int>)
    requires Ready(s) && DayMatches(s, day) && 0 <= floor < DAY
    ensures r.Some? ==> day * DAY + floor <= r.value < (day + 1) * DAY && Matches(s, r.value)
    ensures Silent(s, day * DAY + floor, if r.Some? then r.value else (day + 1) * DAY)
  {
    hide DayMatches, Matches;
    for h := floor / 60 to 24
      invariant Silent(s, day * DAY + floor, day * DAY + h * 60)
    {
      HourFires(s, day, h);
      if h !in s.hour { continue; }
      var m := FirstMinute(s, h, floor);
      if m.Some? { return Some(day * DAY + h * 60 + m.value); }
    }
    r := None;
  }

  // No fire from a up to, not including, b.
  ghost predicate Silent(s: Schedule, a: int, b: int) {
    forall u {:trigger Matches(s, u)} :: a <= u < b ==> !Matches(s, u)
  }

  lemma DaySilent(s: Schedule, day: int)
    requires !DayMatches(s, day)
    ensures Silent(s, day * DAY, (day + 1) * DAY)
  {
    forall u | day * DAY <= u < (day + 1) * DAY ensures !Matches(s, u) { assert u / DAY == day; }
  }

  /** On a matching day the fires of an hour are its listed minutes. */
  lemma HourFires(s: Schedule, day: int, h: int)
    requires 0 <= h < 24 && DayMatches(s, day) && Ready(s)
    ensures forall u {:trigger Matches(s, u)} :: day * DAY + h * 60 <= u < day * DAY + (h + 1) * 60 ==>
      (Matches(s, u) <==> h in s.hour && u - day * DAY - h * 60 in s.minute)
  {
    forall u | day * DAY + h * 60 <= u < day * DAY + (h + 1) * 60
      ensures Matches(s, u) <==> h in s.hour && u - day * DAY - h * 60 in s.minute
    {
      Split(day, h, u - day * DAY - h * 60);
    }
  }

  /** The nested-loop backward search finds the last fire at or before t. */
  method Prev(s: Schedule, t: int) returns (r: Option<int>)
    requires Ready(s)
    ensures IsPrev(s, t, r)
  {
    hide DayMatches, Matches;
    var day := t / DAY;
    var limit := t % DAY;
    for i := 0 to SEARCH_DAYS
      invariant day == t / DAY - i
      invariant limit == if i == 0 then t % DAY else DAY - 1
      invariant Silent(s, day * DAY + limit + 1, t + 1)
    {
      if DayMatches(s, day) {
        var found := PrevInDay(s, day, limit);
        if found.Some? { return found; }
      } else {
        DaySilent(s, day);
      }
      day := day - 1;
      limit := 23 * 60 + 59;
    }
    r := None;
  }

  /** The minute loop of Prev: the last listed minute at or before limit. */
  method LastMinute(s: Schedule, h: int, limit: int) returns (r: Option<int>)
    requires Ready(s)
    ensures r.Some? ==> r.value in s.minute && h * 60 + r.value <= limit
    ensures forall m :: m in s.minute && h * 60 + m <= limit ==> r.Some? && m <= r.value
  {
    for k := 0 to |s.minutesDescend|
      invariant forall j :: 0 <= j < k ==> h * 60 + s.minutesDescend[j] > limit
    {
      var m := s.minutesDescend[k];
      assert m in s.minutesAsc;
      if h * 60 + m <= limit {
        forall x | x in s.minute && h * 60 + x <= limit ensures x <= m {
          var j := Position(s, x);
          assert j >= k;
        }
        return Some(m);
      }
    }
    forall x | x in s.minute ensures h * 60 + x > limit { var j := Position(s, x); }
    r := None;
  }

  lemma Position(s: Schedule, m: int) returns (j: nat)
    requires Ready(s) && m in s.minute
    ensures j < |s.minutesDescend| && s.minutesDescend[j] == m
  {
    var i :| 0 <= i < |s.minutesAsc| && s.minutesAsc[i] == m;
    j := |s.minutesAsc| - 1 - i;
  }

  /** The hour loop of Prev, over one matching day. */
  method PrevInDay(s: Schedule, day: int, limit: int) returns (r: Option<int>)
    requires Ready(s) && DayMatches(s, day) && 0 <= limit < DAY
    ensures r.Some? ==> day * DAY <= r.value <= day * DAY + limit && Matches(s, r.value)
    ensures Silent(s, if r.Some? then r.value + 1 else day * DAY, day * DAY + limit + 1)
  {
    hide DayMatches, Matches;
    var h := limit / 60;
    while h >= 0
      invariant -1 <= h <= limit / 60
      invariant Silent(s, day * DAY + (h + 1) * 60, day * DAY + limit + 1)
    {
      HourFires(s, day, h);
      if h in s.hour {
        var m := LastMinute(s, h, limit);
        if m.Some? { return Some(day * DAY + h * 60 + m.value); }
      }
      h := h - 1;
    }
    r := None;
  }

  // ── laws of the searches ──────────

  /** A search has one answer. */
  lemma SearchUnique(s: Schedule, t: int, a: Option<int>, b: Option<int>)
    ensures IsNext(s, t, a) && IsNext(s, t, b) ==> a == b
    ensures IsPrev(s, t, a) && IsPrev(s, t, b) ==> a == b
  {}

  /** The fire before a fire is itself, and nothing fires between Prev and Next. */
  lemma PrevNext(s: Schedule, t: int, p: Option<int>, n: Option<int>, q: Option<int>)
    requires IsPrev(s, t, p) && IsNext(s, t, n)
    ensures n.Some? && IsPrev(s, n.value, q) ==> q == n
    ensures p.Some? && n.Some? ==> p.value < n.value
    ensures p.Some? && n.Some? ==> forall u {:trigger Matches(s, u)} :: p.value < u < n.value ==> !Matches(s, u)
  {
    if n.Some? && IsPrev(s, n.value, q) {
      assert PrevStart(n.value) <= n.value;
      SearchUnique(s, n.value, q, n);
    }
  }

  // ── MaxGap ──────────

  /** a is the fire Prev finds before the fire b. */
  ghost predicate Gap(s: Schedule, a: int, b: int) {
    Matches(s, b) && IsPrev(s, b - 1, Some(a))
  }

  /** The fires whose preceding gap is measured: those of the week that ends at
      end, and the latest fire however old it is. */
  ghost predicate Counted(s: Schedule, end: int, b: int) {
    Matches(s, b) && b <= end && (end - WEEK < b || IsPrev(s, end, Some(b)))
  }

  /** The widest measured gap; 0 when there is none.  The source's bound of 10080
      turns never ends the loop. */
  method MaxGap(s: Schedule, end: int) returns (widest: int)
    requires Ready(s)
    ensures forall a, b :: Counted(s, end, b) && Gap(s, a, b) ==> b - a <= widest
    ensures widest == 0 || exists a, b :: Counted(s, end, b) && Gap(s, a, b) && b - a == widest
    ensures widest >= 0
  {
    hide Matches, IsPrev, Measured;
    var from := end - WEEK;
    var later := Prev(s, end);
    LatestFires(s, end, later);
    ghost var latest := later;
    widest := 0;
    var i := 0;
    while i <= 7 * 24 * 60 && later.Some?
      invariant 0 <= i && later.Some? == latest.Some?
      invariant later.Some? ==> later.value <= latest.value && Matches(s, later.value)
      invariant later.Some? && i > 0 ==> from < later.value <= end - i
      invariant i == 0 ==> later == latest
      invariant widest >= 0
      invariant later.Some? ==> Measured(s, end, later.value, widest)
      invariant widest == 0 || exists a, b :: Counted(s, end, b) && Gap(s, a, b) && b - a == widest
      decreases 7 * 24 * 60 + 1 - i
    {
      assert Counted(s, end, later.value);
      var earlier := Prev(s, later.value - 1);
      LatestFires(s, later.value - 1, earlier);
      if earlier.None? {
        NothingEarlier(s, end, latest.value, later.value, widest);
        return;
      }
      var gap := later.value - earlier.value;
      assert Gap(s, earlier.value, later.value);
      NextMeasured(s, end, earlier.value, later.value, widest);
      if gap > widest { widest := gap; }
      if earlier.value <= from {
        NothingInside(s, end, latest.value, earlier.value, later.value, widest);
        return;
      }
      later := earlier;
      i := i + 1;
    }
    NothingCounted(s, end);
  }

  lemma NothingCounted(s: Schedule, end: int)
    requires IsPrev(s, end, None)
    ensures forall b :: !Counted(s, end, b)
  {
    hide Matches;
    assert PrevStart(end) <= end - WEEK;
  }

  lemma LatestFires(s: Schedule, t: int, r: Option<int>)
    requires IsPrev(s, t, r)
    ensures r.Some? ==> r.value <= t && Matches(s, r.value)
    ensures r.Some? ==> Measured(s, t, r.value, 0)
  {
    forall a, c | r.Some? && Counted(s, t, c) && Gap(s, a, c) ensures c <= r.value {}
  }

  // Every gap that ends after b is at most widest.
  ghost predicate Measured(s: Schedule, end: int, b: int, widest: int) {
    forall a, c :: Counted(s, end, c) && Gap(s, a, c) && b < c ==> c - a <= widest
  }

  lemma NextMeasured(s: Schedule, end: int, earlier: int, later: int, widest: int)
    requires Measured(s, end, later, widest) && IsPrev(s, later - 1, Some(earlier))
    ensures Measured(s, end, earlier, if later - earlier > widest then later - earlier else widest)
  {
    forall a, c | Counted(s, end, c) && Gap(s, a, c) && earlier < c <= later
      ensures c == later && a == earlier
    {
      SearchUnique(s, c - 1, Some(a), Some(earlier));
    }
  }

  /** No counted fire lies before one that has no fire in the search window. */
  lemma NothingEarlier(s: Schedule, end: int, latest: int, later: int, widest: int)
    requires IsPrev(s, end, Some(latest)) && later <= latest && (end - WEEK < later || later == latest)
    requires IsPrev(s, later - 1, None) && Measured(s, end, later, widest)
    ensures forall a, b :: Counted(s, end, b) && Gap(s, a, b) ==> b - a <= widest
  {
    hide Matches;
    forall a, b | Counted(s, end, b) && Gap(s, a, b) ensures b > later {
      if IsPrev(s, end, Some(b)) { SearchUnique(s, end, Some(b), Some(latest)); }
      if b == later { SearchUnique(s, b - 1, Some(a), None); }
    }
  }

  /** Nor between a fire of the week and the first fire before the week. */
  lemma NothingInside(s: Schedule, end: int, latest: int, earlier: int, later: int, widest: int)
    requires IsPrev(s, end, Some(latest)) && later <= latest
    requires IsPrev(s, later - 1, Some(earlier)) && earlier <= end - WEEK && Measured(s, end, earlier, widest)
    ensures forall a, b :: Counted(s, end, b) && Gap(s, a, b) ==> b - a <= widest
  {
    forall a, b | Counted(s, end, b) && Gap(s, a, b) ensures b > earlier {
      if IsPrev(s, end, Some(b)) { SearchUnique(s, end, Some(b), Some(latest)); }
    }
  }
}
