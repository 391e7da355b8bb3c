/** How failures count up, what a right password does, and how long a hold may last. */
module TurnCounts {
  import opened JsonValue
  import opened TurnSystem
  import opened TurnHolds
  import opened TurnSafety

  // ── the counter ──────────

  /** Every recorded count is what the counter table gave at that point. */
  ghost predicate CountsOk(log: seq<Event>) {
    forall j {:trigger log[j]} :: 0 <= j < |log| && log[j].Failed? ==>
      log[j].count == Charged(Replay(log[..j], log[j].key), log[j].at).count
  }

  lemma CountsKept(s: State, act: Action)
    requires Enabled(s, act) && Counted(s) && CountsOk(s.log)
    ensures CountsOk(Apply(s, act).log)
  {
    LogIs(s, act);
    var t := Apply(s, act).log;
    hide Apply, Enabled, Charged, Replay;
    if EventOf(s, act).Some? {
      var e := EventOf(s, act).value;
      if e.Failed? { CountIs(s, act); }
      forall j | 0 <= j < |t| && t[j].Failed? ensures t[j].count == Charged(Replay(t[..j], t[j].key), t[j].at).count {
        if j == |s.log| {
          assert t[..j] == s.log && t[j] == e;
        } else {
          assert t[..j] == s.log[..j] && t[j] == s.log[j];
        }
      }
    }
  }

  lemma CountIs(s: State, act: Action)
    requires Enabled(s, act) && EventOf(s, act).Some? && EventOf(s, act).value.Failed?
    ensures var e := EventOf(s, act).value; e.count == Charged(RowOf(s.rows, e.key), e.at).count
  {
    hide Charged, WellFormed;
  }

  lemma {:induction false} CountsAlways(acts: seq<Action>)
    requires After(acts).Some?
    ensures CountsOk(After(acts).value.log)
    decreases |acts|
  {
    hide Apply, Enabled, CountsOk;
    if acts == [] {
      NoCounts();
    } else {
      CountsAlways(acts[..|acts| - 1]);
      InvAlways(acts[..|acts| - 1]);
      CountsKept(After(acts[..|acts| - 1]).value, acts[|acts| - 1]);
    }
  }

  lemma NoCounts()
    ensures CountsOk([])
  {}

  /** No counter event on k from i up to, not including, j. */
  predicate Quiet(log: seq<Event>, k: Key, i: nat, j: nat)
    requires j <= |log|
  {
    forall m :: i <= m < j ==> log[m].Verified? || log[m].key != k
  }

  lemma {:induction false} ReplayQuiet(log: seq<Event>, k: Key, i: nat, j: nat)
    requires i <= j <= |log| && Quiet(log, k, i, j)
    ensures Replay(log[..j], k) == Replay(log[..i], k)
    decreases j
  {
    hide Charged;
    if i < j {
      ReplayQuiet(log, k, i, j - 1);
      assert log[..j][..j - 1] == log[..j - 1] && log[..j][j - 1] == log[j - 1];
    }
  }

  lemma ReplayStep(log: seq<Event>, i: nat)
    requires i < |log| && !log[i].Verified?
    ensures Replay(log[..i + 1], log[i].key)
      == if log[i].Failed? then Some(Charged(Replay(log[..i], log[i].key), log[i].at)) else None
  {
    hide Charged;
    assert log[..i + 1][..i] == log[..i] && log[..i + 1][i] == log[i];
  }

  /** MAIN: over every run, a failure counts one more than the one before it on its
      credential, unless fifteen minutes lie between them: then it counts one. */
  lemma NextCount(acts: seq<Action>, i: nat, j: nat)
    requires After(acts).Some? && i < j < |After(acts).value.log|
    requires var log := After(acts).value.log;
      log[i].Failed? && log[j].Failed? && log[i].key == log[j].key && Quiet(log, log[j].key, i + 1, j)
    ensures var log := After(acts).value.log;
      log[j].count == if log[i].at + 900000 < log[j].at then 1 else log[i].count + 1
  {
    CountsAlways(acts);
    var log := After(acts).value.log;
    hide After;
    ReplayQuiet(log, log[j].key, i + 1, j);
    ReplayStep(log, i);
    hide Replay;
    assert log[i].count == Charged(Replay(log[..i], log[i].key), log[i].at).count;
  }

  /** A failure that is the first on its credential, or directly follows a clear, counts one. */
  lemma FirstCount(acts: seq<Action>, i: nat, j: nat)
    requires After(acts).Some? && i <= j < |After(acts).value.log| && After(acts).value.log[j].Failed?
    requires var log := After(acts).value.log;
      Quiet(log, log[j].key, i, j) && (i == 0 || (log[i - 1].Cleared? && log[i - 1].key == log[j].key))
    ensures After(acts).value.log[j].count == 1
  {
    CountsAlways(acts);
    var log := After(acts).value.log;
    hide After;
    ReplayQuiet(log, log[j].key, i, j);
    if i > 0 { ReplayStep(log, i - 1); } else { assert log[..0] == []; }
  }

  /** Failures at these places, the first one counting from one, with nothing between but
      checks and less than fifteen minutes from each to the next. */
  ghost predicate InARow(log: seq<Event>, k: Key, at: seq<nat>) {
    && at != [] && (forall n :: 0 <= n < |at| ==> at[n] < |log| && log[at[n]].Failed? && log[at[n]].key == k)
    && log[at[0]].count == 1
    && forall n :: 0 < n < |at| ==>
         && at[n - 1] < at[n] && Quiet(log, k, at[n - 1] + 1, at[n])
         && log[at[n]].at <= log[at[n - 1]].at + 900000
  }

  /** MAIN: so failures in a row count 1, 2, 3 and on, and are due half a second, one, two,
      four and from then on eight seconds later. */
  lemma {:induction false} BackoffEscalates(acts: seq<Action>, k: Key, at: seq<nat>, n: nat)
    requires After(acts).Some? && InARow(After(acts).value.log, k, at) && n < |at|
    ensures var e := After(acts).value.log[at[n]];
      && e.count == n + 1
      && Due(e) == e.at + (if n == 0 then 500 else if n == 1 then 1000 else if n == 2 then 2000
                           else if n == 3 then 4000 else 8000)
    decreases n
  {
    DelayTable(n + 1);
    if n > 0 {
      BackoffEscalates(acts, k, at, n - 1);
      NextCount(acts, at[n - 1], at[n]);
    }
  }

  lemma DelayTable(n: nat)
    requires n >= 1
    ensures Delay(n) == if n == 1 then 500 else if n == 2 then 1000 else if n == 3 then 2000
                        else if n == 4 then 4000 else 8000
  {
    DelayCurve(n);
    assert Doubled(500, 0) == 500;
    if n == 2 { assert Doubled(500, 1) == 1000; }
    if n == 3 { assert Doubled(1000, 1) == 2000; }
    if n == 4 { assert Doubled(1000, 1) == 2000 && Doubled(1000, 2) == 4000; }
  }

  // ── a right password ──────────

  /** After a right password the attempt's only step is to clear the counter; when that
      takes effect the counter is gone, the attempt is over and the turn is free at once. */
  lemma RightPasswordClears(s: State, a: nat, act: Action)
    requires TurnsOk(s) && Enabled(s, VerifyPage(a, true))
    ensures var t := Apply(s, VerifyPage(a, true));
            var k := s.attempts[a].page.value;
      && Enabled(t, WriteClearPage(a, Applied))
      && (Enabled(t, act) && !Outside(act) && act.a == a ==> act.WriteClearPage?)
      && var u := Apply(t, WriteClearPage(a, Applied));
         k !in u.rows && k !in u.held && u.attempts[a].phase == Done && u.timers == s.timers
  {
    PageClearStep(s, a);
    PageOnlyClears(s, a, act);
    hide Apply, Enabled, TurnsOk;
  }

  lemma PageOnlyClears(s: State, a: nat, act: Action)
    requires Enabled(s, VerifyPage(a, true))
    ensures var t := Apply(s, VerifyPage(a, true));
      Enabled(t, act) && !Outside(act) && act.a == a ==> act.WriteClearPage?
  {
    hide WellFormed, Free;
  }

  lemma PageClearStep(s: State, a: nat)
    requires TurnsOk(s) && Enabled(s, VerifyPage(a, true))
    ensures var t := Apply(s, VerifyPage(a, true));
            var k := s.attempts[a].page.value;
      && Enabled(t, WriteClearPage(a, Applied))
      && var u := Apply(t, WriteClearPage(a, Applied));
         k !in u.rows && k !in u.held && u.attempts[a].phase == Done && u.timers == s.timers
  {
    PhaseAt(s, a);
    hide PhasesOk, OwnersOk, TimersOk, WellFormed, Free;
    assert Active(s, Holder(a, true));
    assert Holding(s, Holder(a, true));
  }

  /** The same at a portal: the portals after it are not tried. */
  lemma RightPortalClears(s: State, a: nat, act: Action)
    requires TurnsOk(s) && Enabled(s, VerifyPortal(a, true))
    ensures var t := Apply(s, VerifyPortal(a, true));
            var at := s.attempts[a];
            var k := at.portals[at.phase.next];
      && Enabled(t, WriteClearPortal(a, Applied))
      && (Enabled(t, act) && !Outside(act) && act.a == a ==> act.WriteClearPortal?)
      && var u := Apply(t, WriteClearPortal(a, Applied));
         && k !in u.rows && u.attempts[a].phase == Done && u.timers == s.timers
         && (forall p :: p in at.portals ==> p !in u.held)
         && forall p :: p != k ==> RowOf(u.rows, p) == RowOf(s.rows, p)
  {
    PortalClearStep(s, a);
    PortalOnlyClears(s, a, act);
    hide Apply, Enabled, TurnsOk;
  }

  lemma PortalOnlyClears(s: State, a: nat, act: Action)
    requires Enabled(s, VerifyPortal(a, true))
    ensures var t := Apply(s, VerifyPortal(a, true));
      Enabled(t, act) && !Outside(act) && act.a == a ==> act.WriteClearPortal?
  {
    hide WellFormed, Free;
  }

  lemma PortalClearStep(s: State, a: nat)
    requires TurnsOk(s) && Enabled(s, VerifyPortal(a, true))
    ensures var t := Apply(s, VerifyPortal(a, true));
            var at := s.attempts[a];
            var k := at.portals[at.phase.next];
      && Enabled(t, WriteClearPortal(a, Applied))
      && var u := Apply(t, WriteClearPortal(a, Applied));
         && k !in u.rows && u.attempts[a].phase == Done && u.timers == s.timers
         && (forall p :: p in at.portals ==> p !in u.held)
         && forall p :: p != k ==> RowOf(u.rows, p) == RowOf(s.rows, p)
  {
    PhaseAt(s, a);
    hide PhasesOk, OwnersOk, TimersOk, WellFormed, Free;
    assert Active(s, Holder(a, false));
    assert Holding(s, Holder(a, false));
  }

  // ── no longer than that ──────────

  // A failure h recorded asks for this delay.
  ghost predicate Asked(log: seq<Event>, h: Holder, d: nat) {
    exists i :: 0 <= i < |log| && log[i].Failed? && log[i].By() == h && Delay(log[i].count) == d
  }

  ghost predicate HoldOk(s: State, a: nat)
    requires a in s.attempts
  {
    match s.attempts[a].phase
    case HoldPage(d) => Asked(s.log, Holder(a, true), d)
    case RecordPortals(_, worst) => worst == 0 || Asked(s.log, Holder(a, false), worst)
    case Sleeping(hold, _) => hold == 0 || Asked(s.log, Holder(a, false), hold)
    case _ => true
  }

  ghost predicate TimerOk(s: State, h: Holder)
    requires h in s.timers
  {
    exists d: nat :: Asked(s.log, h, d) && s.timers[h] <= s.now + d
  }

  ghost predicate HoldsOk(s: State) {
    (forall a :: a in s.attempts ==> HoldOk(s, a)) && forall h :: h in s.timers ==> TimerOk(s, h)
  }

  lemma AskedStays(log: seq<Event>, e: Option<Event>, h: Holder, d: nat)
    requires Asked(log, h, d)
    ensures Asked(Logged(log, e), h, d)
  {
    var i :| 0 <= i < |log| && log[i].Failed? && log[i].By() == h && Delay(log[i].count) == d;
    assert Logged(log, e)[i] == log[i];
  }

  lemma HoldsKept(s: State, act: Action)
    requires TurnsOk(s) && HoldsOk(s) && Enabled(s, act)
    ensures HoldsOk(Apply(s, act))
  {
    var t := Apply(s, act);
    LogIs(s, act);
    CutGrows(s, act);
    forall a | a in t.attempts ensures HoldOk(t, a) {
      SameIds(s, act, a);
      if Outside(act) || act.a != a { OtherHold(s, act, a); } else { OwnHold(s, act); }
    }
    forall h | h in t.timers ensures TimerOk(t, h) {
      if h in s.timers && (Outside(act) || t.timers[h] == s.timers[h]) {
        OldTimer(s, act, h);
      } else {
        NewTimer(s, act, h);
      }
    }
  }

  lemma OtherHold(s: State, act: Action, a: nat)
    requires Enabled(s, act) && a in s.attempts && HoldOk(s, a) && (Outside(act) || act.a != a)
    requires Apply(s, act).log == Logged(s.log, EventOf(s, act))
    ensures a in Apply(s, act).attempts && HoldOk(Apply(s, act), a)
  {
    SameAttempt(s, act, a);
    hide Apply, Enabled, EventOf, Logged, Asked;
    match s.attempts[a].phase
    case HoldPage(d) => AskedStays(s.log, EventOf(s, act), Holder(a, true), d);
    case RecordPortals(_, w) => if w > 0 { AskedStays(s.log, EventOf(s, act), Holder(a, false), w); }
    case Sleeping(w, _) => if w > 0 { AskedStays(s.log, EventOf(s, act), Holder(a, false), w); }
    case _ =>
  }

  lemma JustAsked(log: seq<Event>, e: Event)
    requires e.Failed?
    ensures Asked(log + [e], e.By(), Delay(e.count))
  {
    hide Delay;
    assert (log + [e])[|log|] == e;
  }

  lemma OwnHold(s: State, act: Action)
    requires TurnsOk(s) && Enabled(s, act) && !Outside(act) && (!act.Arrive? ==> HoldOk(s, act.a))
    requires Apply(s, act).log == Logged(s.log, EventOf(s, act))
    ensures act.a in Apply(s, act).attempts && HoldOk(Apply(s, act), act.a)
  {
    var e := EventOf(s, act);
    if act.WriteFailPage? || act.WriteFailPortal? {
      RecordHold(s, act);
    } else if act.HoldPortals? {
      if s.attempts[act.a].phase.worst > 0 {
        AskedStays(s.log, e, Holder(act.a, false), s.attempts[act.a].phase.worst);
      }
      hide Asked, TurnsOk, Charged, Delay;
    } else {
      PlainHold(s, act);
    }
  }

  lemma PlainHold(s: State, act: Action)
    requires Enabled(s, act) && !Outside(act) && !act.WriteFailPage? && !act.WriteFailPortal? && !act.HoldPortals?
    ensures act.a in Apply(s, act).attempts && HoldOk(Apply(s, act), act.a)
  {
    hide Asked, Charged, Delay, WellFormed, Free, Give, Take, Settle, Effect, Cut, Release;
  }

  lemma RecordHold(s: State, act: Action)
    requires TurnsOk(s) && Enabled(s, act) && (act.WriteFailPage? || act.WriteFailPortal?) && HoldOk(s, act.a)
    requires Apply(s, act).log == Logged(s.log, EventOf(s, act))
    ensures act.a in Apply(s, act).attempts && HoldOk(Apply(s, act), act.a)
  {
    var e := EventOf(s, act).value;
    EventOwned(s, act);
    JustAsked(s.log, e);
    PhaseAt(s, act.a);
    KeyKind(s, act);
    var p := s.attempts[act.a].phase;
    if p.RecordPortals? && p.worst > 0 { AskedStays(s.log, EventOf(s, act), Holder(act.a, false), p.worst); }
    hide Asked, TurnsOk, Charged, Delay, WellFormed, Free;
  }

  lemma KeyKind(s: State, act: Action)
    requires Enabled(s, act) && (act.WriteFailPage? || act.WriteFailPortal?) && PhaseOk(s.attempts[act.a], s.now)
    ensures EventOf(s, act).value.By() == Holder(act.a, act.WriteFailPage?)
  {
    hide Charged;
    var at := s.attempts[act.a];
    if act.WriteFailPortal? { assert at.portals[at.phase.next] in at.portals; }
  }

  lemma OldTimer(s: State, act: Action, h: Holder)
    requires Enabled(s, act) && h in s.timers && TimerOk(s, h) && h in Apply(s, act).timers
    requires Outside(act) || Apply(s, act).timers[h] == s.timers[h]
    requires Apply(s, act).log == Logged(s.log, EventOf(s, act)) && s.now <= Apply(s, act).now
    ensures TimerOk(Apply(s, act), h)
  {
    var d: nat :| Asked(s.log, h, d) && s.timers[h] <= s.now + d;
    AskedStays(s.log, EventOf(s, act), h, d);
    if Outside(act) { OutsideTimers(s, act, h); }
    hide Apply, Enabled, EventOf, Asked;
  }

  lemma OutsideTimers(s: State, act: Action, h: Holder)
    requires Enabled(s, act) && Outside(act) && h in Apply(s, act).timers
    ensures h in s.timers && Apply(s, act).timers[h] == s.timers[h]
  {
    hide Charged, Give;
  }

  lemma NewTimer(s: State, act: Action, h: Holder)
    requires TurnsOk(s) && HoldsOk(s) && Enabled(s, act) && h in Apply(s, act).timers
    requires h !in s.timers || (!Outside(act) && Apply(s, act).timers[h] != s.timers[h])
    requires Apply(s, act).log == Logged(s.log, EventOf(s, act))
    ensures TimerOk(Apply(s, act), h)
  {
    TimerFrom(s, act, h);
    PhaseAt(s, act.a);
    assert HoldOk(s, act.a);
    var d := Asks(s.attempts[act.a].phase);
    AskedStays(s.log, EventOf(s, act), h, d);
    hide Apply, Enabled, EventOf, Asked, TurnsOk;
    assert Asked(Apply(s, act).log, h, d);
  }

  // What a phase that may leave a timer asks to be held.
  function Asks(p: Phase): nat {
    match p
    case HoldPage(d) => d
    case RecordPortals(_, w) => w
    case Sleeping(w, _) => w
    case _ => 0
  }

  lemma TimerFrom(s: State, act: Action, h: Holder)
    requires TurnsOk(s) && Enabled(s, act) && h in Apply(s, act).timers
    requires h !in s.timers || (!Outside(act) && Apply(s, act).timers[h] != s.timers[h])
    ensures act.ReleasePageLater? || act.HoldPortals? || act.Wake?
    ensures h == Holder(act.a, act.ReleasePageLater?) && Apply(s, act).now == s.now
    ensures var d := Asks(s.attempts[act.a].phase); d > 0 && Apply(s, act).timers[h] <= s.now + d
  {
    hide Charged, Delay, WellFormed, Free, Give, Take, Settle, Effect, Cut, OwnersOk, ActivesOk, TimersOk;
    if act.Wake? { PhaseAt(s, act.a); }
  }

  lemma {:induction false} HoldsAlways(acts: seq<Action>)
    requires After(acts).Some?
    ensures HoldsOk(After(acts).value)
    decreases |acts|
  {
    hide HoldsOk, Apply, Enabled;
    if acts == [] {
      NothingHeld();
    } else {
      HoldsAlways(acts[..|acts| - 1]);
      InvAlways(acts[..|acts| - 1]);
      HoldsKept(After(acts[..|acts| - 1]).value, acts[|acts| - 1]);
    }
  }

  lemma NothingHeld()
    ensures HoldsOk(START)
  {}

  /** MAIN: no turn is kept longer than it has to be: whoever has a timer recorded a failure
      whose delay, from now, the timer does not outlast. */
  lemma HoldNoLonger(acts: seq<Action>, h: Holder)
    requires After(acts).Some? && h in After(acts).value.timers
    ensures var s := After(acts).value;
      exists i :: 0 <= i < |s.log| && s.log[i].Failed? && s.log[i].By() == h
        && s.timers[h] <= s.now + Delay(s.log[i].count)
  {
    HoldsAlways(acts);
    var s := After(acts).value;
    var d: nat :| Asked(s.log, h, d) && s.timers[h] <= s.now + d;
    var i :| 0 <= i < |s.log| && s.log[i].Failed? && s.log[i].By() == h && Delay(s.log[i].count) == d;
    assert s.timers[h] <= s.now + Delay(s.log[i].count);
  }
}
