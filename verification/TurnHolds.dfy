/** Who holds which turn: the invariant of taking, holding and releasing. */
module TurnHolds {
  import opened JsonValue
  import opened TurnSystem

  predicate PageActive(p: Phase) { p.CheckPage? || p.ClearPage? || p.RecordPage? || p.HoldPage? }

  predicate PortalActive(p: Phase) { p.CheckPortals? || p.ClearPortal? || p.RecordPortals? || p.Sleeping? }

  /** The attempt is still at work under these turns. */
  predicate Active(s: State, h: Holder) {
    && h.attempt in s.attempts
    && var p := s.attempts[h.attempt].phase;
    if h.page then PageActive(p) else PortalActive(p)
  }

  function KeysOf(at: Attempt, page: bool): seq<Key> {
    if !page then at.portals else if at.page.Some? then [at.page.value] else []
  }

  predicate PhaseOk(at: Attempt, now: nat) {
    && WellFormed(at.page, at.portals, at.door)
    && (PageActive(at.phase) || at.phase.WaitPage? ==> at.page.Some?)
    && (PortalActive(at.phase) || at.phase.WaitPortals? ==> at.portals != [])
    && match at.phase
       case HoldPage(d) => d <= MAX_DELAY
       case CheckPortals(i) => i < |at.portals|
       case ClearPortal(i) => i < |at.portals|
       case RecordPortals(i, w) => i <= |at.portals| && w <= MAX_DELAY && (i == 0 ==> w == 0)
       case Sleeping(hold, since) => hold <= MAX_DELAY && since <= now
       case _ => true
  }

  /** A holder at work, or waiting for its release timer, holds all its keys. */
  ghost predicate Holding(s: State, h: Holder) {
    && h.attempt in s.attempts
    && forall k :: k in KeysOf(s.attempts[h.attempt], h.page) ==> k in s.held && s.held[k] == h
  }

  ghost predicate OwnerOk(s: State, k: Key)
    requires k in s.held
  {
    var h := s.held[k];
    && h.attempt in s.attempts
    && k in KeysOf(s.attempts[h.attempt], h.page)
    && (Active(s, h) || h in s.timers)
  }

  ghost predicate PhasesOk(s: State) { forall a :: a in s.attempts ==> PhaseOk(s.attempts[a], s.now) }

  ghost predicate OwnersOk(s: State) { forall k :: k in s.held ==> OwnerOk(s, k) }

  ghost predicate ActivesOk(s: State) { forall h :: Active(s, h) ==> Holding(s, h) && h !in s.timers }

  ghost predicate TimersOk(s: State) { forall h :: h in s.timers ==> Holding(s, h) && s.timers[h] <= s.now + MAX_DELAY }

  ghost predicate TurnsOk(s: State) { PhasesOk(s) && OwnersOk(s) && ActivesOk(s) && TimersOk(s) }

  // ── the four ways a step touches turns ──────────

  /** Of the attempts only a changes, and only its phase. */
  ghost predicate OnlyPhase(s: State, t: State, a: nat) {
    && t.now == s.now
    && a in s.attempts && t.attempts.Keys == s.attempts.Keys
    && (forall b :: b in s.attempts && b != a ==> t.attempts[b] == s.attempts[b])
    && t.attempts[a] == s.attempts[a].(phase := t.attempts[a].phase)
    && PhaseOk(t.attempts[a], t.now)
  }

  lemma PhasesStay(s: State, t: State, a: nat)
    requires PhasesOk(s) && OnlyPhase(s, t, a)
    ensures PhasesOk(t)
  {
    hide PhaseOk;
  }

  lemma OthersActive(s: State, t: State, a: nat)
    requires OnlyPhase(s, t, a)
    ensures forall g: Holder :: g.attempt != a ==> Active(t, g) == Active(s, g)
    ensures forall h: Holder :: h.attempt in s.attempts ==>
      KeysOf(t.attempts[h.attempt], h.page) == KeysOf(s.attempts[h.attempt], h.page)
  {
    hide PhaseOk;
  }

  lemma HoldingStays(s: State, t: State, a: nat, g: Holder)
    requires OnlyPhase(s, t, a) && Holding(s, g)
    requires forall k :: k in s.held && s.held[k] == g ==> k in t.held && t.held[k] == g
    ensures Holding(t, g)
  {
    hide PhaseOk;
  }

  /** Only a's phase changes, and a goes on holding what it held. */
  lemma RephaseKeeps(s: State, t: State, a: nat)
    requires TurnsOk(s) && OnlyPhase(s, t, a) && t.held == s.held && t.timers == s.timers
    requires PageActive(t.attempts[a].phase) == PageActive(s.attempts[a].phase)
    requires PortalActive(t.attempts[a].phase) == PortalActive(s.attempts[a].phase)
    ensures TurnsOk(t)
  {
    PhasesStay(s, t, a);
    OthersActive(s, t, a);
    hide PhaseOk, PhasesOk, OnlyPhase, PageActive, PortalActive;
    assert forall h :: Active(t, h) == Active(s, h);
    forall h | h in t.timers || Active(t, h) ensures Holding(t, h) {
      HoldingStays(s, t, a, h);
    }
    forall k | k in t.held ensures OwnerOk(t, k) {
      assert OwnerOk(s, k);
    }
  }

  /** h takes all its keys and becomes active. */
  ghost predicate Taking(s: State, t: State, h: Holder) {
    && OnlyPhase(s, t, h.attempt) && !Active(s, h) && Active(t, h)
    && Active(s, Holder(h.attempt, !h.page)) == Active(t, Holder(h.attempt, !h.page))
    && var keys := KeysOf(s.attempts[h.attempt], h.page);
    keys != [] && Free(s.held, keys) && t.held == Take(s.held, keys, h) && t.timers == s.timers
  }

  lemma TakeKeeps(s: State, t: State, h: Holder)
    requires TurnsOk(s) && Taking(s, t, h)
    ensures TurnsOk(t)
  {
    hide PhaseOk;
    PhasesStay(s, t, h.attempt);
    OthersActive(s, t, h.attempt);
    hide PhasesOk, OnlyPhase, Active;
    var keys := KeysOf(s.attempts[h.attempt], h.page);
    assert h !in s.timers by { assert keys[0] in keys; }
    forall g: Holder ensures Active(t, g) <==> g == h || Active(s, g) {
      assert g.attempt == h.attempt ==> g == h || g == Holder(h.attempt, !h.page);
    }
    forall g | g in t.timers || Active(t, g) ensures Holding(t, g) {
      if g != h { HoldingStays(s, t, h.attempt, g); }
    }
    forall k | k in t.held ensures OwnerOk(t, k) {
      if k !in keys { assert OwnerOk(s, k); }
    }
  }

  /** An active holder is done: it lets go now, or leaves a timer to do so. */
  ghost predicate Releasing(s: State, t: State, h: Holder, hold: nat, since: nat) {
    && OnlyPhase(s, t, h.attempt) && Active(s, h) && !Active(t, h)
    && Active(s, Holder(h.attempt, !h.page)) == Active(t, Holder(h.attempt, !h.page))
    && hold <= MAX_DELAY && since <= s.now
    && t.held == Release(s, h, hold, since).held && t.timers == Release(s, h, hold, since).timers
  }

  lemma ReleaseKeeps(s: State, t: State, h: Holder, hold: nat, since: nat)
    requires TurnsOk(s) && Releasing(s, t, h, hold, since)
    ensures TurnsOk(t)
  {
    hide PhaseOk;
    PhasesStay(s, t, h.attempt);
    OthersActive(s, t, h.attempt);
    hide PhasesOk, OnlyPhase, Active;
    assert Holding(s, h);
    forall g: Holder ensures Active(t, g) <==> g != h && Active(s, g) {
      assert g.attempt == h.attempt ==> g == h || g == Holder(h.attempt, !h.page);
    }
    if hold == 0 || since + hold <= s.now { GiveKeeps(s, t, h); } else { LaterKeeps(s, t, h); }
  }

  lemma GiveKeeps(s: State, t: State, h: Holder)
    requires TurnsOk(s) && PhasesOk(t) && Given(s, t, h)
    ensures TurnsOk(t)
  {
    GivenHolders(s, t, h);
    GivenOwners(s, t, h);
  }

  ghost predicate Given(s: State, t: State, h: Holder) {
    && OnlyPhase(s, t, h.attempt) && t.held == Give(s.held, h) && t.timers == s.timers
    && Active(s, h) && forall g: Holder :: Active(t, g) <==> g != h && Active(s, g)
  }

  lemma GivenHolders(s: State, t: State, h: Holder)
    requires ActivesOk(s) && TimersOk(s) && Given(s, t, h)
    ensures ActivesOk(t) && TimersOk(t)
  {
    OthersActive(s, t, h.attempt);
    SameNow(s, t, h.attempt);
    hide OnlyPhase, Active, Holding;
    forall g | g in t.timers || Active(t, g) ensures Holding(t, g) {
      HoldingStays(s, t, h.attempt, g);
    }
  }

  lemma GivenOwners(s: State, t: State, h: Holder)
    requires OwnersOk(s) && Given(s, t, h)
    ensures OwnersOk(t)
  {
    OthersActive(s, t, h.attempt);
    hide OnlyPhase, Active, PhaseOk;
    forall k | k in t.held ensures OwnerOk(t, k) {
      assert OwnerOk(s, k);
    }
  }

  ghost predicate Later(s: State, t: State, h: Holder) {
    && OnlyPhase(s, t, h.attempt) && t.held == s.held && Active(s, h)
    && h in t.timers && t.timers == s.timers[h := t.timers[h]] && t.timers[h] <= s.now + MAX_DELAY
    && forall g: Holder :: Active(t, g) <==> g != h && Active(s, g)
  }

  lemma LaterKeeps(s: State, t: State, h: Holder)
    requires TurnsOk(s) && PhasesOk(t) && Later(s, t, h)
    ensures TurnsOk(t)
  {
    LaterHolders(s, t, h);
    LaterOwners(s, t, h);
  }

  lemma LaterHolders(s: State, t: State, h: Holder)
    requires ActivesOk(s) && TimersOk(s) && Later(s, t, h)
    ensures ActivesOk(t) && TimersOk(t)
  {
    hide OnlyPhase, Active, Holding;
    forall g | Active(t, g) ensures Holding(t, g) && g !in t.timers {
      HoldingStays(s, t, h.attempt, g);
    }
    forall g | g in t.timers ensures Holding(t, g) && t.timers[g] <= t.now + MAX_DELAY {
      HoldingStays(s, t, h.attempt, g);
      SameNow(s, t, h.attempt);
    }
  }

  lemma SameNow(s: State, t: State, a: nat)
    requires OnlyPhase(s, t, a)
    ensures t.now == s.now
  {}

  lemma LaterOwners(s: State, t: State, h: Holder)
    requires OwnersOk(s) && Later(s, t, h)
    ensures OwnersOk(t)
  {
    OthersActive(s, t, h.attempt);
    hide Active, PhaseOk;
    forall k | k in t.held ensures OwnerOk(t, k) {
      assert OwnerOk(s, k);
    }
  }

  lemma FireKeeps(s: State, h: Holder)
    requires TurnsOk(s) && Enabled(s, Fire(h))
    ensures TurnsOk(Apply(s, Fire(h)))
  {
    hide WellFormed, PhaseOk;
    var t := Apply(s, Fire(h));
    assert t == s.(held := Give(s.held, h), timers := s.timers - {h});
    hide Apply, Enabled;
    assert forall g :: Active(t, g) == Active(s, g);
    hide Active;
    forall g | g in t.timers || Active(t, g) ensures Holding(t, g) {
      assert Holding(s, g) && Holding(s, h);
    }
    forall k | k in t.held ensures OwnerOk(t, k) {
      assert OwnerOk(s, k);
    }
  }

  lemma ArriveKeeps(s: State, act: Action)
    requires TurnsOk(s) && act.Arrive? && Enabled(s, act)
    ensures TurnsOk(Apply(s, act))
  {
    var t := Apply(s, act);
    assert forall g :: Active(t, g) == Active(s, g);
    forall g | g in t.timers || Active(t, g) ensures Holding(t, g) {
      assert Holding(s, g);
    }
    forall b | b in t.attempts ensures PhaseOk(t.attempts[b], t.now) {
      assert b != act.a ==> PhaseOk(s.attempts[b], s.now);
    }
    forall k | k in t.held ensures OwnerOk(t, k) {
      assert OwnerOk(s, k);
    }
  }

  lemma TickKeeps(s: State, ms: nat)
    requires TurnsOk(s)
    ensures TurnsOk(Apply(s, Tick(ms)))
  {
    hide WellFormed;
    var t := Apply(s, Tick(ms));
    assert forall g :: Active(t, g) == Active(s, g);
    forall g | g in t.timers || Active(t, g) ensures Holding(t, g) {
      assert Holding(s, g);
    }
    forall b | b in t.attempts ensures PhaseOk(t.attempts[b], t.now) {
      assert PhaseOk(s.attempts[b], s.now);
    }
    forall k | k in t.held ensures OwnerOk(t, k) {
      assert OwnerOk(s, k);
    }
  }

  /** Turns know nothing of the counters. */
  lemma LandKeeps(s: State, w: Write)
    requires TurnsOk(s) && Enabled(s, Land(w))
    ensures TurnsOk(Apply(s, Land(w)))
  {
    hide WellFormed;
    var t := Apply(s, Land(w));
    assert forall g :: Active(t, g) == Active(s, g);
    forall g | g in t.timers || Active(t, g) ensures Holding(t, g) {
      assert Holding(s, g);
    }
    forall b | b in t.attempts ensures PhaseOk(t.attempts[b], t.now) {
      assert PhaseOk(s.attempts[b], s.now);
    }
    forall k | k in t.held ensures OwnerOk(t, k) {
      assert OwnerOk(s, k);
    }
  }

  /** The curve never exceeds its ceiling, and a counted failure always costs. */
  lemma DelayCurve(n: int)
    ensures Delay(n) <= MAX_DELAY
    ensures n >= 1 ==> BASE_DELAY <= Delay(n) <= Delay(n + 1)
    ensures n >= 5 ==> Delay(n) == MAX_DELAY
    ensures 1 <= n < 5 ==> Delay(n + 1) == 2 * Delay(n)
  {
    if n == 1 {
    } else if n == 2 {
      assert Doubled(500, 1) == 1000;
      assert Doubled(500, 2) == 2000;
    } else if n == 3 {
      assert Doubled(2000, 1) == 4000 && Doubled(500, 2) == 2000;
    } else if n == 4 {
      assert Doubled(2000, 1) == 4000 && Doubled(2000, 2) == 8000;
    } else if n == 5 {
      assert Doubled(2000, 2) == 8000;
    }
  }

  lemma TurnsKept(s: State, act: Action)
    requires TurnsOk(s) && Enabled(s, act)
    ensures TurnsOk(Apply(s, act))
  {
    hide TurnsOk, Apply, Enabled;
    match act
    case Tick(ms) => TickKeeps(s, ms);
    case Arrive(_, _, _, _) => ArriveKeeps(s, act);
    case Fire(h) => FireKeeps(s, h);
    case Land(w) => LandKeeps(s, w);
    case TakePage(a) => TakesKept(s, act);
    case TakePortals(a) => TakesKept(s, act);
    case WriteFailPage(a) => ChargesKept(s, act);
    case WriteFailPortal(a) => ChargesKept(s, act);
    case GiveUp(_) => ChecksKept(s, act);
    case VerifyPage(_, _) => ChecksKept(s, act);
    case VerifyPortal(_, _) => ChecksKept(s, act);
    case WriteClearPage(_, _) => PageReleasesKept(s, act);
    case FailPageError(_, _) => PageReleasesKept(s, act);
    case ReleasePageLater(_) => PageReleasesKept(s, act);
    case WriteClearPortal(_, _) => PortalReleasesKept(s, act);
    case FailPortalError(_, _) => PortalReleasesKept(s, act);
    case _ => PortalHoldsKept(s, act);
  }

  lemma PhaseAt(s: State, a: nat)
    requires TurnsOk(s) && a in s.attempts
    ensures PhaseOk(s.attempts[a], s.now)
  {}

  lemma TakesKept(s: State, act: Action)
    requires TurnsOk(s) && Enabled(s, act) && (act.TakePage? || act.TakePortals?)
    ensures TurnsOk(Apply(s, act))
  {
    hide WellFormed, TurnsOk, Free, Take;
    PhaseAt(s, act.a);
    TakeKeeps(s, Apply(s, act), Holder(act.a, act.TakePage?));
  }

  lemma ChargesKept(s: State, act: Action)
    requires TurnsOk(s) && Enabled(s, act) && (act.WriteFailPage? || act.WriteFailPortal?)
    ensures TurnsOk(Apply(s, act))
  {
    hide WellFormed, TurnsOk, Charged, Delay;
    PhaseAt(s, act.a);
    var at := s.attempts[act.a];
    var k := if act.WriteFailPage? then at.page.value else at.portals[at.phase.next];
    DelayCurve(Charged(RowOf(s.rows, k), s.now).count);
    RephaseKeeps(s, Apply(s, act), act.a);
  }

  lemma ChecksKept(s: State, act: Action)
    requires TurnsOk(s) && Enabled(s, act) && (act.GiveUp? || act.VerifyPage? || act.VerifyPortal?)
    ensures TurnsOk(Apply(s, act))
  {
    hide WellFormed, TurnsOk;
    PhaseAt(s, act.a);
    RephaseKeeps(s, Apply(s, act), act.a);
  }

  lemma PageReleasesKept(s: State, act: Action)
    requires TurnsOk(s) && Enabled(s, act) && (act.WriteClearPage? || act.FailPageError? || act.ReleasePageLater?)
    ensures TurnsOk(Apply(s, act))
  {
    hide WellFormed, TurnsOk, Give, Settle, Effect, Cut;
    PhaseAt(s, act.a);
    var hold := if act.ReleasePageLater? then s.attempts[act.a].phase.delay else 0;
    ReleaseKeeps(s, Apply(s, act), Holder(act.a, true), hold, if act.ReleasePageLater? then s.now else 0);
  }

  lemma PortalReleasesKept(s: State, act: Action)
    requires TurnsOk(s) && Enabled(s, act) && (act.WriteClearPortal? || act.FailPortalError?)
    ensures TurnsOk(Apply(s, act))
  {
    hide WellFormed, TurnsOk, Give, Settle, Effect, Cut;
    PhaseAt(s, act.a);
    ReleaseKeeps(s, Apply(s, act), Holder(act.a, false), 0, 0);
  }

  lemma PortalHoldsKept(s: State, act: Action)
    requires TurnsOk(s) && Enabled(s, act) && (act.HoldPortals? || act.Wake?)
    ensures TurnsOk(Apply(s, act))
  {
    hide WellFormed, TurnsOk, Give, Settle, Effect, Cut;
    PhaseAt(s, act.a);
    var t, h, p := Apply(s, act), Holder(act.a, false), s.attempts[act.a].phase;
    if act.Wake? {
      ReleaseKeeps(s, t, h, p.hold, p.since);
    } else if s.attempts[act.a].door.PortalForm? {
      RephaseKeeps(s, t, act.a);
    } else {
      ReleaseKeeps(s, t, h, p.worst, s.now);
    }
  }
}
