/** What turns guarantee in every run: spacing, clears that erase nothing, no hold-and-wait. */
module TurnSafety {
  import opened JsonValue
  import opened TurnSystem
  import opened TurnHolds

  // ── events ──────────

  /** The event a step logs, if any. */
  function EventOf(s: State, act: Action): Option<Event>
    requires Enabled(s, act)
  {
    match act
    case VerifyPage(a, ok) => Some(Verified(s.attempts[a].page.value, a, s.now, ok))
    case WriteClearPage(a, o) => Written(s, Write(s.attempts[a].page.value, a, true), o)
    case WriteFailPage(a) => Some(EventFor(s, Write(s.attempts[a].page.value, a, false), false))
    case FailPageError(a, o) => Written(s, Write(s.attempts[a].page.value, a, false), o)
    case VerifyPortal(a, ok) => Some(Verified(s.attempts[a].portals[s.attempts[a].phase.next], a, s.now, ok))
    case WriteClearPortal(a, o) =>
      Written(s, Write(s.attempts[a].portals[s.attempts[a].phase.matched], a, true), o)
    case WriteFailPortal(a) =>
      Some(EventFor(s, Write(s.attempts[a].portals[s.attempts[a].phase.next], a, false), false))
    case FailPortalError(a, o) =>
      Written(s, Write(s.attempts[a].portals[s.attempts[a].phase.next], a, false), o)
    case Land(w) => Some(EventFor(s, w, true))
    case _ => None
  }

  function EventFor(s: State, w: Write, late: bool): Event {
    if w.clear then Cleared(w.key, w.who, s.now, late)
    else Failed(w.key, w.who, s.now, Charged(RowOf(s.rows, w.key), s.now).count, late)
  }

  function Written(s: State, w: Write, o: Outcome): Option<Event> {
    if o.Applied? then Some(EventFor(s, w, false)) else None
  }

  function Logged(log: seq<Event>, e: Option<Event>): seq<Event> { if e.Some? then log + [e.value] else log }

  function RowAfter(row: Option<Row>, k: Key, e: Option<Event>): Option<Row> {
    if e.None? || e.value.key != k || e.value.Verified? then row
    else if e.value.Failed? then Some(Charged(row, e.value.at))
    else None
  }

  lemma EffectLogs(s: State, w: Write, late: bool)
    ensures Effect(s, w, late).log == s.log + [EventFor(s, w, late)]
    ensures forall k :: RowOf(Effect(s, w, late).rows, k) == RowAfter(RowOf(s.rows, k), k, Some(EventFor(s, w, late)))
  {
    hide Charged;
  }

  lemma SettleLogs(s: State, w: Write, o: Outcome)
    ensures Settle(s, w, o).log == Logged(s.log, Written(s, w, o))
    ensures forall k :: RowOf(Settle(s, w, o).rows, k) == RowAfter(RowOf(s.rows, k), k, Written(s, w, o))
  {
    EffectLogs(s, w, false);
    hide Effect, EventFor, RowOf;
  }

  /** A step changes log and counters exactly as its event says. */
  lemma LogIs(s: State, act: Action)
    requires Enabled(s, act)
    ensures Apply(s, act).log == Logged(s.log, EventOf(s, act))
    ensures forall k :: RowOf(Apply(s, act).rows, k) == RowAfter(RowOf(s.rows, k), k, EventOf(s, act))
  {
    match act
    case WriteClearPage(_, _) => SettledLog(s, act);
    case WriteClearPortal(_, _) => SettledLog(s, act);
    case FailPageError(_, _) => SettledLog(s, act);
    case FailPortalError(_, _) => SettledLog(s, act);
    case Land(w) =>
      hide Effect, EventFor, RowOf;
      EffectLogs(s.(pending := s.pending - {w}), w, true);
      SameEvent(s, w);
    case WriteFailPage(_) => ChargedLog(s, act);
    case WriteFailPortal(_) => ChargedLog(s, act);
    case _ => hide Give, Take, WellFormed, Free;
  }

  lemma SameEvent(s: State, w: Write)
    ensures EventFor(s.(pending := s.pending - {w}), w, true) == EventFor(s, w, true)
  {}

  lemma ChargedLog(s: State, act: Action)
    requires Enabled(s, act) && (act.WriteFailPage? || act.WriteFailPortal?)
    ensures Apply(s, act).log == Logged(s.log, EventOf(s, act))
    ensures forall k :: RowOf(Apply(s, act).rows, k) == RowAfter(RowOf(s.rows, k), k, EventOf(s, act))
  {
    hide Charged, Delay, WellFormed;
  }

  lemma SettledLog(s: State, act: Action)
    requires Enabled(s, act)
    requires act.WriteClearPage? || act.WriteClearPortal? || act.FailPageError? || act.FailPortalError?
    ensures Apply(s, act).log == Logged(s.log, EventOf(s, act))
    ensures forall k :: RowOf(Apply(s, act).rows, k) == RowAfter(RowOf(s.rows, k), k, EventOf(s, act))
  {
    hide Give, WellFormed, Settle, Effect, EventFor, RowOf, Cut, Written, Release;
    var at := s.attempts[act.a];
    if act.WriteClearPage? || act.FailPageError? {
      SettleLogs(s, Write(at.page.value, act.a, act.WriteClearPage?), act.o);
    } else {
      var i := if act.WriteClearPortal? then at.phase.matched else at.phase.next;
      SettleLogs(s, Write(at.portals[i], act.a, act.WriteClearPortal?), act.o);
    }
  }

  lemma LastOnLogged(log: seq<Event>, e: Event, k: Key)
    ensures LastOn(log + [e], k) == if e.key == k && !e.Late() then Some(e) else LastOn(log, k)
  {
    assert (log + [e])[..|log|] == log;
  }

  lemma ReplayLogged(log: seq<Event>, e: Option<Event>, k: Key)
    ensures Replay(Logged(log, e), k) == RowAfter(Replay(log, k), k, e)
  {
    if e.Some? { assert (log + [e.value])[..|log|] == log; }
  }

  /** Whoever logs an event in time holds that credential's turn. */
  lemma EventOwned(s: State, act: Action)
    requires TurnsOk(s) && Enabled(s, act) && EventOf(s, act).Some? && !act.Land?
    ensures var e := EventOf(s, act).value;
      && !e.Late() && e.who == act.a && e.key in s.held && s.held[e.key] == e.By()
      && Active(s, s.held[e.key]) && s.held[e.key] !in s.timers
  {
    hide Charged, Free, OwnersOk, TimersOk, Settle, Effect, Cut, Release;
    var e := EventOf(s, act).value;
    var at := s.attempts[act.a];
    assert PhaseOk(at, s.now);
    var h := Holder(act.a, e.key.Page?);
    if at.phase.CheckPortals? || at.phase.RecordPortals? { assert at.portals[at.phase.next] in at.portals; }
    if at.phase.ClearPortal? { assert at.portals[at.phase.matched] in at.portals; }
    assert e.key in KeysOf(at, h.page);
    assert Active(s, h);
    assert Holding(s, h);
  }

  // ── between a check and its write ──────────

  /** The latest event on each credential an attempt is in the middle of is its own. */
  ghost predicate Own(s: State, a: nat)
    requires a in s.attempts
  {
    var at := s.attempts[a];
    match at.phase
    case ClearPage => at.page.Some? ==> VerifiedBy(LastOn(s.log, at.page.value), at.page.value, a, true)
    case RecordPage => at.page.Some? ==> VerifiedBy(LastOn(s.log, at.page.value), at.page.value, a, false)
    case CheckPortals(i) => forall j :: 0 <= j < i && j < |at.portals| ==>
      VerifiedBy(LastOn(s.log, at.portals[j]), at.portals[j], a, false)
    case ClearPortal(i) => i < |at.portals| ==> VerifiedBy(LastOn(s.log, at.portals[i]), at.portals[i], a, true)
    case RecordPortals(i, _) => forall j :: i <= j < |at.portals| ==>
      VerifiedBy(LastOn(s.log, at.portals[j]), at.portals[j], a, false)
    case _ => true
  }

  /** Another attempt's step touches none of these credentials. */
  lemma OwnOthers(s: State, act: Action, b: nat)
    requires TurnsOk(s) && Enabled(s, act) && b in s.attempts && Own(s, b)
    requires Outside(act) || act.a != b
    ensures b in Apply(s, act).attempts && Own(Apply(s, act), b)
  {
    var t := Apply(s, act);
    SameAttempt(s, act, b);
    LogIs(s, act);
    hide Apply, Enabled, WellFormed, TurnsOk, LastOn, EventOf, Own, Active;
    if EventOf(s, act).Some? {
      var e := EventOf(s, act).value;
      LogsLast(s, t, e);
      if act.Land? {
        OwnSame(s, t, b);
      } else {
        EventOwned(s, act);
        HeldByOther(s, b, e.key);
        OwnStays(s, t, b, e.key);
      }
    } else {
      OwnSame(s, t, b);
    }
  }

  lemma LogsLast(s: State, t: State, e: Event)
    requires t.log == s.log + [e]
    ensures forall k :: LastOn(t.log, k) == if e.key == k && !e.Late() then Some(e) else LastOn(s.log, k)
  {
    hide LastOn;
    forall k ensures LastOn(t.log, k) == if e.key == k && !e.Late() then Some(e) else LastOn(s.log, k) {
      LastOnLogged(s.log, e, k);
    }
  }

  lemma OwnSame(s: State, t: State, b: nat)
    requires b in s.attempts && Own(s, b) && b in t.attempts && t.attempts[b] == s.attempts[b]
    requires forall k :: LastOn(t.log, k) == LastOn(s.log, k)
    ensures Own(t, b)
  {
    hide LastOn;
  }

  /** A credential another attempt holds is not one b is in the middle of. */
  lemma HeldByOther(s: State, b: nat, k: Key)
    requires TurnsOk(s) && b in s.attempts && k in s.held && s.held[k].attempt != b
    ensures var at := s.attempts[b];
      && (PageActive(at.phase) ==> at.page != Some(k))
      && (PortalActive(at.phase) ==> forall j :: 0 <= j < |at.portals| ==> at.portals[j] != k)
  {
    hide WellFormed, OwnersOk, TimersOk, PhasesOk;
    assert Active(s, Holder(b, true)) ==> Holding(s, Holder(b, true));
    assert Active(s, Holder(b, false)) ==> Holding(s, Holder(b, false));
    var at := s.attempts[b];
    assert forall j :: 0 <= j < |at.portals| ==> at.portals[j] in at.portals;
  }

  lemma OwnStays(s: State, t: State, b: nat, k: Key)
    requires b in s.attempts && Own(s, b) && b in t.attempts && t.attempts[b] == s.attempts[b]
    requires forall x :: x != k ==> LastOn(t.log, x) == LastOn(s.log, x)
    requires var at := s.attempts[b];
      && (PageActive(at.phase) ==> at.page != Some(k))
      && (PortalActive(at.phase) ==> forall j :: 0 <= j < |at.portals| ==> at.portals[j] != k)
    ensures Own(t, b)
  {
    hide LastOn;
  }

  lemma SameAttempt(s: State, act: Action, b: nat)
    requires Enabled(s, act) && b in s.attempts && (Outside(act) || act.a != b)
    ensures b in Apply(s, act).attempts && Apply(s, act).attempts[b] == s.attempts[b]
  {
    hide WellFormed, Free, Charged, Delay, Give, Take, Settle, Effect, Cut, Release;
  }

  lemma OwnSelf(s: State, act: Action)
    requires TurnsOk(s) && Enabled(s, act) && !Outside(act) && (!act.Arrive? ==> Own(s, act.a))
    ensures Own(Apply(s, act), act.a)
  {
    if act.VerifyPortal? || act.WriteFailPortal? {
      OwnPortals(s, act);
    } else if act.VerifyPage? {
      OwnPage(s, act);
    } else {
      PlainPhase(s, act);
      hide Apply, TurnsOk, Enabled, LastOn;
    }
  }

  /** The other steps lead to no phase that depends on an earlier check. */
  lemma PlainPhase(s: State, act: Action)
    requires Enabled(s, act) && !Outside(act) && !act.VerifyPage? && !act.VerifyPortal? && !act.WriteFailPortal?
    ensures act.a in Apply(s, act).attempts
    ensures var p := Apply(s, act).attempts[act.a].phase;
      !p.ClearPage? && !p.RecordPage? && !p.ClearPortal? && !p.RecordPortals? && (p.CheckPortals? ==> p.next == 0)
  {
    hide WellFormed, Free, Charged, Delay, Give, Take, Settle, Effect, Cut, Release;
  }

  lemma OwnPage(s: State, act: Action)
    requires TurnsOk(s) && Enabled(s, act) && act.VerifyPage? && Own(s, act.a)
    ensures Own(Apply(s, act), act.a)
  {
    hide TurnsOk, LastOn;
    LogsLast(s, Apply(s, act), EventOf(s, act).value);
  }

  lemma OwnPortals(s: State, act: Action)
    requires TurnsOk(s) && Enabled(s, act) && (act.VerifyPortal? || act.WriteFailPortal?) && Own(s, act.a)
    ensures Own(Apply(s, act), act.a)
  {
    hide OwnersOk, TimersOk, ActivesOk, Charged, Delay, LastOn;
    PhaseAt(s, act.a);
    LogIs(s, act);
    LogsLast(s, Apply(s, act), EventOf(s, act).value);
  }

  /** Every recording and every clear made in time comes right after its own verification:
      but for late writes, no other attempt's event on that credential stands between them. */
  ghost predicate Bracketed(log: seq<Event>) {
    forall i {:trigger log[i]} :: 0 <= i < |log| && !log[i].Verified? && !log[i].Late() ==>
      VerifiedBy(LastOn(log[..i], log[i].key), log[i].key, log[i].who, log[i].Cleared?)
  }

  lemma BracketKept(s: State, act: Action)
    requires TurnsOk(s) && Enabled(s, act) && Bracketed(s.log)
    requires EventOf(s, act).Some? && !act.Land? ==> Own(s, act.a)
    ensures Bracketed(Apply(s, act).log)
  {
    LogIs(s, act);
    hide Apply, Bracketed, LastOn;
    if EventOf(s, act).Some? {
      OwnBefore(s, act);
      BracketMore(s.log, EventOf(s, act).value);
    }
  }

  lemma OwnBefore(s: State, act: Action)
    requires TurnsOk(s) && Enabled(s, act) && EventOf(s, act).Some? && (act.Land? || Own(s, act.a))
    ensures var e := EventOf(s, act).value;
      e.Verified? || e.Late() || VerifiedBy(LastOn(s.log, e.key), e.key, e.who, e.Cleared?)
  {
    hide TurnsOk, LastOn, Charged, Free;
  }

  lemma BracketMore(log: seq<Event>, e: Event)
    requires Bracketed(log) && (e.Verified? || e.Late() || VerifiedBy(LastOn(log, e.key), e.key, e.who, e.Cleared?))
    ensures Bracketed(log + [e])
  {
    hide LastOn;
    var t := log + [e];
    forall i | 0 <= i < |t| && !t[i].Verified? && !t[i].Late()
      ensures VerifiedBy(LastOn(t[..i], t[i].key), t[i].key, t[i].who, t[i].Cleared?)
    {
      if i == |log| {
        assert t[..i] == log && t[i] == e;
      } else {
        assert t[..i] == log[..i] && t[i] == log[i];
      }
    }
  }

  // ── delays ──────────

  /** When the delay of a recorded failure has passed. */
  function Due(e: Event): nat
    requires e.Failed?
  {
    e.at + Delay(e.count)
  }

  /** How far the hold an attempt has yet to give back reaches. */
  predicate Covers(p: Phase, now: nat, due: nat) {
    match p
    case HoldPage(d) => due <= now + d
    case RecordPortals(_, worst) => due <= now + worst
    case Sleeping(hold, since) => due <= since + hold
    case _ => false
  }

  /** The failing attempt still keeps the credential's turn until the delay has passed. */
  predicate Guarded(s: State, e: Event)
    requires e.Failed?
  {
    var h := e.By();
    && e.key in s.held && s.held[e.key] == h
    && if h in s.timers then Due(e) <= s.timers[h]
       else Active(s, h) && Covers(s.attempts[h.attempt].phase, s.now, Due(e))
  }

  predicate GuardOk(s: State, e: Event)
    requires e.Failed?
  {
    e.at <= s.now && (Due(e) <= s.now || Guarded(s, e))
  }

  lemma GuardStays(s: State, act: Action, e: Event)
    requires TurnsOk(s) && Enabled(s, act) && e.Failed? && GuardOk(s, e) && e.By() !in Apply(s, act).cut
    ensures GuardOk(Apply(s, act), e)
  {
    if Due(e) > s.now {
      HolderFacts(s, e);
      hide *;
      if Outside(act) || act.Arrive? {
        GuardTime(s, act, e);
      } else if act.TakePage? || act.TakePortals? {
        GuardTake(s, act, e);
      } else if act.a == e.who {
        GuardSelf(s, act, e);
      } else {
        GuardOther(s, act, e);
      }
    } else {
      GuardPassed(s, act, e);
    }
  }

  lemma GuardPassed(s: State, act: Action, e: Event)
    requires Enabled(s, act) && e.Failed? && GuardOk(s, e) && Due(e) <= s.now
    ensures GuardOk(Apply(s, act), e)
  {
    CutGrows(s, act);
    hide Apply, Enabled, Delay;
  }

  lemma HolderFacts(s: State, e: Event)
    requires TurnsOk(s) && e.Failed? && GuardOk(s, e) && Due(e) > s.now
    ensures e.who in s.attempts
    ensures var h := e.By(); Active(s, h) ==> h !in s.timers && PhaseOk(s.attempts[h.attempt], s.now)
  {
    hide PhaseOk, Delay;
    assert OwnerOk(s, e.key);
  }

  lemma GuardTime(s: State, act: Action, e: Event)
    requires Enabled(s, act) && e.Failed? && GuardOk(s, e) && Due(e) > s.now && (Outside(act) || act.Arrive?)
    ensures GuardOk(Apply(s, act), e)
  {
    hide Delay, WellFormed;
  }

  lemma GuardTake(s: State, act: Action, e: Event)
    requires Enabled(s, act) && e.Failed? && GuardOk(s, e) && Due(e) > s.now && (act.TakePage? || act.TakePortals?)
    ensures GuardOk(Apply(s, act), e)
  {
    hide Delay, WellFormed;
    if act.TakePage? { assert s.attempts[act.a].page.value in [s.attempts[act.a].page.value]; }
  }

  lemma GuardOther(s: State, act: Action, e: Event)
    requires Enabled(s, act) && e.Failed? && GuardOk(s, e) && Due(e) > s.now
    requires !Outside(act) && !act.Arrive? && !act.TakePage? && !act.TakePortals? && act.a != e.who &&
      e.who in s.attempts
    ensures GuardOk(Apply(s, act), e)
  {
    OthersTurn(s, act, e.By());
    SameAttempt(s, act, e.who);
    hide Apply, Enabled, Delay;
  }

  /** Another attempt's step leaves a holder its turns and its timer. */
  lemma OthersTurn(s: State, act: Action, h: Holder)
    requires Enabled(s, act) && !Outside(act) && !act.Arrive? && !act.TakePage? && !act.TakePortals? &&
      act.a != h.attempt
    ensures Apply(s, act).now == s.now && SameTurns(s, Apply(s, act), h)
  {
    if PageRelease(act) {
      OthersPage(s, act, h);
    } else if PortalRelease(act) {
      OthersPortals(s, act, h);
    } else {
      hide Delay, WellFormed, Charged, Free, Settle, Effect, Cut, Release;
    }
  }

  lemma OthersPage(s: State, act: Action, h: Holder)
    requires PageRelease(act)
    requires Enabled(s, act) && act.a != h.attempt
    ensures Apply(s, act).now == s.now && SameTurns(s, Apply(s, act), h)
  {
    ReleaseOthers(s, h);
    hide Delay, WellFormed, Charged, Free, Settle, Effect, Cut, Release;
  }

  lemma OthersPortals(s: State, act: Action, h: Holder)
    requires PortalRelease(act)
    requires Enabled(s, act) && act.a != h.attempt
    ensures Apply(s, act).now == s.now && SameTurns(s, Apply(s, act), h)
  {
    ReleaseOthers(s, h);
    hide Delay, WellFormed, Charged, Free, Settle, Effect, Cut, Release;
  }

  predicate SameTurns(s: State, t: State, h: Holder) {
    && (forall k :: k in s.held && s.held[k] == h ==> k in t.held && t.held[k] == h)
    && (h in t.timers <==> h in s.timers) && (h in t.timers ==> t.timers[h] == s.timers[h])
  }

  lemma ReleaseOthers(s: State, h: Holder)
    ensures forall x: State, g: Holder, hold: nat, since: nat {:trigger Release(x, g, hold, since)} ::
      x.held == s.held && x.timers == s.timers && g != h ==> SameTurns(s, Release(x, g, hold, since), h)
  {}

  predicate PageRelease(act: Action) { act.WriteClearPage? || act.FailPageError? || act.ReleasePageLater? }

  predicate PortalRelease(act: Action) {
    act.WriteClearPortal? || act.FailPortalError? || act.HoldPortals? || act.Wake?
  }

  lemma GuardSelf(s: State, act: Action, e: Event)
    requires Enabled(s, act) && e.Failed? && GuardOk(s, e) && Due(e) > s.now && e.By() !in Apply(s, act).cut
    requires !Outside(act) && !act.Arrive? && !act.TakePage? && !act.TakePortals? && act.a == e.who
    requires var h := e.By(); Active(s, h) ==> h !in s.timers && PhaseOk(s.attempts[h.attempt], s.now)
    ensures GuardOk(Apply(s, act), e)
  {
    if PageRelease(act) {
      GuardPage(s, act, e);
    } else if PortalRelease(act) {
      GuardPortals(s, act, e);
    } else {
      hide Delay, WellFormed, Charged, Free, Settle, Effect, Cut, Release;
    }
  }

  lemma GuardPage(s: State, act: Action, e: Event)
    requires PageRelease(act) && Enabled(s, act) && e.Failed? && GuardOk(s, e) && Due(e) > s.now
    requires act.a == e.who && e.By() !in Apply(s, act).cut
    requires var h := e.By(); Active(s, h) ==> h !in s.timers && PhaseOk(s.attempts[h.attempt], s.now)
    ensures GuardOk(Apply(s, act), e)
  {
    hide Delay, WellFormed, Charged, Free, Settle, Effect, Cut;
  }

  lemma GuardPortals(s: State, act: Action, e: Event)
    requires PortalRelease(act) && Enabled(s, act) && e.Failed? && GuardOk(s, e) && Due(e) > s.now
    requires act.a == e.who && e.By() !in Apply(s, act).cut
    requires var h := e.By(); Active(s, h) ==> h !in s.timers && PhaseOk(s.attempts[h.attempt], s.now)
    ensures GuardOk(Apply(s, act), e)
  {
    if act.HoldPortals? {
      GuardHold(s, act, e);
    } else if act.Wake? {
      GuardWake(s, act, e);
    } else {
      hide Delay, WellFormed, Charged, Free, Settle, Effect, Cut;
    }
  }

  lemma GuardHold(s: State, act: Action, e: Event)
    requires act.HoldPortals? && Enabled(s, act) && e.Failed? && GuardOk(s, e) && Due(e) > s.now && act.a == e.who
    requires var h := e.By(); Active(s, h) ==> h !in s.timers && PhaseOk(s.attempts[h.attempt], s.now)
    ensures GuardOk(Apply(s, act), e)
  {
    hide Delay, WellFormed, Charged, Free;
  }

  lemma GuardWake(s: State, act: Action, e: Event)
    requires act.Wake? && Enabled(s, act) && e.Failed? && GuardOk(s, e) && Due(e) > s.now && act.a == e.who
    requires var h := e.By(); Active(s, h) ==> h !in s.timers && PhaseOk(s.attempts[h.attempt], s.now)
    ensures GuardOk(Apply(s, act), e)
  {
    hide Delay, WellFormed, Charged, Free;
  }

  ghost predicate Guards(s: State) {
    forall i {:trigger s.log[i]} :: 0 <= i < |s.log| && Kept(s.log[i], s.cut) ==> GuardOk(s, s.log[i])
  }

  /** A failure recorded in time under a taking that no error cut short. */
  predicate Kept(e: Event, cut: set<Holder>) { e.Failed? && !e.late && e.By() !in cut }

  predicate Apart(e: Event, v: Event, cut: set<Holder>) {
    Kept(e, cut) && v.Verified? && v.key == e.key ==> Due(e) <= v.at
  }

  /** A failure kept keeps the next verification away until its delay has passed. */
  ghost predicate Spaced(log: seq<Event>, cut: set<Holder>) {
    forall i, j {:trigger log[i], log[j]} :: 0 <= i < j < |log| ==> Apart(log[i], log[j], cut)
  }

  // ── every run ──────────

  ghost predicate Counted(s: State) { forall k :: RowOf(s.rows, k) == Replay(s.log, k) }

  ghost predicate OwnAll(s: State) { forall a :: a in s.attempts ==> Own(s, a) }

  ghost predicate Inv(s: State) {
    TurnsOk(s) && OwnAll(s) && Bracketed(s.log) && Guards(s) && Spaced(s.log, s.cut) && Counted(s)
  }

  lemma OwnAllKept(s: State, act: Action)
    requires TurnsOk(s) && OwnAll(s) && Enabled(s, act)
    ensures OwnAll(Apply(s, act))
  {
    var t := Apply(s, act);
    forall b | b in t.attempts ensures Own(t, b) {
      if Outside(act) || act.a != b {
        SameIds(s, act, b);
        OwnOthers(s, act, b);
      } else {
        SameIds(s, act, b);
        OwnSelf(s, act);
      }
    }
  }

  lemma SameIds(s: State, act: Action, b: nat)
    requires Enabled(s, act) && b in Apply(s, act).attempts
    ensures b in s.attempts || (act.Arrive? && act.a == b)
  {
    hide WellFormed, Free, Charged, Delay, Give, Take, Settle, Effect, Cut, Release;
  }

  lemma CountedKept(s: State, act: Action)
    requires Counted(s) && Enabled(s, act)
    ensures Counted(Apply(s, act))
  {
    LogIs(s, act);
    forall k ensures RowOf(Apply(s, act).rows, k) == Replay(Apply(s, act).log, k) {
      ReplayLogged(s.log, EventOf(s, act), k);
    }
  }

  lemma CutGrows(s: State, act: Action)
    requires Enabled(s, act)
    ensures s.cut <= Apply(s, act).cut && s.now <= Apply(s, act).now
  {
    hide WellFormed, Free, Charged, Delay, Give, Take, Settle, Effect, Cut, Release;
  }

  /** A failure just recorded is guarded by the turn it was recorded under. */
  lemma FreshGuard(s: State, act: Action)
    requires TurnsOk(s) && Enabled(s, act) && EventOf(s, act).Some? && Kept(EventOf(s, act).value, Apply(s, act).cut)
    ensures GuardOk(Apply(s, act), EventOf(s, act).value)
  {
    if act.FailPageError? || act.FailPortalError? { ErrorCuts(s, act); }
    hide TurnsOk, Charged, Delay, WellFormed, Active, PhaseOk, Free, Settle, Effect, Release, Cut;
    EventOwned(s, act);
    StillActive(s, act);
  }

  /** A recording that errs although it took effect cuts its taking short. */
  lemma ErrorCuts(s: State, act: Action)
    requires TurnsOk(s) && Enabled(s, act) && EventOf(s, act).Some? && (act.FailPageError? || act.FailPortalError?)
    ensures EventOf(s, act).value.By() in Apply(s, act).cut
  {
    hide Charged, Delay, Free, Settle, Effect, Release;
    PhaseAt(s, act.a);
    var at := s.attempts[act.a];
    assert act.FailPortalError? ==> at.portals[at.phase.next] in at.portals;
    hide TurnsOk;
  }

  /** Recording leaves the attempt at work under the same turn, with the delay to hold. */
  lemma StillActive(s: State, act: Action)
    requires Enabled(s, act) && (act.WriteFailPage? || act.WriteFailPortal?)
    requires Active(s, Holder(act.a, EventOf(s, act).value.key.Page?))
    ensures Active(Apply(s, act), Holder(act.a, EventOf(s, act).value.key.Page?))
    ensures Covers(Apply(s, act).attempts[act.a].phase, s.now, s.now + Delay(EventOf(s, act).value.count))
  {
    hide Charged, Delay, WellFormed, Free;
  }

  lemma GuardsKept(s: State, act: Action)
    requires TurnsOk(s) && Guards(s) && Enabled(s, act)
    ensures Guards(Apply(s, act))
  {
    var t := Apply(s, act);
    LogIs(s, act);
    CutGrows(s, act);
    hide Apply, TurnsOk, GuardOk, Enabled, EventOf;
    forall i | 0 <= i < |t.log| && Kept(t.log[i], t.cut) ensures GuardOk(t, t.log[i]) {
      if i == |s.log| {
        FreshGuard(s, act);
      } else {
        assert t.log[i] == s.log[i];
        GuardStays(s, act, s.log[i]);
      }
    }
  }

  /** A credential is verified only when no recorded failure's delay still runs. */
  lemma VerifiedInTime(s: State, act: Action, e: Event)
    requires TurnsOk(s) && Enabled(s, act) && EventOf(s, act).Some? && EventOf(s, act).value.Verified?
    requires e.Failed? && GuardOk(s, e) && e.key == EventOf(s, act).value.key
    ensures Due(e) <= EventOf(s, act).value.at
  {
    EventOwned(s, act);
    hide TurnsOk, Charged, Delay, WellFormed;
  }

  lemma SpacedKept(s: State, act: Action)
    requires TurnsOk(s) && Guards(s) && Spaced(s.log, s.cut) && Enabled(s, act)
    ensures Spaced(Apply(s, act).log, Apply(s, act).cut)
  {
    var t := Apply(s, act);
    LogIs(s, act);
    CutGrows(s, act);
    hide Apply, TurnsOk, GuardOk, Enabled, EventOf, Due;
    forall i, j | 0 <= i < j < |t.log| ensures Apart(t.log[i], t.log[j], t.cut) {
      assert t.log[i] == s.log[i];
      if j < |s.log| {
        assert t.log[j] == s.log[j];
        assert Apart(s.log[i], s.log[j], s.cut);
      } else if Kept(s.log[i], t.cut) && t.log[j].Verified? && t.log[j].key == s.log[i].key {
        VerifiedInTime(s, act, s.log[i]);
      }
    }
  }

  lemma InvKept(s: State, act: Action)
    requires Inv(s) && Enabled(s, act)
    ensures Inv(Apply(s, act))
  {
    hide Apply, TurnsOk, OwnAll, Bracketed, Guards, Spaced, Counted, Enabled;
    TurnsKept(s, act);
    OwnAllKept(s, act);
    OwnOf(s, act);
    BracketKept(s, act);
    GuardsKept(s, act);
    SpacedKept(s, act);
    CountedKept(s, act);
  }

  lemma OwnOf(s: State, act: Action)
    requires OwnAll(s) && Enabled(s, act)
    ensures EventOf(s, act).Some? && !act.Land? ==> act.a in s.attempts && Own(s, act.a)
  {
    hide Own, Charged;
  }

  lemma {:induction false} InvAlways(acts: seq<Action>)
    requires After(acts).Some?
    ensures Inv(After(acts).value)
    decreases |acts|
  {
    hide Inv, Apply, Enabled;
    if acts == [] {
      StartOk();
    } else {
      InvAlways(acts[..|acts| - 1]);
      InvKept(After(acts[..|acts| - 1]).value, acts[|acts| - 1]);
    }
  }

  lemma StartOk()
    ensures Inv(START)
  {}

  /** MAIN: over every run, disconnects and erring writes included, the next verification
      of a page or portal starts no earlier than the delay after each failure recorded on
      it, unless that recording took effect late or an error cut its taking short. */
  lemma DelaysKept(acts: seq<Action>, i: nat, j: nat)
    requires After(acts).Some? && i < j < |After(acts).value.log|
    ensures var s := After(acts).value;
      Kept(s.log[i], s.cut) && s.log[j].Verified? && s.log[j].key == s.log[i].key
      ==> s.log[i].at + Delay(s.log[i].count) <= s.log[j].at
  {
    InvAlways(acts);
    assert Apart(After(acts).value.log[i], After(acts).value.log[j], After(acts).value.cut);
  }

  /** MAIN: but for late writes, a clearing write directly follows its own attempt's right
      check of that credential, and the recording of a failure its own wrong one: in time,
      a clear erases no failure whose check came after that one. */
  lemma ClearErasesNothingLater(acts: seq<Action>, i: nat)
    requires After(acts).Some? && i < |After(acts).value.log|
    requires !After(acts).value.log[i].Verified? && !After(acts).value.log[i].Late()
    ensures var log := After(acts).value.log;
      VerifiedBy(LastOn(log[..i], log[i].key), log[i].key, log[i].who, log[i].Cleared?)
  {
    InvAlways(acts);
  }

  /** The counters are the failures since the last clear, no more and no fewer. */
  lemma CountersReplay(acts: seq<Action>, k: Key)
    requires After(acts).Some?
    ensures RowOf(After(acts).value.rows, k) == Replay(After(acts).value.log, k)
  {
    InvAlways(acts);
  }

  /** MAIN: whoever waits for turns holds none, save a page's turn whose timer gives it
      back within the longest delay. */
  lemma WaitersHoldNothing(acts: seq<Action>, a: nat, k: Key)
    requires After(acts).Some? && a in After(acts).value.attempts
    requires var p := After(acts).value.attempts[a].phase; p.WaitPage? || p.WaitPortals?
    ensures var s := After(acts).value;
      k in s.held && s.held[k].attempt == a ==> s.held[k] in s.timers && s.timers[s.held[k]] <= s.now + MAX_DELAY
  {
    InvAlways(acts);
    assert k in After(acts).value.held ==> OwnerOk(After(acts).value, k);
  }

  /** No deadlock: every held turn has a timer running, or a holder with a step it can
      take at once. */
  lemma HoldersProgress(acts: seq<Action>, k: Key)
    requires After(acts).Some? && k in After(acts).value.held
    ensures var s := After(acts).value;
      || s.held[k] in s.timers
      || exists act :: Enabled(s, act) && !Outside(act) && !act.Arrive? && act.a == s.held[k].attempt
  {
    InvAlways(acts);
    var s := After(acts).value;
    hide After;
    assert OwnerOk(s, k);
    PhaseAt(s, s.held[k].attempt);
    hide Inv, WellFormed, PhaseOk, Enabled;
    if s.held[k] !in s.timers { StepEnabled(s, s.held[k]); }
  }

  lemma StepEnabled(s: State, h: Holder)
    requires Active(s, h) && PhaseOk(s.attempts[h.attempt], s.now)
    ensures var act := NextStep(h.attempt, s.attempts[h.attempt]);
      Enabled(s, act) && !Outside(act) && !act.Arrive? && act.a == h.attempt
  {
    hide WellFormed, Free;
  }

  function NextStep(a: nat, at: Attempt): Action {
    match at.phase
    case CheckPage => VerifyPage(a, false)
    case ClearPage => WriteClearPage(a, Applied)
    case RecordPage => WriteFailPage(a)
    case HoldPage(_) => ReleasePageLater(a)
    case CheckPortals(_) => VerifyPortal(a, false)
    case ClearPortal(_) => WriteClearPortal(a, Applied)
    case RecordPortals(i, _) => if i < |at.portals| then WriteFailPortal(a) else HoldPortals(a)
    case _ => Wake(a)
  }
}
