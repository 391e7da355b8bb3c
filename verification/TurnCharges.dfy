/** Every credential an attempt tests is charged, and every one of its door is tested. */
module TurnCharges {
  import opened JsonValue
  import opened TurnSystem
  import opened TurnHolds
  import opened TurnSafety

  // ── what an attempt has done ──────────

  ghost predicate Wrong(log: seq<Event>, k: Key, a: nat) { exists i :: 0 <= i < |log| && IsWrong(log[i], k, a) }

  ghost predicate Right(log: seq<Event>, a: nat) { exists i :: 0 <= i < |log| && IsRight(log[i], a) }

  ghost predicate Recorded(log: seq<Event>, k: Key, a: nat) { exists i :: 0 <= i < |log| && IsRecord(log[i], k, a) }

  predicate IsWrong(e: Event, k: Key, a: nat) { e.Verified? && e.key == k && e.who == a && !e.ok }

  predicate IsRight(e: Event, a: nat) { e.Verified? && e.who == a && e.ok }

  // A failure recorded in time.
  predicate IsRecord(e: Event, k: Key, a: nat) { e.Failed? && e.key == k && e.who == a && !e.late }

  /** A recording of the attempt returned an error. */
  ghost predicate Erred(acts: seq<Action>, a: nat) { exists i :: 0 <= i < |acts| && IsError(acts[i], a) }

  /** The attempt stopped waiting for a turn. */
  ghost predicate GaveUp(acts: seq<Action>, a: nat) { GiveUp(a) in acts }

  predicate IsError(act: Action, a: nat) { (act.FailPageError? || act.FailPortalError?) && act.a == a }

  // A wrong check of k whose recording is still to come.
  predicate InHand(at: Attempt, k: Key) {
    match at.phase
    case RecordPage => at.page == Some(k)
    case CheckPortals(_) => k in at.portals
    case RecordPortals(n, _) => n <= |at.portals| && k in at.portals[n..]
    case _ => false
  }

  ghost predicate PageTested(log: seq<Event>, at: Attempt, a: nat) {
    at.page.Some? ==> Wrong(log, at.page.value, a)
  }

  ghost predicate PortalsTested(log: seq<Event>, at: Attempt, a: nat, n: nat) {
    n <= |at.portals| && forall j :: 0 <= j < n ==> Wrong(log, at.portals[j], a)
  }

  /** How far the attempt's checks have come. */
  ghost predicate Tested(acts: seq<Action>, log: seq<Event>, at: Attempt, a: nat) {
    match at.phase
    case WaitPage => true
    case CheckPage => true
    case ClearPage => Right(log, a)
    case ClearPortal(_) => Right(log, a)
    case RecordPage => PageTested(log, at, a)
    case HoldPage(_) => PageTested(log, at, a)
    case WaitPortals => PageTested(log, at, a)
    case CheckPortals(n) => PageTested(log, at, a) && PortalsTested(log, at, a, n)
    case RecordPortals(_, _) => PageTested(log, at, a) && PortalsTested(log, at, a, |at.portals|)
    case Sleeping(_, _) => PageTested(log, at, a) && PortalsTested(log, at, a, |at.portals|)
    case Done =>
      || Erred(acts, a) || GaveUp(acts, a) || Right(log, a)
      || (PageTested(log, at, a) && PortalsTested(log, at, a, |at.portals|))
  }

  ghost predicate Charges(acts: seq<Action>, log: seq<Event>, at: Attempt, a: nat) {
    forall k :: Wrong(log, k, a) ==>
      Erred(acts, a) || (Right(log, a) && k.Portal?) || Recorded(log, k, a) || InHand(at, k)
  }

  // Before its portals' recordings.
  predicate Earlier(p: Phase) {
    p.WaitPage? || p.CheckPage? || p.RecordPage? || p.HoldPage? || p.WaitPortals? || p.CheckPortals?
  }

  /** An attempt with a right password records no portal's failure. */
  ghost predicate RightRecords(log: seq<Event>, at: Attempt, a: nat) {
    && (Right(log, a) ==> at.phase.ClearPage? || at.phase.ClearPortal? || at.phase.Done?)
    && (Right(log, a) || Earlier(at.phase) ==> forall k: Key :: k.Portal? ==> !Recorded(log, k, a))
  }

  ghost predicate KnownChecks(s: State) {
    forall i :: 0 <= i < |s.log| && !s.log[i].Late() ==> s.log[i].who in s.attempts
  }

  ghost predicate AttemptOk(acts: seq<Action>, s: State, a: nat)
    requires a in s.attempts
  {
    && Tested(acts, s.log, s.attempts[a], a) && Charges(acts, s.log, s.attempts[a], a)
    && RightRecords(s.log, s.attempts[a], a)
  }

  ghost predicate ChargesInv(acts: seq<Action>, s: State) {
    KnownChecks(s) && forall a :: a in s.attempts ==> AttemptOk(acts, s, a)
  }

  // ── an attempt's own steps ──────────

  predicate Moves(at: Attempt, act: Action, q: Phase) {
    var p := at.phase;
    match act
    case GiveUp(_) => (p.WaitPage? || p.WaitPortals?) && q.Done?
    case TakePage(_) => p.WaitPage? && q.CheckPage?
    case VerifyPage(_, ok) => p.CheckPage? && at.page.Some? && if ok then q.ClearPage? else q.RecordPage?
    case WriteClearPage(_, _) => p.ClearPage? && q.Done?
    case WriteFailPage(_) => p.RecordPage? && at.page.Some? && q.HoldPage?
    case FailPageError(_, _) => p.RecordPage? && q.Done?
    case ReleasePageLater(_) => p.HoldPage? && if at.portals == [] then q.Done? else q.WaitPortals?
    case TakePortals(_) => p.WaitPortals? && q == CheckPortals(0)
    case VerifyPortal(_, ok) =>
      p.CheckPortals? && p.next < |at.portals| &&
      if ok then q.ClearPortal?
      else if p.next + 1 < |at.portals| then q == CheckPortals(p.next + 1)
      else q == RecordPortals(0, 0)
    case WriteClearPortal(_, _) => p.ClearPortal? && q.Done?
    case WriteFailPortal(_) => p.RecordPortals? && p.next < |at.portals| && q.RecordPortals? && q.next == p.next + 1
    case FailPortalError(_, _) => p.RecordPortals? && q.Done?
    case HoldPortals(_) => p.RecordPortals? && p.next == |at.portals| && (q.Sleeping? || q.Done?)
    case Wake(_) => p.Sleeping? && q.Done?
    case _ => false
  }

  lemma MovesSo(s: State, act: Action)
    requires Enabled(s, act) && !Outside(act) && !act.Arrive?
    ensures act.a in s.attempts && act.a in Apply(s, act).attempts
    ensures var at, next := s.attempts[act.a], Apply(s, act).attempts[act.a];
      next == at.(phase := next.phase) && Moves(at, act, next.phase)
  {
    hide WellFormed, Free, Charged, Delay, Give, Take, Settle, Effect, Cut, Release;
  }

  // What its step logs, if anything.
  predicate EventFits(at: Attempt, act: Action, e: Option<Event>)
    requires !Outside(act)
  {
    var p := at.phase;
    && (e.Some? ==> e.value.who == act.a && (e.value.Verified? <==> act.VerifyPage? || act.VerifyPortal?))
    && (e.Some? && e.value.Failed? && e.value.key.Portal? ==> p.RecordPortals?)
    && match act
       case VerifyPage(_, ok) => at.page.Some? && e.Some? && e.value.key == at.page.value && e.value.ok == ok
       case VerifyPortal(_, ok) =>
         p.CheckPortals? && p.next < |at.portals| && e.Some? && e.value.key == at.portals[p.next] && e.value.ok == ok
       case WriteFailPage(_) => at.page.Some? && e.Some? && IsRecord(e.value, at.page.value, act.a)
       case WriteFailPortal(_) =>
         p.RecordPortals? && p.next < |at.portals| && e.Some? && IsRecord(e.value, at.portals[p.next], act.a)
       case _ => true
  }

  lemma EventIs(s: State, act: Action)
    requires Enabled(s, act) && !Outside(act) && !act.Arrive?
    requires act.a in s.attempts
    requires var at := s.attempts[act.a]; WellFormed(at.page, at.portals, at.door)
    ensures act.a in s.attempts && EventFits(s.attempts[act.a], act, EventOf(s, act))
  {
    hide Free, Charged;
  }

  // ── what stays ──────────

  /** Neither log nor actions forget. */
  lemma Remembers(acts: seq<Action>, act: Action, log: seq<Event>, e: Option<Event>, a: nat)
    ensures var more, t := acts + [act], Logged(log, e);
      && (Erred(acts, a) ==> Erred(more, a)) && (GaveUp(acts, a) ==> GaveUp(more, a))
      && (IsError(act, a) ==> Erred(more, a)) && (act == GiveUp(a) ==> GaveUp(more, a))
      && (Right(t, a) <==> Right(log, a) || (e.Some? && IsRight(e.value, a)))
  {
    hide IsError, IsRight;
    var more, t := acts + [act], Logged(log, e);
    assert more[|acts|] == act && forall i :: 0 <= i < |acts| ==> more[i] == acts[i];
    assert forall i :: 0 <= i < |log| ==> t[i] == log[i];
    if e.Some? { assert t[|log|] == e.value; }
  }

  lemma RemembersKey(log: seq<Event>, e: Option<Event>, k: Key, a: nat)
    ensures var t := Logged(log, e);
      && (Wrong(t, k, a) <==> Wrong(log, k, a) || (e.Some? && IsWrong(e.value, k, a)))
      && (Recorded(t, k, a) <==> Recorded(log, k, a) || (e.Some? && IsRecord(e.value, k, a)))
  {
    hide IsWrong, IsRecord;
    var t := Logged(log, e);
    assert forall i :: 0 <= i < |log| ==> t[i] == log[i];
    if e.Some? { assert t[|log|] == e.value; }
  }

  /** What another attempt does leaves this one as it was. */
  lemma OthersStay(acts: seq<Action>, act: Action, log: seq<Event>, e: Option<Event>, at: Attempt, a: nat)
    requires Tested(acts, log, at, a) && Charges(acts, log, at, a) && RightRecords(log, at, a)
    requires e.Some? && !e.value.Late() ==> e.value.who != a
    ensures Tested(acts + [act], Logged(log, e), at, a) && Charges(acts + [act], Logged(log, e), at, a)
    ensures RightRecords(Logged(log, e), at, a)
  {
    Remembers(acts, act, log, e, a);
    forall k ensures Wrong(Logged(log, e), k, a) == Wrong(log, k, a) &&
        Recorded(Logged(log, e), k, a) == Recorded(log, k, a)
    {
      RemembersKey(log, e, k, a);
    }
    hide Wrong, Recorded, Right, Erred, GaveUp, InHand;
  }

  lemma OwnCharges(acts: seq<Action>, act: Action, log: seq<Event>, e: Option<Event>, at: Attempt, q: Phase)
    requires !Outside(act) && !act.Arrive? && Moves(at, act, q) && Charges(acts, log, at, act.a)
    requires EventFits(at, act, e) && forall k :: k in at.portals ==> k.Portal?
    ensures Charges(acts + [act], Logged(log, e), at.(phase := q), act.a)
  {
    var a := act.a;
    var t := Logged(log, e);
    Remembers(acts, act, log, e, a);
    forall k | Wrong(t, k, a)
      ensures Erred(acts + [act], a) || (Right(t, a) && k.Portal?) || Recorded(t, k, a) || InHand(at.(phase := q), k)
    {
      RemembersKey(log, e, k, a);
      hide Wrong, Recorded, Right, Erred, GaveUp;
      if Wrong(log, k, a) && InHand(at, k) {
        OldInHand(at, act, e, q, k);
      } else if !Wrong(log, k, a) {
        NewInHand(at, act, e, q, k);
      } else {
        assert Erred(acts, a) || (Right(log, a) && k.Portal?) || Recorded(log, k, a);
      }
    }
  }

  lemma OldInHand(at: Attempt, act: Action, e: Option<Event>, q: Phase, k: Key)
    requires !Outside(act) && !act.Arrive? && Moves(at, act, q) && EventFits(at, act, e) && InHand(at, k)
    requires forall x :: x in at.portals ==> x.Portal?
    ensures IsError(act, act.a)
      || (e.Some? && ((IsRight(e.value, act.a) && k.Portal?) || IsRecord(e.value, k, act.a)))
      || InHand(at.(phase := q), k)
  {
    if act.WriteFailPortal? {
      var n := at.phase.next;
      assert at.portals[n..] == [at.portals[n]] + at.portals[n + 1..];
    } else if act.VerifyPortal? && q.RecordPortals? {
      assert at.portals[0..] == at.portals;
    }
  }

  lemma NewInHand(at: Attempt, act: Action, e: Option<Event>, q: Phase, k: Key)
    requires !Outside(act) && !act.Arrive? && Moves(at, act, q) && EventFits(at, act, e)
    requires e.Some? && IsWrong(e.value, k, act.a)
    ensures InHand(at.(phase := q), k)
  {
    if act.VerifyPortal? { assert at.portals[0..] == at.portals && k in at.portals; }
  }

  lemma OwnTested(acts: seq<Action>, act: Action, log: seq<Event>, e: Option<Event>, at: Attempt, q: Phase)
    requires !Outside(act) && !act.Arrive? && Moves(at, act, q) && Tested(acts, log, at, act.a)
    requires EventFits(at, act, e)
    requires at.phase.Sleeping? || at.phase.RecordPortals? ==> at.portals != []
    ensures Tested(acts + [act], Logged(log, e), at.(phase := q), act.a)
  {
    var a := act.a;
    var t := Logged(log, e);
    Remembers(acts, act, log, e, a);
    forall k ensures (Wrong(log, k, a) ==> Wrong(t, k, a)) && (e.Some? && IsWrong(e.value, k, a) ==> Wrong(t, k, a)) {
      RemembersKey(log, e, k, a);
    }
    hide Wrong, Right, Erred, GaveUp;
    var next := at.(phase := q);
    assert PageTested(log, at, a) ==> PageTested(t, next, a);
    assert forall n: nat :: PortalsTested(log, at, a, n) ==> PortalsTested(t, next, a, n);
    if act.VerifyPage? && !act.ok {
      assert IsWrong(e.value, at.page.value, a);
    } else if act.VerifyPortal? && !act.ok {
      var n := at.phase.next;
      assert IsWrong(e.value, at.portals[n], a);
      assert PortalsTested(t, next, a, n + 1);
    }
  }

  lemma OwnRights(act: Action, log: seq<Event>, e: Option<Event>, at: Attempt, q: Phase)
    requires !Outside(act) && !act.Arrive? && Moves(at, act, q) && EventFits(at, act, e)
    requires RightRecords(log, at, act.a)
    ensures RightRecords(Logged(log, e), at.(phase := q), act.a)
  {
    var a := act.a;
    var t := Logged(log, e);
    Remembers([], act, log, e, a);
    forall k: Key ensures Recorded(t, k, a) <==> Recorded(log, k, a) || (e.Some? && IsRecord(e.value, k, a)) {
      RemembersKey(log, e, k, a);
    }
    hide Right, Recorded, Erred, GaveUp;
  }

  // ── every run ──────────

  lemma AttemptsKept(acts: seq<Action>, s: State, act: Action, b: nat)
    requires TurnsOk(s) && ChargesInv(acts, s) && Enabled(s, act) && b in Apply(s, act).attempts
    ensures AttemptOk(acts + [act], Apply(s, act), b)
  {
    LogIs(s, act);
    hide Tested, Charges, RightRecords, KnownChecks, TurnsOk, Moves;
    if Outside(act) || act.a != b {
      SameIds(s, act, b);
      SameAttempt(s, act, b);
      assert AttemptOk(acts, s, b);
      NotItsEvent(s, act, b);
      hide Apply, Enabled;
      OthersStay(acts, act, s.log, EventOf(s, act), s.attempts[b], b);
    } else if act.Arrive? {
      Arrives(acts, s, act);
    } else {
      OwnStep(acts, s, act);
    }
  }

  lemma NotItsEvent(s: State, act: Action, b: nat)
    requires Enabled(s, act) && (Outside(act) || act.a != b)
    ensures EventOf(s, act).Some? && !EventOf(s, act).value.Late() ==> EventOf(s, act).value.who != b
  {
    hide WellFormed, Free, Charged;
  }

  lemma OwnStep(acts: seq<Action>, s: State, act: Action)
    requires TurnsOk(s) && Enabled(s, act) && !Outside(act) && !act.Arrive? && act.a in s.attempts &&
      AttemptOk(acts, s, act.a)
    ensures act.a in Apply(s, act).attempts && AttemptOk(acts + [act], Apply(s, act), act.a)
  {
    LogIs(s, act);
    MovesSo(s, act);
    PhaseAt(s, act.a);
    EventIs(s, act);
    hide Apply, Enabled, Tested, Charges, RightRecords, TurnsOk, Moves, EventOf;
    var at := s.attempts[act.a];
    var q := Apply(s, act).attempts[act.a].phase;
    OwnTested(acts, act, s.log, EventOf(s, act), at, q);
    OwnCharges(acts, act, s.log, EventOf(s, act), at, q);
    OwnRights(act, s.log, EventOf(s, act), at, q);
  }

  lemma Arrives(acts: seq<Action>, s: State, act: Action)
    requires Enabled(s, act) && act.Arrive? && KnownChecks(s)
    ensures act.a in Apply(s, act).attempts && AttemptOk(acts + [act], Apply(s, act), act.a)
  {
    hide WellFormed;
    forall k ensures !Wrong(s.log, k, act.a) && !Recorded(s.log, k, act.a) {}
  }

  lemma ChecksKnown(s: State, act: Action)
    requires KnownChecks(s) && Enabled(s, act)
    ensures KnownChecks(Apply(s, act))
  {
    LogIs(s, act);
    var t := Apply(s, act);
    KeepsIds(s, act);
    hide Apply, Enabled;
    forall i | 0 <= i < |t.log| && !t.log[i].Late() ensures t.log[i].who in t.attempts {
      if i < |s.log| { assert t.log[i] == s.log[i]; }
    }
  }

  lemma KeepsIds(s: State, act: Action)
    requires Enabled(s, act)
    ensures s.attempts.Keys <= Apply(s, act).attempts.Keys
    ensures EventOf(s, act).Some? && !EventOf(s, act).value.Late() ==> EventOf(s, act).value.who in s.attempts
  {
    hide WellFormed, Free, Charged, Delay, Give, Take, Settle, Effect, Cut, Release;
  }

  lemma {:induction false} ChargesAlways(acts: seq<Action>)
    requires After(acts).Some?
    ensures ChargesInv(acts, After(acts).value)
    decreases |acts|
  {
    hide Apply, Enabled, AttemptOk, KnownChecks;
    if acts == [] {
      NobodyYet();
    } else {
      var front, act := acts[..|acts| - 1], acts[|acts| - 1];
      ChargesAlways(front);
      InvAlways(front);
      var s := After(front).value;
      assert front + [act] == acts;
      ChecksKnown(s, act);
      forall b | b in Apply(s, act).attempts ensures AttemptOk(acts, Apply(s, act), b) {
        AttemptsKept(front, s, act, b);
      }
    }
  }

  lemma NobodyYet()
    ensures KnownChecks(START) && START.attempts == map[]
  {}

  /** MAIN: when an attempt is over and no recording of it erred, whatever it checked in vain is
      charged if and only if it did not go on from a wrong portal to a right one. */
  lemma TestedAreCharged(acts: seq<Action>, a: nat)
    requires After(acts).Some? && a in After(acts).value.attempts
    requires After(acts).value.attempts[a].phase.Done? && !Erred(acts, a)
    ensures var log := After(acts).value.log;
      (forall k :: Wrong(log, k, a) ==> Recorded(log, k, a))
        <==> !(Right(log, a) && exists k: Key :: k.Portal? && Wrong(log, k, a))
  {
    ChargesAlways(acts);
    assert AttemptOk(acts, After(acts).value, a);
    hide Wrong, Recorded, Right, Erred, GaveUp, After, KnownChecks, Tested;
  }

  /** Unless it gave up waiting or a password was right, it has checked every credential of
      its door in vain. */
  lemma AllAreTested(acts: seq<Action>, a: nat)
    requires After(acts).Some? && a in After(acts).value.attempts
    requires After(acts).value.attempts[a].phase.Done? && !Erred(acts, a) && !GaveUp(acts, a)
    requires !Right(After(acts).value.log, a)
    ensures var s := After(acts).value;
            var at := s.attempts[a];
      && (at.page.Some? ==> Wrong(s.log, at.page.value, a))
      && forall k :: k in at.portals ==> Wrong(s.log, k, a)
  {
    ChargesAlways(acts);
    assert AttemptOk(acts, After(acts).value, a);
    hide Wrong, Recorded, Right, Erred, GaveUp, After, KnownChecks, Charges, RightRecords;
  }
}
