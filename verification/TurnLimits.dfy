/** Where the spacing of password checks fails, and exactly when it can. */
module TurnLimits {
  import opened JsonValue
  import opened TurnSystem
  import opened TurnHolds
  import opened TurnSafety
  import C = TurnCharges

  lemma Extend(acts: seq<Action>, act: Action)
    requires After(acts).Some? && Enabled(After(acts).value, act)
    ensures After(acts + [act]) == Some(Apply(After(acts).value, act))
  {
    hide Apply, Enabled;
    assert (acts + [act])[..|acts|] == acts;
  }

  /** What a visitor to a credential's own form does at once when the turn is free, with
      a wrong password. */
  function Visit(b: nat, k: Key): seq<Action> {
    if k.Page? then [Arrive(b, Some(k), [], PageForm)] + [TakePage(b)] + [VerifyPage(b, false)]
    else [Arrive(b, None, [k], PortalForm)] + [TakePortals(b)] + [VerifyPortal(b, false)]
  }

  /** The visitor is about to record the failure; nothing else has changed but the turn. */
  ghost predicate Visited(s: State, t: State, b: nat, k: Key) {
    && t == s.(log := s.log + [Verified(k, b, s.now, false)], held := t.held, attempts := t.attempts)
    && t.attempts.Keys == s.attempts.Keys + {b}
    && t.attempts[b] == if k.Page? then Attempt(Some(k), [], PageForm, RecordPage)
                        else Attempt(None, [k], PortalForm, RecordPortals(0, 0))
  }

  lemma VisitVerifies(acts: seq<Action>, b: nat, k: Key)
    requires After(acts).Some? && b !in After(acts).value.attempts && k !in After(acts).value.held
    ensures After(acts + Visit(b, k)).Some? && Visited(After(acts).value, After(acts + Visit(b, k)).value, b, k)
  {
    if k.Page? { VisitPage(acts, b, k); } else { VisitPortal(acts, b, k); }
  }

  lemma VisitPage(acts: seq<Action>, b: nat, k: Key)
    requires After(acts).Some? && b !in After(acts).value.attempts && k !in After(acts).value.held && k.Page?
    ensures After(acts + Visit(b, k)).Some? && Visited(After(acts).value, After(acts + Visit(b, k)).value, b, k)
  {
    hide After;
    var s := After(acts).value;
    var a1, a2, a3 := Arrive(b, Some(k), [], PageForm), TakePage(b), VerifyPage(b, false);
    Extend(acts, a1);
    var s1 := Apply(s, a1);
    assert s1 == s.(attempts := s1.attempts);
    Extend(acts + [a1], a2);
    var s2 := Apply(s1, a2);
    assert s2 == s1.(attempts := s2.attempts, held := s2.held);
    Extend(acts + [a1] + [a2], a3);
    assert acts + Visit(b, k) == acts + [a1] + [a2] + [a3];
  }

  lemma VisitPortal(acts: seq<Action>, b: nat, k: Key)
    requires After(acts).Some? && b !in After(acts).value.attempts && k !in After(acts).value.held && k.Portal?
    ensures After(acts + Visit(b, k)).Some? && Visited(After(acts).value, After(acts + Visit(b, k)).value, b, k)
  {
    hide After;
    var s := After(acts).value;
    var a1, a2, a3 := Arrive(b, None, [k], PortalForm), TakePortals(b), VerifyPortal(b, false);
    Extend(acts, a1);
    var s1 := Apply(s, a1);
    assert s1 == s.(attempts := s1.attempts);
    Extend(acts + [a1], a2);
    var s2 := Apply(s1, a2);
    assert s2 == s1.(attempts := s2.attempts, held := s2.held);
    Extend(acts + [a1] + [a2], a3);
    assert acts + Visit(b, k) == acts + [a1] + [a2] + [a3];
  }

  /** An attempt whose recording is about to err, and the write it is waiting for. */
  predicate Recording(s: State, a: nat, w: Write) {
    && a in s.attempts && w.who == a && !w.clear
    && var at := s.attempts[a];
    || (at.phase.RecordPage? && at.page == Some(w.key))
    || (at.phase.RecordPortals? && at.phase.next < |at.portals| && at.portals[at.phase.next] == w.key)
  }

  function Erring(s: State, a: nat, o: Outcome): Action
    requires a in s.attempts
  {
    if s.attempts[a].phase.RecordPage? then FailPageError(a, o) else FailPortalError(a, o)
  }

  /** The credentials whose turns that error gives back without a hold. */
  function Dropped(s: State, a: nat): seq<Key>
    requires a in s.attempts
  {
    KeysOf(s.attempts[a], s.attempts[a].phase.RecordPage?)
  }

  lemma ErrorDrops(acts: seq<Action>, a: nat, w: Write, o: Outcome, k: Key)
    requires After(acts).Some? && Recording(After(acts).value, a, w) && k in Dropped(After(acts).value, a)
    ensures var s := After(acts).value;
            var t := Apply(s, Erring(s, a, o));
      && Enabled(s, Erring(s, a, o))
      && After(acts + [Erring(s, a, o)]) == Some(t)
      && k !in t.held && t.attempts.Keys == s.attempts.Keys
      && t.now == s.now
  {
    InvAlways(acts);
    var s := After(acts).value;
    hide After;
    DropsTurn(s, a, w, o, k);
    Extend(acts, Erring(s, a, o));
  }

  lemma DropsTurn(s: State, a: nat, w: Write, o: Outcome, k: Key)
    requires TurnsOk(s) && Recording(s, a, w) && k in Dropped(s, a)
    ensures Enabled(s, Erring(s, a, o))
    ensures var t := Apply(s, Erring(s, a, o)); k !in t.held && t.attempts.Keys == s.attempts.Keys && t.now == s.now
  {
    hide WellFormed, PhasesOk, OwnersOk, TimersOk, Settle, Effect, Cut;
    var h := Holder(a, s.attempts[a].phase.RecordPage?);
    assert Active(s, h);
    assert Holding(s, h);
  }

  // What such an error leaves behind.
  lemma ErrorLogs(s: State, a: nat, w: Write, o: Outcome)
    requires Recording(s, a, w) && Enabled(s, Erring(s, a, o))
    ensures var t := Apply(s, Erring(s, a, o));
      && t.log == Logged(s.log, Written(s, w, o))
      && (o.Applied? ==> Holder(a, s.attempts[a].phase.RecordPage?) in t.cut)
      && (o.Overdue? ==> w in t.pending && t.rows == s.rows && t.now == s.now)
      && (s.attempts[a].phase.RecordPortals? && s.attempts[a].phase.next > 0 ==> Holder(a, false) in t.cut)
  {
    LogIs(s, Erring(s, a, o));
    hide Effect, WellFormed, Release, Logged, EventFor;
  }

  /** A recording that takes effect and still errs gives the turns back without a hold, at
      every door: the credential is checked again at the instant its failure is recorded. */
  lemma ErrorSkipsDelay(acts: seq<Action>, a: nat, w: Write, b: nat)
    requires After(acts).Some? && Recording(After(acts).value, a, w) && b !in After(acts).value.attempts
    ensures var s := After(acts).value;
            var err := acts + [Erring(s, a, Applied)];
      && After(err).Some? && After(err + Visit(b, w.key)).Some?
      && Holder(a, s.attempts[a].phase.RecordPage?) in After(err).value.cut
      && After(err + Visit(b, w.key)).value.log == s.log + [EventFor(s, w, false), Verified(w.key, b, s.now, false)]
  {
    var s := After(acts).value;
    var act := Erring(s, a, Applied);
    hide After, Apply, Enabled, Recording, Visit, EventFor;
    assert w.key in Dropped(s, a) by { KeyDropped(s, a, w); }
    ErrorDrops(acts, a, w, Applied, w.key);
    ErrorLogs(s, a, w, Applied);
    VisitVerifies(acts + [act], b, w.key);
  }

  lemma KeyDropped(s: State, a: nat, w: Write)
    requires Recording(s, a, w)
    ensures w.key in Dropped(s, a)
  {}

  /** A recording that errs, whatever became of it, after an earlier portal was charged:
      that portal can be checked again at the same instant. */
  lemma CutSkipsDelay(acts: seq<Action>, a: nat, w: Write, j: nat, b: nat, o: Outcome)
    requires After(acts).Some? && Recording(After(acts).value, a, w) && b !in After(acts).value.attempts
    requires var p := After(acts).value.attempts[a].phase; p.RecordPortals? && j < p.next
    ensures var s := After(acts).value;
            var k := s.attempts[a].portals[j];
            var err := acts + [Erring(s, a, o)];
      && After(err).Some? && After(err + Visit(b, k)).Some?
      && Holder(a, false) in After(err).value.cut
      && After(err + Visit(b, k)).value.log == After(err).value.log + [Verified(k, b, s.now, false)]
  {
    var s := After(acts).value;
    var k := s.attempts[a].portals[j];
    assert k in Dropped(s, a);
    hide After, Apply, Enabled, Visit, Dropped;
    ErrorDrops(acts, a, w, o, k);
    ErrorLogs(s, a, w, o);
    VisitVerifies(acts + [Erring(s, a, o)], b, k);
  }

  /** A recording that outlives its context and takes effect once its attempt has let go
      delays nobody either. */
  lemma LateSkipsDelay(acts: seq<Action>, a: nat, w: Write, b: nat)
    requires After(acts).Some? && Recording(After(acts).value, a, w) && b !in After(acts).value.attempts
    ensures var s := After(acts).value;
            var run := acts + [Erring(s, a, Overdue)] + [Land(w)] + Visit(b, w.key);
      After(run).Some? && After(run).value.log == s.log + [EventFor(s, w, true), Verified(w.key, b, s.now, false)]
  {
    var s := After(acts).value;
    var act := Erring(s, a, Overdue);
    hide After, Apply, Recording, Visit, EventFor;
    assert w.key in Dropped(s, a) by { KeyDropped(s, a, w); }
    ErrorDrops(acts, a, w, Overdue, w.key);
    ErrorLogs(s, a, w, Overdue);
    var t := Apply(s, act);
    Extend(acts + [act], Land(w));
    Landed(t, w);
    SameEventFor(s, t, w);
    VisitVerifies(acts + [act] + [Land(w)], b, w.key);
  }

  lemma Landed(s: State, w: Write)
    requires Enabled(s, Land(w))
    ensures Apply(s, Land(w)).log == s.log + [EventFor(s, w, true)]
    ensures Apply(s, Land(w)) ==
      s.(log := Apply(s, Land(w)).log, rows := Apply(s, Land(w)).rows, pending := s.pending - {w})
    ensures w.clear ==> w.key !in Apply(s, Land(w)).rows
  {
    LogIs(s, Land(w));
  }

  lemma SameEventFor(s: State, t: State, w: Write)
    requires t.rows == s.rows && t.now == s.now
    ensures EventFor(t, w, true) == EventFor(s, w, true)
  {}

  /** A clear that outlives its context, and takes effect once the next attempt has failed,
      erases that failure. */
  lemma LateClearErases(acts: seq<Action>, a: nat, k: Key, b: nat)
    requires After(acts).Some? && Clearing(After(acts).value, a, k) && b !in After(acts).value.attempts
    ensures var s := After(acts).value;
            var run := acts + [WriteClearPage(a, Overdue)] + Visit(b, k) + [WriteFailPage(b)] +
              [Land(Write(k, a, true))];
      && After(run).Some? && k !in After(run).value.rows
      && After(run).value.log
         == s.log + [Verified(k, b, s.now, false), EventFor(s, Write(k, b, false), false), Cleared(k, a, s.now, true)]
  {
    var s, w := After(acts).value, Write(k, a, true);
    var r1 := acts + [WriteClearPage(a, Overdue)];
    OverdueClear(acts, a, k);
    VisitVerifies(r1, b, k);
    var r2 := r1 + Visit(b, k);
    var s2 := After(r2).value;
    hide After, Apply, Enabled, EventFor, Visit, Clearing;
    Recorded(s2, b, k);
    Extend(r2, WriteFailPage(b));
    var s3 := Apply(s2, WriteFailPage(b));
    LandEnabled(s3, w);
    Extend(r2 + [WriteFailPage(b)], Land(w));
    Landed(s3, w);
    SameRecording(s, s2, s3, w, b);
  }

  predicate Clearing(s: State, a: nat, k: Key) {
    a in s.attempts && s.attempts[a].phase.ClearPage? && s.attempts[a].page == Some(k)
  }

  lemma LandEnabled(s: State, w: Write)
    requires w in s.pending
    ensures Enabled(s, Land(w))
  {}

  lemma OverdueClear(acts: seq<Action>, a: nat, k: Key)
    requires After(acts).Some? && Clearing(After(acts).value, a, k)
    ensures k.Page?
    ensures var s := After(acts).value;
            var next := After(acts + [WriteClearPage(a, Overdue)]);
      && next.Some? && k !in next.value.held && next.value.attempts.Keys == s.attempts.Keys
      && Write(k, a, true) in next.value.pending
      && next.value.rows == s.rows && next.value.now == s.now && next.value.log == s.log
  {
    InvAlways(acts);
    hide After;
    ClearDrops(After(acts).value, a, k);
    Extend(acts, WriteClearPage(a, Overdue));
  }

  lemma SameRecording(s: State, s2: State, s3: State, w: Write, b: nat)
    requires s2.rows == s.rows && s2.now == s.now && s3.now == s.now && w.clear
    ensures EventFor(s2, Write(w.key, b, false), false) == EventFor(s, Write(w.key, b, false), false)
    ensures EventFor(s3, w, true) == Cleared(w.key, w.who, s.now, true)
  {}

  lemma ClearDrops(s: State, a: nat, k: Key)
    requires TurnsOk(s) && Clearing(s, a, k)
    ensures k.Page?
    ensures var t := Apply(s, WriteClearPage(a, Overdue));
      && k !in t.held && t.attempts.Keys == s.attempts.Keys && Write(k, a, true) in t.pending
      && t.rows == s.rows && t.now == s.now && t.log == s.log
  {
    PhaseAt(s, a);
    hide PhasesOk, OwnersOk, TimersOk;
    var h := Holder(a, true);
    assert Active(s, h);
    assert Holding(s, h);
  }

  lemma Recorded(s: State, b: nat, k: Key)
    requires b in s.attempts && s.attempts[b].phase.RecordPage? && s.attempts[b].page == Some(k)
    ensures Enabled(s, WriteFailPage(b))
    ensures var t := Apply(s, WriteFailPage(b));
      t.log == s.log + [EventFor(s, Write(k, b, false), false)] && t.pending == s.pending && t.now == s.now
  {
    LogIs(s, WriteFailPage(b));
    hide Charged, Delay, Effect;
  }

  // ── reachable witnesses ──────────

  predicate TooSoon(log: seq<Event>, i: nat, j: nat) {
    && i < j < |log| && log[i].Failed? && !log[i].late && log[j].Verified? && log[i].key == log[j].key
    && log[j].at < log[i].at + Delay(log[i].count)
  }

  /** A run that does it at a portal: of two, the second recording fails, and the first
      portal's next check starts 500 ms too early. */
  lemma DelaySkipped()
    ensures exists acts, i, j :: After(acts).Some? && TooSoon(After(acts).value.log, i, j)
  {
    var p, q := Portal(1), Portal(2);
    var r := OneCharged(p, q);
    hide After, Apply;
    var s, w := After(r).value, Write(q, 0, false);
    DelayCurve(1);
    ErrorDrops(r, 0, w, Lost, p);
    ErrorLogs(s, 0, w, Lost);
    CutSkipsDelay(r, 0, w, 0, 1, Lost);
    assert TooSoon(After(r + [FailPortalError(0, Lost)] + Visit(1, p)).value.log, 2, 3);
  }

  /** Attempt 0 has found its password wrong for both portals, and charged the first. */
  lemma OneCharged(p: Key, q: Key) returns (r: seq<Action>)
    requires p.Portal? && q.Portal? && p != q
    ensures After(r).Some?
    ensures var s := After(r).value;
      && s.attempts.Keys == {0} && s.attempts[0].portals == [p, q] && s.now == 0
      && s.attempts[0].phase.RecordPortals? && s.attempts[0].phase.next == 1
      && s.log == [Verified(p, 0, 0, false), Verified(q, 0, 0, false), Failed(p, 0, 0, 1, false)]
  {
    r := TwoChecked([], p, q);
    hide After;
    LogIs(After(r).value, WriteFailPortal(0));
    Extend(r, WriteFailPortal(0));
    r := r + [WriteFailPortal(0)];
  }

  /** And one at a page's own form: the recording takes effect and errs. */
  lemma PageDelaySkipped()
    ensures exists acts, i, j :: After(acts).Some? && TooSoon(After(acts).value.log, i, j)
  {
    var p := Page(1);
    assert After([]) == Some(START);
    hide After;
    VisitVerifies([], 0, p);
    var r := [] + Visit(0, p);
    var s := After(r).value;
    var w := Write(p, 0, false);
    ErrorSkipsDelay(r, 0, w, 1);
    var run := r + [FailPageError(0, Applied)] + Visit(1, p);
    DelayCurve(1);
    assert After(run).value.log == s.log + [EventFor(s, w, false), Verified(p, 1, 0, false)];
    assert TooSoon(After(run).value.log, 1, 2);
  }

  /** Attempt 0 finds its password wrong for both portals, at time 0. */
  lemma TwoChecked(r0: seq<Action>, p: Key, q: Key) returns (r: seq<Action>)
    requires r0 == [] && p.Portal? && q.Portal? && p != q
    ensures After(r).Some?
    ensures var s := After(r).value;
      && s.now == 0 && s.rows == map[] && s.attempts == map[0 := Attempt(None, [p, q], PageForm, RecordPortals(0, 0))]
      && s.log == [Verified(p, 0, 0, false), Verified(q, 0, 0, false)]
  {
    var a0 := Arrive(0, None, [p, q], PageForm);
    assert After(r0) == Some(START);
    hide After;
    Extend(r0, a0);
    r := r0 + [a0];
    Extend(r, TakePortals(0));
    r := r + [TakePortals(0)];
    Extend(r, VerifyPortal(0, false));
    r := r + [VerifyPortal(0, false)];
    Extend(r, VerifyPortal(0, false));
    r := r + [VerifyPortal(0, false)];
  }

  /** A password that is wrong for one portal and right for the next charges neither, though
      the first was tested. */
  lemma TestedUncharged() returns (r: seq<Action>)
    ensures After(r).Some?
    ensures var s := After(r).value;
      && 0 in s.attempts && s.attempts[0].phase.Done? && !C.Erred(r, 0) && Portal(1) !in s.rows
      && C.Wrong(s.log, Portal(1), 0) && !C.Recorded(s.log, Portal(1), 0)
  {
    r := RightAfterWrong();
    hide After;
    assert C.IsWrong(After(r).value.log[0], Portal(1), 0);
  }

  lemma RightAfterWrong() returns (r: seq<Action>)
    ensures After(r).Some? && !C.Erred(r, 0)
    ensures var s := After(r).value;
      && 0 in s.attempts && s.attempts[0].phase.Done? && s.rows == map[]
      && s.log == [Verified(Portal(1), 0, 0, false), Verified(Portal(2), 0, 0, true), Cleared(Portal(2), 0, 0, false)]
  {
    r := WrongFirst();
    hide After;
    Extend(r, VerifyPortal(0, true));
    r := r + [VerifyPortal(0, true)];
    Extend(r, WriteClearPortal(0, Applied));
    r := r + [WriteClearPortal(0, Applied)];
  }

  lemma WrongFirst() returns (r: seq<Action>)
    ensures After(r).Some? && !C.Erred(r, 0)
    ensures var s := After(r).value;
      && s.attempts == map[0 := Attempt(None, [Portal(1), Portal(2)], PageForm, CheckPortals(1))]
      && s.rows == map[] && s.log == [Verified(Portal(1), 0, 0, false)] && s.now == 0
  {
    var a0 := Arrive(0, None, [Portal(1), Portal(2)], PageForm);
    r := [];
    assert After(r) == Some(START);
    hide After;
    Extend(r, a0);
    r := r + [a0];
    Extend(r, TakePortals(0));
    r := r + [TakePortals(0)];
    Extend(r, VerifyPortal(0, false));
    r := r + [VerifyPortal(0, false)];
  }
}
