/** The migrator: several runners, one session lock, one transaction a file, crashes anywhere. */
module Migrate {
  import opened JsonValue

  // ── files in apply order ──────────

  /** Go's string order. */
  predicate Less(a: Str, b: Str) {
    b != [] && (a == [] || a[0] < b[0] || (a[0] == b[0] && Less(a[1..], b[1..])))
  }

  lemma {:induction false} LessTotal(a: Str, b: Str)
    ensures Less(a, b) || Less(b, a) || a == b
    ensures !(Less(a, b) && Less(b, a)) && !Less(a, a)
  {
    if a != [] && b != [] && a[0] == b[0] {
      LessTotal(a[1..], b[1..]);
      assert a == [a[0]] + a[1..] && b == [b[0]] + b[1..];
    }
    if a != [] { LessTotal(a[1..], a[1..]); }
  }

  lemma {:induction false} LessTransitive(a: Str, b: Str, c: Str)
    requires Less(a, b) && Less(b, c)
    ensures Less(a, c)
  {
    if a != [] && a[0] == b[0] == c[0] { LessTransitive(a[1..], b[1..], c[1..]); }
  }

  ghost predicate Ascending(fs: seq<Str>) { forall i, j :: 0 <= i < j < |fs| ==> Less(fs[i], fs[j]) }

  datatype Entry = Entry(name: Str, dir: bool)

  const SQL: Str := [46, 115, 113, 108]

  predicate HasSuffix(s: Str, suffix: Str) { |s| >= |suffix| && s[|s| - |suffix|..] == suffix }

  predicate IsMigration(e: Entry) { !e.dir && HasSuffix(e.name, SQL) }

  function Insert(f: Str, fs: seq<Str>): seq<Str> {
    if fs == [] || Less(f, fs[0]) then [f] + fs else [fs[0]] + Insert(f, fs[1..])
  }

  /** Files: the *.sql names of a directory listing, sorted. */
  function Files(entries: seq<Entry>): seq<Str> {
    if entries == [] then []
    else if IsMigration(entries[0]) then Insert(entries[0].name, Files(entries[1..]))
    else Files(entries[1..])
  }

  /** A directory lists no name twice. */
  predicate Distinct(entries: seq<Entry>) {
    forall i, j :: 0 <= i < j < |entries| ==> entries[i].name != entries[j].name
  }

  lemma {:induction false} InsertHas(f: Str, fs: seq<Str>)
    ensures forall x :: x in Insert(f, fs) <==> x == f || x in fs
  {
    hide Less;
    if fs != [] && !Less(f, fs[0]) {
      InsertHas(f, fs[1..]);
      assert fs == [fs[0]] + fs[1..];
    }
  }

  lemma {:induction false} InsertAscending(f: Str, fs: seq<Str>)
    requires Ascending(fs) && f !in fs
    ensures Ascending(Insert(f, fs))
  {
    hide Less;
    if fs != [] {
      LessTotal(f, fs[0]);
      if Less(f, fs[0]) {
        forall j | 0 <= j < |fs| ensures Less(f, fs[j]) {
          if j > 0 { LessTransitive(f, fs[0], fs[j]); }
        }
      } else {
        InsertAscending(f, fs[1..]);
        InsertHas(f, fs[1..]);
        var r := Insert(f, fs[1..]);
        forall j | 0 <= j < |r| ensures Less(fs[0], r[j]) {
          assert r[j] in r;
          if r[j] != f {
            var i :| 0 <= i < |fs[1..]| && fs[1..][i] == r[j];
            assert fs[i + 1] == r[j];
          }
        }
      }
    }
  }

  /** The order is that of the first byte in which names differ, a beginning before the whole. */
  lemma {:induction false} LessIs(a: Str, b: Str)
    ensures Less(a, b) <==> exists k: nat :: FirstLess(a, b, k)
  {
    if FirstLess(a, b, 0) {
    } else if b != [] && a != [] && a[0] == b[0] {
      LessIs(a[1..], b[1..]);
      if k: nat :| FirstLess(a[1..], b[1..], k) {
        forall i | 0 < i < k + 1 ensures a[i] == b[i] { assert a[i] == a[1..][i - 1] && b[i] == b[1..][i - 1]; }
        assert FirstLess(a, b, k + 1);
      }
      if k: nat :| FirstLess(a, b, k) {
        assert k > 0 && FirstLess(a[1..], b[1..], k - 1);
      }
    }
  }

  // The names agree before k; there a ends, or has the smaller byte.
  predicate FirstLess(a: Str, b: Str, k: nat) {
    && k <= |a| && k < |b| && (forall i :: 0 <= i < k ==> a[i] == b[i])
    && (k == |a| || a[k] < b[k])
  }

  // A file, not a directory, named <base>.sql.
  ghost predicate SqlFile(e: Entry, base: Str) { !e.dir && e.name == base + [0x2E, 0x73, 0x71, 0x6C] }

  lemma MigrationIs(e: Entry)
    ensures IsMigration(e) <==> exists base :: SqlFile(e, base)
  {
    if IsMigration(e) {
      assert e.name == e.name[..|e.name| - 4] + SQL;
      assert SqlFile(e, e.name[..|e.name| - 4]);
    }
    if base :| SqlFile(e, base) { assert e.name[|e.name| - 4..] == SQL; }
  }

  /** Exactly the .sql files of the listing, in strictly ascending order. */
  lemma FilesSorted(entries: seq<Entry>)
    requires Distinct(entries)
    ensures Ascending(Files(entries))
    ensures forall f :: f in Files(entries) <==> exists e, base :: e in entries && SqlFile(e, base) && e.name == f
  {
    hide IsMigration, SqlFile, Ascending, Files;
    MigrationsSorted(entries);
    forall e ensures IsMigration(e) <==> exists base :: SqlFile(e, base) { MigrationIs(e); }
  }

  lemma {:induction false} MigrationsSorted(entries: seq<Entry>)
    requires Distinct(entries)
    ensures Ascending(Files(entries))
    ensures forall f :: f in Files(entries) <==> exists e :: e in entries && IsMigration(e) && e.name == f
  {
    hide IsMigration;
    if entries != [] {
      MigrationsSorted(entries[1..]);
      var e, more := entries[0], Files(entries[1..]);
      if IsMigration(e) {
        assert forall x :: x in entries[1..] ==> x.name != e.name;
        assert e.name !in more;
        InsertAscending(e.name, more);
        InsertHas(e.name, more);
      }
      assert forall x :: x in entries <==> x == e || x in entries[1..];
    }
  }

  // ── runners ──────────

  datatype Result = Completed | Failed | Busy

  datatype Phase =
    | Waiting
    | Creating
    | Reading
    | Listing
    | Applying
    | Unlocking(result: Result)
    | Ended(result: Result)
    // The process is gone; its session, with a script possibly still in flight, is not yet.
    | Orphaned(inFlight: bool)
    | Dead

  datatype Runner = Runner(phase: Phase, done: set<Str>, files: seq<Str>, next: nat, applied: nat)

  datatype Effect = Effect(run: nat, file: Str)

  datatype State = State(
    lock: Option<nat>,
    table: bool,
    tracked: set<Str>,
    effects: seq<Effect>,
    runners: map<nat, Runner>)

  const START := State(None, false, {}, [], map[])

  datatype Action =
    | Start(r: nat)
    | Lock(r: nat)
    | GiveUp(r: nat)
    | Create(r: nat)
    | Read(r: nat)
    | List(r: nat, entries: seq<Entry>)
    | Skip(r: nat)
    | Commit(r: nat, reported: bool)
    | Fail(r: nat)
    | Finish(r: nat)
    | Unlock(r: nat)
    | Crash(r: nat)
    | LateCommit(r: nat)
    | SessionEnds(r: nat)

  predicate AtFile(n: Runner) { n.next < |n.files| }

  /** The script's INSERT would break the primary key of a tracked file. */
  predicate CanCommit(s: State, n: Runner) { AtFile(n) && s.table && n.files[n.next] !in s.tracked }

  predicate Enabled(s: State, act: Action) {
    if act.Start? then act.r !in s.runners
    else
      && act.r in s.runners
      && var n := s.runners[act.r];
      match act
      case Lock(_) => n.phase.Waiting? && s.lock.None?
      case GiveUp(_) => n.phase.Waiting?
      case Create(_) => n.phase.Creating?
      case Read(_) => n.phase.Reading?
      case List(_, entries) => n.phase.Listing? && Distinct(entries)
      case Skip(_) => n.phase.Applying? && AtFile(n) && n.files[n.next] in n.done
      case Commit(_, _) => n.phase.Applying? && AtFile(n) && n.files[n.next] !in n.done && CanCommit(s, n)
      case Fail(_) => n.phase.Creating? || n.phase.Reading? || n.phase.Listing? || n.phase.Applying?
      case Finish(_) => n.phase.Applying? && n.next == |n.files|
      case Unlock(_) => n.phase.Unlocking?
      case Crash(_) => !n.phase.Ended? && !n.phase.Orphaned? && !n.phase.Dead?
      case LateCommit(_) => n.phase.Orphaned? && n.phase.inFlight && CanCommit(s, n)
      case SessionEnds(_) => n.phase.Orphaned?
      case _ => false
  }

  function Put(s: State, r: nat, n: Runner): State { s.(runners := s.runners[r := n]) }

  function Unlocked(s: State, r: nat): State { if s.lock == Some(r) then s.(lock := None) else s }

  /** One file's transaction: its effect and its tracking row together. */
  function Committed(s: State, r: nat, f: Str): State {
    s.(tracked := s.tracked + {f}, effects := s.effects + [Effect(r, f)])
  }

  function Apply(s: State, act: Action): State
    requires Enabled(s, act)
  {
    if act.Start? then Put(s, act.r, Runner(Waiting, {}, [], 0, 0))
    else
      var r := act.r;
      var n := s.runners[r];
      match act
      case Lock(_) => Put(s.(lock := Some(r)), r, n.(phase := Creating))
      case GiveUp(_) => Put(s, r, n.(phase := Ended(Busy)))
      case Create(_) => Put(s.(table := true), r, n.(phase := Reading))
      case Read(_) => Put(s, r, n.(phase := Listing, done := s.tracked))
      case List(_, entries) => Put(s, r, n.(phase := Applying, files := Files(entries)))
      case Skip(_) => Put(s, r, n.(next := n.next + 1))
      case Commit(_, reported) =>
        Put(Committed(s, r, n.files[n.next]), r,
            if reported then n.(next := n.next + 1, applied := n.applied + 1) else n.(phase := Unlocking(Failed)))
      case Fail(_) => Put(s, r, n.(phase := Unlocking(Failed)))
      case Finish(_) => Put(s, r, n.(phase := Unlocking(Completed)))
      case Unlock(_) => Put(Unlocked(s, r), r, n.(phase := Ended(n.phase.result)))
      case Crash(_) => Put(s, r, n.(phase := Orphaned(n.phase.Applying? && AtFile(n) && n.files[n.next] !in n.done)))
      case LateCommit(_) => Put(Committed(s, r, n.files[n.next]), r, n.(phase := Orphaned(false)))
      case SessionEnds(_) => Put(Unlocked(s, r), r, n.(phase := Dead))
      case _ => s
  }

  function After(acts: seq<Action>): Option<State> {
    if acts == [] then Some(START)
    else
      var last := acts[|acts| - 1];
      match After(acts[..|acts| - 1])
      case None => None
      case Some(s) => if Enabled(s, last) then Some(Apply(s, last)) else None
  }

  // ── the invariant ──────────

  predicate Holding(p: Phase) { p.Creating? || p.Reading? || p.Listing? || p.Applying? || p.Unlocking? }

  predicate Started(p: Phase) { p.Applying? || (p.Orphaned? && p.inFlight) }

  predicate Early(p: Phase) { p.Waiting? || p.Creating? || p.Reading? || p.Listing? }

  function Names(fs: seq<Str>): set<Str> { set f | f in fs }

  ghost predicate RunnerOk(s: State, r: nat)
    requires r in s.runners
  {
    var n := s.runners[r];
    // Only the lock's owner is past taking it.
    && (Holding(n.phase) ==> s.lock == Some(r))
    && (n.phase.Orphaned? && n.phase.inFlight ==> s.lock == Some(r))
    && n.next <= |n.files| && Ascending(n.files)
    && (n.phase.Reading? || n.phase.Listing? || Started(n.phase) ==> s.table)
    // What it read is still the truth, but for what it added itself.
    && (Early(n.phase) ==> n.next == 0 && n.files == [])
    && (n.phase.Listing? ==> s.tracked == n.done)
    && (Started(n.phase) ==> s.tracked == n.done + Names(n.files[..n.next]))
    && (Started(n.phase) && n.phase.Orphaned? ==> AtFile(n) && n.files[n.next] !in n.done)
    && ((n.phase == Unlocking(Completed) || n.phase == Ended(Completed)) ==>
          forall f :: f in n.files ==> f in s.tracked)
    && n.done <= s.tracked
  }

  ghost predicate EffectOk(s: State, e: Effect) {
    && e.run in s.runners
    && var n := s.runners[e.run];
    && e.file in n.files && e.file !in n.done
    && (Started(n.phase) ==> n.next <= |n.files| && e.file in n.files[..n.next])
    && !Early(n.phase)
  }

  predicate InOrder(e: Effect, f: Effect) { e.file != f.file && (e.run == f.run ==> Less(e.file, f.file)) }

  predicate LockOk(s: State) {
    s.lock.Some? ==>
      && s.lock.value in s.runners
      && (Holding(s.runners[s.lock.value].phase) || s.runners[s.lock.value].phase.Orphaned?)
  }

  ghost predicate Inv(s: State) {
    && LockOk(s)
    && (forall r :: r in s.runners ==> RunnerOk(s, r))
    && (forall i :: 0 <= i < |s.effects| ==> EffectOk(s, s.effects[i]))
    && (forall i, j :: 0 <= i < j < |s.effects| ==> InOrder(s.effects[i], s.effects[j]))
    && s.tracked == (set e | e in s.effects :: e.file)
  }

  lemma RunnersKept(s: State, act: Action)
    requires Inv(s) && Enabled(s, act)
    ensures forall r :: r in Apply(s, act).runners ==> RunnerOk(Apply(s, act), r)
  {
    hide Apply, Enabled, RunnerOk, EffectOk, InOrder;
    RunnersAre(s, act);
    forall r | r in Apply(s, act).runners ensures RunnerOk(Apply(s, act), r) {
      if r == act.r { OwnRunner(s, act); } else { OtherRunner(s, act, r); }
    }
  }

  lemma RunnersAre(s: State, act: Action)
    requires Enabled(s, act)
    ensures forall r :: r in Apply(s, act).runners <==> r in s.runners || r == act.r
  {
    hide Files, Distinct;
  }

  lemma OtherRunner(s: State, act: Action, r: nat)
    requires Enabled(s, act) && r in s.runners && r != act.r && RunnerOk(s, r) &&
      (act.r in s.runners ==> RunnerOk(s, act.r))
    ensures r in Apply(s, act).runners && RunnerOk(Apply(s, act), r)
  {
    hide Ascending, Names, Files, Distinct;
  }

  lemma OwnRunner(s: State, act: Action)
    requires Enabled(s, act) && (act.r in s.runners ==> RunnerOk(s, act.r))
    ensures act.r in Apply(s, act).runners && RunnerOk(Apply(s, act), act.r)
  {
    if act.Start? || act.List? || act.Finish? {
      OwnBounds(s, act);
    } else if act.Skip? || act.Commit? || act.LateCommit? || act.Crash? {
      OwnFile(s, act);
    } else {
      hide Ascending, IsMigration, Files, Distinct;
    }
  }

  lemma OwnFile(s: State, act: Action)
    requires Enabled(s, act) && (act.Skip? || act.Commit? || act.LateCommit? || act.Crash?) && RunnerOk(s, act.r)
    ensures act.r in Apply(s, act).runners && RunnerOk(Apply(s, act), act.r)
  {
    NextTaken(s, act);
    hide Ascending, Names, Files, Distinct;
  }

  lemma OwnBounds(s: State, act: Action)
    requires Enabled(s, act) && (act.Start? || act.List? || act.Finish?) && (act.r in s.runners ==> RunnerOk(s, act.r))
    ensures act.r in Apply(s, act).runners && RunnerOk(Apply(s, act), act.r)
  {
    NothingAscending();
    hide Ascending, IsMigration;
    if act.List? { FilesSorted(act.entries); }
    hide Files, Distinct;
    if act.Finish? { assert s.runners[act.r].files[..s.runners[act.r].next] == s.runners[act.r].files; }
  }

  lemma NothingAscending()
    ensures Ascending([])
  {}

  lemma NextTaken(s: State, act: Action)
    requires Enabled(s, act)
    ensures act.r in s.runners && AtFile(s.runners[act.r]) ==>
      var n := s.runners[act.r];
      Names(n.files[..n.next + 1]) == Names(n.files[..n.next]) + {n.files[n.next]}
  {
    if act.r in s.runners && AtFile(s.runners[act.r]) {
      var n := s.runners[act.r];
      assert n.files[..n.next + 1] == n.files[..n.next] + [n.files[n.next]];
    }
  }

  lemma LockKept(s: State, act: Action)
    requires Inv(s) && Enabled(s, act)
    ensures LockOk(Apply(s, act))
  {
    hide EffectOk, InOrder, Ascending, Files, Names;
    if act.r in s.runners { assert RunnerOk(s, act.r); }
  }

  /** The effect a step commits, if any. */
  function Committing(s: State, act: Action): Option<Effect>
    requires Enabled(s, act)
  {
    if act.Commit? || act.LateCommit? then Some(Effect(act.r, s.runners[act.r].files[s.runners[act.r].next])) else None
  }

  lemma EffectsAre(s: State, act: Action)
    requires Enabled(s, act)
    ensures var t := Apply(s, act);
            var e := Committing(s, act);
      && t.effects == (if e.Some? then s.effects + [e.value] else s.effects)
      && t.tracked == (if e.Some? then s.tracked + {e.value.file} else s.tracked)
      && (e.Some? ==> e.value.file !in s.tracked)
      && (forall r :: r in s.runners ==> r in t.runners && (r != act.r ==> t.runners[r] == s.runners[r]))
  {
    hide Files, Distinct;
  }

  lemma OldEffect(s: State, act: Action, e: Effect)
    requires Inv(s) && Enabled(s, act) && EffectOk(s, e)
    ensures EffectOk(Apply(s, act), e)
  {
    assert RunnerOk(s, e.run);
    RunnersAre(s, act);
    EffectsAre(s, act);
    if e.run == act.r {
      hide Inv;
      OwnEffect(s, act, e);
    } else {
      hide Apply, Enabled, RunnerOk, Inv;
    }
  }

  lemma OwnEffect(s: State, act: Action, e: Effect)
    requires Enabled(s, act) && EffectOk(s, e) && RunnerOk(s, e.run) && e.run == act.r
    ensures EffectOk(Apply(s, act), e)
  {
    hide Less, IsMigration, InOrder, Files, Ascending, Distinct;
    if act.Skip? || act.Commit? {
      var n := s.runners[e.run];
      assert n.files[..n.next + 1] == n.files[..n.next] + [n.files[n.next]];
    }
  }

  lemma NewEffect(s: State, act: Action)
    requires Inv(s) && Enabled(s, act) && Committing(s, act).Some?
    ensures EffectOk(Apply(s, act), Committing(s, act).value)
    ensures forall i :: 0 <= i < |s.effects| ==> InOrder(s.effects[i], Committing(s, act).value)
  {
    hide Less, IsMigration, Files;
    var n := s.runners[act.r];
    var e := Committing(s, act).value;
    assert RunnerOk(s, act.r);
    assert n.files[..n.next + 1] == n.files[..n.next] + [n.files[n.next]];
    forall i | 0 <= i < |s.effects| ensures InOrder(s.effects[i], e) {
      var f := s.effects[i];
      assert EffectOk(s, f) && f.file in s.tracked;
      if f.run == act.r {
        var j :| 0 <= j < n.next && n.files[..n.next][j] == f.file;
        assert n.files[j] == f.file;
      }
    }
  }

  lemma InvKept(s: State, act: Action)
    requires Inv(s) && Enabled(s, act)
    ensures Inv(Apply(s, act))
  {
    var t := Apply(s, act);
    RunnersKept(s, act);
    LockKept(s, act);
    EffectsAre(s, act);
    if Committing(s, act).Some? { NewEffect(s, act); }
    hide Apply, Enabled, RunnerOk, EffectOk, InOrder;
    forall i | 0 <= i < |t.effects| ensures EffectOk(t, t.effects[i]) {
      if i < |s.effects| { OldEffect(s, act, s.effects[i]); }
    }
    forall i, j | 0 <= i < j < |t.effects| ensures InOrder(t.effects[i], t.effects[j]) {
      if j < |s.effects| { assert InOrder(s.effects[i], s.effects[j]); }
    }
    assert forall e :: e in t.effects <==> e in s.effects || Committing(s, act) == Some(e);
  }

  lemma StartOk()
    ensures Inv(START)
  {}

  lemma {:induction false} InvAlways(acts: seq<Action>)
    requires After(acts).Some?
    ensures Inv(After(acts).value)
    decreases |acts|
  {
    hide Inv, Apply, Enabled;
    if acts == [] {
      StartOk();
    } else {
      InvAlways(acts[..|acts| - 1]);
      InvKept(After(acts[..|acts| - 1]).value, acts[|acts| - 1]);
    }
  }

  // ── what every run keeps ──────────

  /** MAIN: under any number of runners and crashes each file takes effect at most once,
      and the tracking rows are exactly the files that took effect. */
  lemma AtMostOnce(acts: seq<Action>)
    requires After(acts).Some?
    ensures var s := After(acts).value;
      && (forall i, j :: 0 <= i < j < |s.effects| ==> s.effects[i].file != s.effects[j].file)
      && s.tracked == (set e | e in s.effects :: e.file)
  {
    InvAlways(acts);
    var s := After(acts).value;
    forall i, j | 0 <= i < j < |s.effects| ensures s.effects[i].file != s.effects[j].file {
      assert InOrder(s.effects[i], s.effects[j]);
    }
  }

  /** MAIN: one run applies its files in file-name order. */
  lemma RunInOrder(acts: seq<Action>, i: nat, j: nat)
    requires After(acts).Some? && i < j < |After(acts).value.effects|
    ensures var es := After(acts).value.effects;
      es[i].run == es[j].run ==> Less(es[i].file, es[j].file)
  {
    InvAlways(acts);
    assert InOrder(After(acts).value.effects[i], After(acts).value.effects[j]);
  }

  /** MAIN: a run that ends completed leaves every file it listed applied. */
  lemma CompletedMeansApplied(acts: seq<Action>, r: nat)
    requires After(acts).Some? && r in After(acts).value.runners &&
      After(acts).value.runners[r].phase == Ended(Completed)
    ensures var s := After(acts).value;
      forall f :: f in s.runners[r].files ==> f in s.tracked && exists e :: e in s.effects && e.file == f
  {
    InvAlways(acts);
    assert RunnerOk(After(acts).value, r);
  }

  /** At most one runner is between taking the lock and giving it back. */
  lemma OneAtATime(acts: seq<Action>, q: nat, r: nat)
    requires After(acts).Some? && q in After(acts).value.runners && r in After(acts).value.runners
    requires Holding(After(acts).value.runners[q].phase) && Holding(After(acts).value.runners[r].phase)
    ensures q == r
  {
    InvAlways(acts);
    assert RunnerOk(After(acts).value, q) && RunnerOk(After(acts).value, r);
  }

  /** What the lock is for: whoever is at a file it did not find applied, even a dead
      runner whose script is still in flight, can commit it.  No run fails because another
      tracked the file first. */
  lemma NeverBlocked(acts: seq<Action>, r: nat)
    requires After(acts).Some? && r in After(acts).value.runners
    requires var n := After(acts).value.runners[r];
      Started(n.phase) && AtFile(n) && n.files[n.next] !in n.done
    ensures CanCommit(After(acts).value, After(acts).value.runners[r])
  {
    InvAlways(acts);
    var s := After(acts).value;
    var n := s.runners[r];
    assert RunnerOk(s, r);
    var f := n.files[n.next];
    forall i | 0 <= i < n.next ensures n.files[i] != f { LessTotal(n.files[i], f); }
    assert f !in Names(n.files[..n.next]);
  }

  // ── running again ──────────

  /** Run b has not read the tracking table yet, or read it when these files were there. */
  ghost predicate KnowsAll(t: State, fs: set<Str>, b: nat) {
    && fs <= t.tracked
    && (b in t.runners ==> BeforeRead(t.runners[b].phase) || fs <= t.runners[b].done || NeverRead(t.runners[b]))
  }

  predicate BeforeRead(p: Phase) { p.Waiting? || p.Creating? || p.Reading? }

  // A run that failed or died before reading lists nothing and applies nothing.
  predicate NeverRead(n: Runner) {
    n.files == [] && (n.phase.Unlocking? || n.phase.Ended? || n.phase == Orphaned(false) || n.phase.Dead?)
  }

  lemma {:induction false} StillKnows(acts: seq<Action>, more: seq<Action>, fs: set<Str>, b: nat)
    requires After(acts).Some? && After(acts + more).Some? && KnowsAll(After(acts).value, fs, b)
    ensures KnowsAll(After(acts + more).value, fs, b)
    decreases |more|
  {
    if more == [] {
      assert acts + more == acts;
    } else {
      var last := more[|more| - 1];
      var front := more[..|more| - 1];
      assert (acts + more)[..|acts + more| - 1] == acts + front && (acts + more)[|acts + more| - 1] == last;
      StillKnows(acts, front, fs, b);
      InvAlways(acts + front);
      var s := After(acts + front).value;
      EffectsAre(s, last);
      if b in s.runners { assert RunnerOk(s, b); }
      hide Files, Distinct, Ascending, EffectOk, InOrder, Names;
      StepKnows(s, last, fs, b);
    }
  }

  lemma StepKnows(s: State, act: Action, fs: set<Str>, b: nat)
    requires Enabled(s, act) && KnowsAll(s, fs, b) && (b in s.runners ==> RunnerOk(s, b))
    ensures KnowsAll(Apply(s, act), fs, b)
  {
    hide Files, Distinct, Ascending, Names;
  }

  /** MAIN: once files are applied, any run that reads the tracking table afterwards
      applies none of them: running again with nothing new changes nothing. */
  lemma RunAgainChangesNothing(acts: seq<Action>, more: seq<Action>, b: nat)
    requires After(acts).Some? && After(acts + more).Some?
    requires b in After(acts).value.runners ==> BeforeRead(After(acts).value.runners[b].phase)
    requires b in After(acts + more).value.runners
      && forall f :: f in After(acts + more).value.runners[b].files ==> f in After(acts).value.tracked
    ensures forall e :: e in After(acts + more).value.effects ==> e.run != b
  {
    var fs := After(acts).value.tracked;
    StillKnows(acts, more, fs, b);
    InvAlways(acts + more);
    var t := After(acts + more).value;
    forall e | e in t.effects ensures e.run != b {
      assert EffectOk(t, e);
    }
  }

  /** A process may die wherever its run stands.  When its session ends its lock is free, and
      nothing more has been applied. */
  lemma CrashRecovers(acts: seq<Action>, r: nat)
    requires After(acts).Some?
    requires r in After(acts).value.runners
    requires var p := After(acts).value.runners[r].phase; Holding(p) || p.Waiting?
    ensures var s := After(acts).value;
            var ended := After(acts + [Crash(r)] + [SessionEnds(r)]);
      && ended.Some? && ended.value.effects == s.effects && ended.value.tracked == s.tracked
      && ended.value.lock == (if s.lock == Some(r) then None else s.lock)
      && (Holding(s.runners[r].phase) ==> s.lock == Some(r))
  {
    InvAlways(acts);
    var s := After(acts).value;
    assert RunnerOk(s, r);
    hide Inv, RunnerOk, Files, Distinct;
    assert (acts + [Crash(r)])[..|acts|] == acts;
    assert After(acts + [Crash(r)]).Some?;
    var t := After(acts + [Crash(r)]).value;
    assert t.lock == s.lock && t.runners[r].phase.Orphaned?;
    assert (acts + [Crash(r)] + [SessionEnds(r)])[..|acts| + 1] == acts + [Crash(r)];
  }
}
