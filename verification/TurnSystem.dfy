/** Password attempts as steps: turns, failure counters, delayed release, a clock. */
module TurnSystem {
  import opened JsonValue

  const BASE_DELAY := 500
  const MAX_DELAY := 8000
  const WINDOW := 15 * 60 * 1000

  /** A credential: a page's own password or a portal's. */
  datatype Key = Page(id: nat) | Portal(id: nat)

  /** DelayForFailures, in milliseconds: 500, 1000, 2000, 4000, 8000, 8000, ... */
  function Delay(failures: int): nat {
    if failures <= 0 then 0
    else if failures > 5 then MAX_DELAY
    else
      var shifted := Doubled(BASE_DELAY, failures - 1);
      if shifted < MAX_DELAY then shifted else MAX_DELAY
  }

  function Doubled(n: nat, k: nat): nat
    decreases k
  {
    if k == 0 then n else Doubled(2 * n, k - 1)
  }

  datatype Row = Row(count: nat, last: nat)

  /** recordSQL: a quiet window starts the count again. */
  function Charged(row: Option<Row>, now: nat): Row {
    if row.None? || row.value.last + WINDOW < now then Row(1, now) else Row(row.value.count + 1, now)
  }

  /** One taking of turns: an attempt holds its page's turn apart from its portals'. */
  datatype Holder = Holder(attempt: nat, page: bool)

  // A late write took effect after its attempt had stopped waiting for it.
  datatype Event =
    | Verified(key: Key, who: nat, at: nat, ok: bool)
    | Failed(key: Key, who: nat, at: nat, count: nat, late: bool)
    | Cleared(key: Key, who: nat, at: nat, late: bool)
  {
    predicate Late() { !Verified? && late }

    function By(): Holder { Holder(who, key.Page?) }
  }

  /** An attempt's write to a counter: a clear, or the recording of a failure. */
  datatype Write = Write(key: Key, who: nat, clear: bool)

  /** What became of a write whose five seconds ran out, or that failed: nothing, its
      effect without its answer, or an effect still to come. */
  datatype Outcome = Lost | Applied | Overdue

  datatype Door = PageForm | PortalForm

  datatype Phase =
    | WaitPage
    | CheckPage
    | ClearPage
    | RecordPage
    | HoldPage(delay: nat)
    | WaitPortals
    | CheckPortals(next: nat)
    | ClearPortal(matched: nat)
    | RecordPortals(next: nat, worst: nat)
    | Sleeping(hold: nat, since: nat)
    | Done

  datatype Attempt = Attempt(page: Option<Key>, portals: seq<Key>, door: Door, phase: Phase)

  datatype State = State(
    now: nat,
    held: map<Key, Holder>,
    timers: map<Holder, nat>,
    rows: map<Key, Row>,
    attempts: map<nat, Attempt>,
    log: seq<Event>,
    // Writes nobody waits for any more, that the database may still carry out.
    pending: set<Write>,
    // Takings an erring recording ended although a failure stood recorded under them.
    cut: set<Holder>)

  const START := State(0, map[], map[], map[], map[], [], {}, {})

  // ── turns ──────────

  predicate Free(held: map<Key, Holder>, keys: seq<Key>) { forall k :: k in keys ==> k !in held }

  /** tryTake: every key at once. */
  function Take(held: map<Key, Holder>, keys: seq<Key>, h: Holder): map<Key, Holder> {
    map k | k in held.Keys + (set x | x in keys) :: if k in keys then h else held[k]
  }

  /** give, once per taking. */
  function Give(held: map<Key, Holder>, h: Holder): map<Key, Holder> {
    map k | k in held && held[k] != h :: held[k]
  }

  // ── steps ──────────

  datatype Action =
    | Tick(ms: nat)
    | Arrive(a: nat, page: Option<Key>, portals: seq<Key>, door: Door)
    | GiveUp(a: nat)
    | TakePage(a: nat)
    | VerifyPage(a: nat, ok: bool)
    | WriteClearPage(a: nat, o: Outcome)
    | WriteFailPage(a: nat)
    | FailPageError(a: nat, o: Outcome)
    | ReleasePageLater(a: nat)
    | TakePortals(a: nat)
    | VerifyPortal(a: nat, ok: bool)
    | WriteClearPortal(a: nat, o: Outcome)
    | WriteFailPortal(a: nat)
    | FailPortalError(a: nat, o: Outcome)
    | HoldPortals(a: nat)
    | Wake(a: nat)
    | Fire(h: Holder)
    | Land(w: Write)

  predicate WellFormed(page: Option<Key>, portals: seq<Key>, door: Door) {
    && (page.Some? ==> page.value.Page?)
    && (forall k :: k in portals ==> k.Portal?)
    && (forall i, j :: 0 <= i < j < |portals| ==> portals[i] != portals[j])
    && (page.Some? || portals != [])
    && (door.PortalForm? ==> page.None? && |portals| == 1)
  }

  // The steps that are no attempt's own.
  predicate Outside(act: Action) { act.Tick? || act.Fire? || act.Land? }

  predicate Enabled(s: State, act: Action) {
    match act
    case Tick(_) => true
    case Arrive(a, page, portals, door) => a !in s.attempts && WellFormed(page, portals, door)
    case Fire(h) => h in s.timers && s.timers[h] <= s.now
    case Land(w) => w in s.pending
    case _ =>
      && act.a in s.attempts
      && var at := s.attempts[act.a];
      match act
      case GiveUp(_) => at.phase.WaitPage? || at.phase.WaitPortals?
      case TakePage(_) => at.phase.WaitPage? && at.page.Some? && Free(s.held, [at.page.value])
      case VerifyPage(_, _) => at.phase.CheckPage? && at.page.Some?
      case WriteClearPage(_, _) => at.phase.ClearPage? && at.page.Some?
      case WriteFailPage(_) => at.phase.RecordPage? && at.page.Some?
      case FailPageError(_, _) => at.phase.RecordPage? && at.page.Some?
      case ReleasePageLater(_) => at.phase.HoldPage?
      case TakePortals(_) => at.phase.WaitPortals? && at.portals != [] && Free(s.held, at.portals)
      case VerifyPortal(_, _) => at.phase.CheckPortals? && at.phase.next < |at.portals|
      case WriteClearPortal(_, _) => at.phase.ClearPortal? && at.phase.matched < |at.portals|
      case WriteFailPortal(_) => at.phase.RecordPortals? && at.phase.next < |at.portals|
      case FailPortalError(_, _) => at.phase.RecordPortals? && at.phase.next < |at.portals|
      case HoldPortals(_) => at.phase.RecordPortals? && at.phase.next == |at.portals|
      case Wake(_) => at.phase.Sleeping?
      case _ => false
  }

  function Go(s: State, a: nat, p: Phase): (t: State)
    requires a in s.attempts
    ensures t == s.(attempts := t.attempts) && t.attempts.Keys == s.attempts.Keys
  {
    s.(attempts := s.attempts[a := s.attempts[a].(phase := p)])
  }

  function Log(s: State, e: Event): State { s.(log := s.log + [e]) }

  function RowOf(rows: map<Key, Row>, k: Key): Option<Row> { if k in rows then Some(rows[k]) else None }

  /** RecordFailure or RecordPortalFailure: charge the counter. */
  function Charge(s: State, a: nat, k: Key, late: bool): State {
    var row := Charged(RowOf(s.rows, k), s.now);
    Log(s.(rows := s.rows[k := row]), Failed(k, a, s.now, row.count, late))
  }

  /** ClearFailures or ClearPortalFailures. */
  function Wipe(s: State, a: nat, k: Key, late: bool): State {
    Log(s.(rows := s.rows - {k}), Cleared(k, a, s.now, late))
  }

  function Effect(s: State, w: Write, late: bool): (t: State)
    ensures t == s.(rows := t.rows, log := t.log)
  {
    if w.clear then Wipe(s, w.who, w.key, late) else Charge(s, w.who, w.key, late)
  }

  function Settle(s: State, w: Write, o: Outcome): (t: State)
    ensures t == s.(rows := t.rows, log := t.log, pending := t.pending)
  {
    match o
    case Lost => s
    case Applied => Effect(s, w, false)
    case Overdue => s.(pending := s.pending + {w})
  }

  function Cut(s: State, h: Holder, charged: bool): (t: State)
    ensures t == s.(cut := t.cut) && s.cut <= t.cut && (charged ==> h in t.cut)
  {
    if charged then s.(cut := s.cut + {h}) else s
  }

  /** attemptTurn.done: now, or when what is left of the hold has passed. */
  function Release(s: State, h: Holder, hold: nat, since: nat): (t: State)
    ensures t == s.(held := t.held, timers := t.timers)
  {
    if hold == 0 || since + hold <= s.now then s.(held := Give(s.held, h))
    else s.(timers := s.timers[h := since + hold])
  }

  function AfterPage(at: Attempt): Phase { if at.portals != [] then WaitPortals else Done }

  function Apply(s: State, act: Action): State
    requires Enabled(s, act)
  {
    match act
    case Tick(ms) => s.(now := s.now + ms)
    case Arrive(a, page, portals, door) =>
      s.(attempts := s.attempts[a := Attempt(page, portals, door, if page.Some? then WaitPage else WaitPortals)])
    case GiveUp(a) => Go(s, a, Done)
    case TakePage(a) => Go(s.(held := Take(s.held, [s.attempts[a].page.value], Holder(a, true))), a, CheckPage)
    case VerifyPage(a, ok) =>
      Go(Log(s, Verified(s.attempts[a].page.value, a, s.now, ok)), a, if ok then ClearPage else RecordPage)
    case WriteClearPage(a, o) =>
      Go(Release(Settle(s, Write(s.attempts[a].page.value, a, true), o), Holder(a, true), 0, 0), a, Done)
    case WriteFailPage(a) =>
      var k := s.attempts[a].page.value;
      Go(Charge(s, a, k, false), a, HoldPage(Delay(Charged(RowOf(s.rows, k), s.now).count)))
    case FailPageError(a, o) =>
      var t := Settle(s, Write(s.attempts[a].page.value, a, false), o);
      Go(Release(Cut(t, Holder(a, true), o.Applied?), Holder(a, true), 0, 0), a, Done)
    case ReleasePageLater(a) =>
      Go(Release(s, Holder(a, true), s.attempts[a].phase.delay, s.now), a, AfterPage(s.attempts[a]))
    case TakePortals(a) => Go(s.(held := Take(s.held, s.attempts[a].portals, Holder(a, false))), a, CheckPortals(0))
    case VerifyPortal(a, ok) =>
      var at := s.attempts[a];
      var i := at.phase.next;
      Go(Log(s, Verified(at.portals[i], a, s.now, ok)), a,
         if ok then ClearPortal(i) else if i + 1 < |at.portals| then CheckPortals(i + 1) else RecordPortals(0, 0))
    case WriteClearPortal(a, o) =>
      var at := s.attempts[a];
      Go(Release(Settle(s, Write(at.portals[at.phase.matched], a, true), o), Holder(a, false), 0, 0), a, Done)
    case WriteFailPortal(a) =>
      var at := s.attempts[a];
      var k := at.portals[at.phase.next];
      var d := Delay(Charged(RowOf(s.rows, k), s.now).count);
      Go(Charge(s, a, k, false), a, RecordPortals(at.phase.next + 1, if d > at.phase.worst then d else at.phase.worst))
    case FailPortalError(a, o) =>
      var at := s.attempts[a];
      var t := Settle(s, Write(at.portals[at.phase.next], a, false), o);
      Go(Release(Cut(t, Holder(a, false), o.Applied? || at.phase.next > 0), Holder(a, false), 0, 0), a, Done)
    case HoldPortals(a) =>
      var worst := s.attempts[a].phase.worst;
      if s.attempts[a].door.PortalForm? then Go(s, a, Sleeping(worst, s.now))
      else Go(Release(s, Holder(a, false), worst, s.now), a, Done)
    case Wake(a) =>
      var p := s.attempts[a].phase;
      Go(Release(s, Holder(a, false), p.hold, p.since), a, Done)
    case Fire(h) => s.(held := Give(s.held, h), timers := s.timers - {h})
    case Land(w) => Effect(s.(pending := s.pending - {w}), w, true)
  }

  /** Where these actions lead from the start, if each is enabled in turn. */
  function After(acts: seq<Action>): Option<State> {
    if acts == [] then Some(START)
    else
      var last := acts[|acts| - 1];
      match After(acts[..|acts| - 1])
      case None => None
      case Some(s) => if Enabled(s, last) then Some(Apply(s, last)) else None
  }

  // ── histories ──────────

  /** The latest event on a credential, late writes apart. */
  function LastOn(log: seq<Event>, k: Key): Option<Event> {
    if log == [] then None
    else if log[|log| - 1].key == k && !log[|log| - 1].Late() then Some(log[|log| - 1])
    else LastOn(log[..|log| - 1], k)
  }

  /** What the counter table says once these events have happened. */
  function Replay(log: seq<Event>, k: Key): Option<Row> {
    if log == [] then None
    else
      var before := Replay(log[..|log| - 1], k);
      match log[|log| - 1]
      case Failed(key, _, at, _, _) => if key == k then Some(Charged(before, at)) else before
      case Cleared(key, _, _, _) => if key == k then None else before
      case _ => before
  }

  predicate VerifiedBy(e: Option<Event>, k: Key, a: nat, ok: bool) {
    e.Some? && e.value.Verified? && e.value.key == k && e.value.who == a && e.value.ok == ok
  }
}
