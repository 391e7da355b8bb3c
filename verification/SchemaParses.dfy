/** What Parse returns, node by node, in terms of the values themselves and of the parts'
    own Parse. */
module SchemaParses {
  import opened JsonValue
  import opened SchemaAst
  import opened SchemaRun
  import opened SchemaAccept
  import opened SchemaTheorems
  import opened SchemaOutput
  import opened SchemaKeeps
  import opened SchemaTools

  // ── checks ──────────

  /** What a check asks of a value.  A length check asks nothing of a value without a length;
      the others take a value of another type for their type's zero. */
  ghost predicate Satisfies(e: Engine, c: Check, v: Json) {
    match c
    case MinLen(b) => (v.String? ==> b <= e.runes(v.s) as real) && (v.Array? ==> b <= |v.elems| as real)
    case MaxLen(b) => (v.String? ==> e.runes(v.s) as real <= b) && (v.Array? ==> |v.elems| as real <= b)
    case LenEq(b) => (v.String? ==> e.runes(v.s) as real == b) && (v.Array? ==> |v.elems| as real == b)
    case Pattern(_, source) => e.matches(source, if v.String? then v.s else [])
    case Url => e.isURL(if v.String? then v.s else [])
    case Refine(f) => f(v)
    case Int => v.Number? ==> !v.n.Inf? && SafeWhole(Val(v.n))
    case Gt(b) => if v.Number? then Exceeds(v.n, b) else 0.0 > b
    case Gte(b) => if v.Number? then !Below(v.n, b) else 0.0 >= b
    case Lte(b) => if v.Number? then !Exceeds(v.n, b) else 0.0 <= b
  }

  // A whole number a double can count to: at most 2^53 - 1 either way.
  predicate SafeWhole(r: real) { r == r.Floor as real && -9007199254740991 <= r.Floor <= 9007199254740991 }

  predicate Exceeds(n: Num, b: real) { if n.Inf? then !n.neg else Val(n) > b }

  predicate Below(n: Num, b: real) { if n.Inf? then n.neg else Val(n) < b }

  lemma CheckIs(e: Engine, c: Check, v: Json)
    ensures CheckPasses(e, c, Present(v)) <==> Satisfies(e, c, v)
  {
    assert Val(Zero(false)) == 0.0;
    hide Val;
    match c
    case Int => IntIs(e, v);
    case _ =>
  }

  lemma IntIs(e: Engine, v: Json)
    ensures CheckPasses(e, Int, Present(v)) <==> Satisfies(e, Int, v)
  {
    assert Val(Zero(false)) == 0.0;
    hide Val;
    if v.Number? && !v.n.Inf? { assert Integral(v.n) <==> Val(v.n) == Val(v.n).Floor as real; }
  }

  ghost predicate AllSatisfied(e: Engine, cs: seq<Check>, v: Json) { forall c :: c in cs ==> Satisfies(e, c, v) }

  lemma ChecksAre(e: Engine, cs: seq<Check>, v: Json)
    ensures AllPass(e, cs, Present(v)) <==> AllSatisfied(e, cs, v)
  {
    hide CheckPasses, Satisfies;
    forall c | c in cs ensures CheckPasses(e, c, Present(v)) <==> Satisfies(e, c, v) { CheckIs(e, c, v); }
  }

  // A number that is not whole fails the int check for good.
  predicate Stops(c: Check, v: Json) { c.Int? && v.Number? && !v.n.Inf? && Val(v.n) != Val(v.n).Floor as real }

  ghost function Failures(e: Engine, cs: seq<Check>, v: Json): nat {
    if cs == [] then 0 else (if Satisfies(e, cs[0], v) then 0 else 1) + Failures(e, cs[1..], v)
  }

  function Repeated(i: Issue, n: nat): seq<Issue> { if n == 0 then [] else [i] + Repeated(i, n - 1) }

  lemma {:induction false} AbortedStays(e: Engine, cs: seq<Check>, input: Input, r: Result)
    requires AbortIssue in r.issues
    ensures RunChecks(e, cs, input, r, true) == r
  {
    hide LengthPasses, ValueIssue;
    if cs != [] { AbortedStays(e, cs[1..], input, r); }
  }

  lemma CheckStep(e: Engine, c: Check, v: Json, r: Result)
    requires !r.aborted && forall i :: 0 <= i < |r.issues| ==> r.issues[i] == SoftIssue
    ensures CheckOnce(e, c, Present(v), r, false) ==
      if Satisfies(e, c, v) then r else Add(r, if Stops(c, v) then AbortIssue else SoftIssue)
  {
    CheckIs(e, c, v);
    assert Val(Zero(false)) == 0.0;
    hide Val, Satisfies, LengthPasses;
  }

  /** Each failing check raises one issue, in order, up to the first that stops the rest. */
  lemma {:induction false} ChecksRaise(e: Engine, cs: seq<Check>, v: Json, r: Result, k: nat)
    requires !r.aborted && forall i :: 0 <= i < |r.issues| ==> r.issues[i] == SoftIssue
    requires k <= |cs| && (forall i :: 0 <= i < k ==> !Stops(cs[i], v)) && (k < |cs| ==> Stops(cs[k], v))
    ensures RunChecks(e, cs, Present(v), r, false).issues ==
      r.issues + Repeated(SoftIssue, Failures(e, cs[..k], v)) + if k < |cs| then [AbortIssue] else []
    decreases k
  {
    hide *;
    if cs == [] {
      NothingRaised(e, v, r, cs[..k]);
    } else if k == 0 {
      StopRaises(e, cs, v, r);
      NothingRaised(e, v, r, cs[..0]);
      OneMore(r.issues, [AbortIssue]);
    } else {
      StepRaises(e, cs, v, r);
      var r1 := if Satisfies(e, cs[0], v) then r else Add(r, SoftIssue);
      AddIs(r);
      ChecksRaise(e, cs[1..], v, r1, k - 1);
      FailuresMore(e, cs, v, k);
      RepeatedMore(SoftIssue, Failures(e, cs[1..][..k - 1], v));
    }
  }

  lemma NothingRaised(e: Engine, v: Json, r: Result, none: seq<Check>)
    requires none == []
    ensures RunChecks(e, none, Present(v), r, false).issues == r.issues && Failures(e, none, v) == 0
    ensures Repeated(SoftIssue, 0) == []
  {}

  lemma OneMore(a: seq<Issue>, b: seq<Issue>)
    ensures a + b == a + [] + b
  {}

  lemma AddIs(r: Result)
    ensures var r1 := Add(r, SoftIssue); r1.issues == r.issues + [SoftIssue] && r1.aborted == r.aborted
  {}

  lemma RepeatedMore(i: Issue, n: nat)
    ensures Repeated(i, n + 1) == [i] + Repeated(i, n)
  {}

  lemma FailuresMore(e: Engine, cs: seq<Check>, v: Json, k: nat)
    requires 0 < k <= |cs|
    ensures Failures(e, cs[..k], v) ==
      (if Satisfies(e, cs[0], v) then 0 else 1) + Failures(e, cs[1..][..k - 1], v)
  {
    hide Satisfies;
    assert cs[..k][0] == cs[0] && cs[..k][1..] == cs[1..][..k - 1];
  }

  lemma StopRaises(e: Engine, cs: seq<Check>, v: Json, r: Result)
    requires cs != [] && Stops(cs[0], v) && !r.aborted && forall i :: 0 <= i < |r.issues| ==> r.issues[i] == SoftIssue
    ensures RunChecks(e, cs, Present(v), r, false).issues == r.issues + [AbortIssue]
  {
    hide Satisfies, CheckOnce, Stops;
    CheckStep(e, cs[0], v, r);
    StopsFails(e, cs[0], v);
    var r1 := Add(r, AbortIssue);
    assert r1.issues[|r.issues|] == AbortIssue;
    AbortedStays(e, cs[1..], Present(v), r1);
  }

  lemma StepRaises(e: Engine, cs: seq<Check>, v: Json, r: Result)
    requires cs != [] && !Stops(cs[0], v) && !r.aborted && forall i :: 0 <= i < |r.issues| ==> r.issues[i] == SoftIssue
    ensures RunChecks(e, cs, Present(v), r, false) ==
      RunChecks(e, cs[1..], Present(v), if Satisfies(e, cs[0], v) then r else Add(r, SoftIssue), false)
  {
    hide Satisfies, CheckOnce, Stops;
    CheckStep(e, cs[0], v, r);
  }

  lemma StopsFails(e: Engine, c: Check, v: Json)
    requires Stops(c, v)
    ensures !Satisfies(e, c, v)
  {
    hide Val;
  }

  /** Checks decide, and change no value. */
  lemma ParseIs(e: Engine, s: Schema, v: Json)
    ensures var r := ParseType(e, s, Present(v));
      Parse(e, s, v) == if r.issues == [] && AllSatisfied(e, s.checks, v) then Some(r.value) else None
  {
    RunAccepts(e, s, Present(v));
    ChecksAre(e, s.checks, v);
    hide ParseType, AllPass, AllSatisfied;
  }

  // ── leaves ──────────

  /** Which values a schema without parts takes, before its checks. */
  ghost predicate Takes(s: Schema, v: Json) {
    match s.node
    case KString => v.String?
    case KNumber => v.Number? && !v.n.Inf?
    case KBool => v.Bool?
    case KNull => v.Null?
    case KUnknown => true
    case KNever => false
    case KEnum(names) => exists i :: 0 <= i < |names| && v == String(names[i])
    case KLiteral(lit) => SameValue(v, lit)
    case _ => false
  }

  // Equal primitives; numbers by their value.
  predicate SameValue(v: Json, lit: Json) {
    match (v, lit)
    case (Number(a), Number(b)) => if a.Inf? || b.Inf? then a == b else Val(a) == Val(b)
    case (Array(_), _) => false
    case (Object(_), _) => false
    case _ => v == lit
  }

  predicate Leaf(n: Node) {
    n.KString? || n.KNumber? || n.KBool? || n.KNull? || n.KUnknown? || n.KNever? || n.KEnum? || n.KLiteral?
  }

  /** A leaf returns what it takes as it is. */
  lemma LeafParses(e: Engine, s: Schema, v: Json)
    requires Leaf(s.node)
    ensures Parse(e, s, v) == if Takes(s, v) && AllSatisfied(e, s.checks, v) then Some(v) else None
  {
    ParseIs(e, s, v);
    hide AllSatisfied;
    if s.node.KEnum? && v.String? && v.s in s.node.values {
      var i :| 0 <= i < |s.node.values| && s.node.values[i] == v.s;
    }
  }

  // ── wrappers ──────────

  /** MAIN: a pipe returns what its transform makes of what the inner schema returns. */
  lemma PipeParses(e: Engine, s: Schema, v: Json)
    requires s.node.KPipe?
    ensures var r := Parse(e, s.node.inner, v);
      Parse(e, s, v) == if r.Some? && AllSatisfied(e, s.checks, v) then Some(s.node.transform(r.value)) else None
  {
    hide AllSatisfied;
    ParseIs(e, s, v);
  }

  lemma OptionalParses(e: Engine, s: Schema, v: Json)
    requires s.node.KOptional? || s.node.KDefault?
    ensures Parse(e, s, v) == if AllSatisfied(e, s.checks, v) then Parse(e, s.node.inner, v) else None
  {
    hide AllSatisfied;
    ParseIs(e, s, v);
  }

  lemma NullableParses(e: Engine, s: Schema, v: Json)
    requires s.node.KNullable?
    ensures Parse(e, s, v) ==
      if !AllSatisfied(e, s.checks, v) then None
      else if v == Json.Null then Some(Json.Null)
      else Parse(e, s.node.inner, v)
  {
    hide AllSatisfied;
    ParseIs(e, s, v);
  }

  /** A union returns what its first option to accept returns. */
  lemma UnionParses(e: Engine, s: Schema, v: Json)
    requires s.node.KUnion?
    ensures (forall i :: 0 <= i < |s.node.options| ==> Parse(e, s.node.options[i], v).None?) ==> Parse(e, s, v).None?
    ensures forall i :: FirstToParse(e, s.node.options, v, i) ==>
      Parse(e, s, v) == if AllSatisfied(e, s.checks, v) then Parse(e, s.node.options[i], v) else None
  {
    hide AllSatisfied, RunOptions;
    ParseIs(e, s, v);
    var os := s.node.options;
    FirstOption(e, os, v, []);
    OptionsAccept(e, os, Present(v), []);
  }

  ghost predicate FirstToParse(e: Engine, os: seq<Schema>, v: Json, i: int) {
    && 0 <= i < |os| && Parse(e, os[i], v).Some?
    && forall j :: 0 <= j < i ==> Parse(e, os[j], v).None?
  }

  lemma {:induction false} FirstOption(e: Engine, os: seq<Schema>, v: Json, failed: seq<Result>)
    ensures forall i :: FirstToParse(e, os, v, i) ==> RunOptions(e, os, Present(v), failed) == Run(e, os[i], Present(v))
    decreases |os|
  {
    hide Run;
    if os != [] {
      var r := Run(e, os[0], Present(v));
      FirstOption(e, os[1..], v, failed + [r]);
      forall i | FirstToParse(e, os, v, i) ensures RunOptions(e, os, Present(v), failed) == Run(e, os[i], Present(v)) {
        if i > 0 {
          assert Parse(e, os[0], v).None?;
          assert forall j :: 0 <= j < |os[1..]| ==> os[1..][j] == os[j + 1];
          assert FirstToParse(e, os[1..], v, i - 1);
        }
      }
    }
  }

  /** A leaf that refuses a value raises a type issue, and only length checks say more. */
  lemma MismatchRaises(e: Engine, s: Schema, v: Json)
    requires Leaf(s.node) && !Takes(s, v)
    ensures Run(e, s, Present(v)).issues == [TypeIssue] + Repeated(SoftIssue, LengthFailures(e, s.checks, v))
  {
    var r := Fail();
    TypeFails(e, s, v);
    hide ParseType, Takes;
    if s.checks != [] {
      assert r.issues[0] != SoftIssue;
      LengthsRaise(e, s.checks, v, r);
    }
  }

  lemma TypeFails(e: Engine, s: Schema, v: Json)
    requires Leaf(s.node) && !Takes(s, v)
    ensures ParseType(e, s, Present(v)) == Fail()
  {
    hide Val;
  }

  ghost function LengthFailures(e: Engine, cs: seq<Check>, v: Json): nat {
    if cs == [] then 0
    else (if cs[0].IsLength() && !Satisfies(e, cs[0], v) then 1 else 0) + LengthFailures(e, cs[1..], v)
  }

  lemma {:induction false} LengthsRaise(e: Engine, cs: seq<Check>, v: Json, r: Result)
    requires !r.aborted && AbortIssue !in r.issues
    ensures RunChecks(e, cs, Present(v), r, true).issues ==
      r.issues + Repeated(SoftIssue, LengthFailures(e, cs, v))
  {
    hide Satisfies, LengthPasses, ValueIssue;
    if cs != [] {
      CheckIs(e, cs[0], v);
      LengthsRaise(e, cs[1..], v, CheckOnce(e, cs[0], Present(v), r, true));
    }
  }

  /** A union none of whose options takes a value has the issues of the only one that does not
      rule the value out altogether, or a type issue. */
  lemma UnionRaises(e: Engine, os: seq<Schema>, v: Json, k: nat)
    requires forall i :: 0 <= i < |os| ==> Parse(e, os[i], v).None?
    ensures OnlySoft(e, os, v, k) ==> RunOptions(e, os, Present(v), []) == Run(e, os[k], Present(v))
    ensures (forall j: nat :: !OnlySoft(e, os, v, j)) ==> RunOptions(e, os, Present(v), []) == Fail()
  {
    hide Run;
    OptionsFail(e, os, v, []);
    var rs := Tried(e, os, v);
    assert [] + rs == rs;
    hide RunOptions, IsAborted, NotAborted;
    if OnlySoft(e, os, v, k) { SoftFirst(rs, k); }
    if |NotAborted(rs)| == 1 {
      var j := SoftIndex(rs);
      assert OnlySoft(e, os, v, j);
    }
  }

  ghost predicate OnlySoft(e: Engine, os: seq<Schema>, v: Json, k: nat) {
    && k < |os| && !IsAborted(Run(e, os[k], Present(v)), 0)
    && forall i :: 0 <= i < |os| && i != k ==> IsAborted(Run(e, os[i], Present(v)), 0)
  }

  ghost predicate OnlyOne(rs: seq<Result>, k: nat) {
    k < |rs| && !IsAborted(rs[k], 0) && forall i :: 0 <= i < |rs| && i != k ==> IsAborted(rs[i], 0)
  }

  ghost function Tried(e: Engine, os: seq<Schema>, v: Json): (rs: seq<Result>)
    ensures |rs| == |os| && forall i :: 0 <= i < |os| ==> rs[i] == Run(e, os[i], Present(v))
  {
    seq(|os|, i requires 0 <= i < |os| => Run(e, os[i], Present(v)))
  }

  lemma {:induction false} OptionsFail(e: Engine, os: seq<Schema>, v: Json, failed: seq<Result>)
    requires forall i :: 0 <= i < |os| ==> Parse(e, os[i], v).None?
    ensures var soft := NotAborted(failed + Tried(e, os, v));
      RunOptions(e, os, Present(v), failed) == if |soft| == 1 then soft[0] else Fail()
    decreases |os|
  {
    hide Run, NotAborted;
    if os == [] {
      assert failed + Tried(e, os, v) == failed;
    } else {
      var r := Run(e, os[0], Present(v));
      assert Parse(e, os[0], v).None?;
      OptionsFail(e, os[1..], v, failed + [r]);
      assert Tried(e, os, v) == [r] + Tried(e, os[1..], v);
      assert failed + Tried(e, os, v) == failed + [r] + Tried(e, os[1..], v);
    }
  }

  lemma {:induction false} SoftNone(rs: seq<Result>)
    ensures NotAborted(rs) == [] <==> forall i :: 0 <= i < |rs| ==> IsAborted(rs[i], 0)
  {
    hide IsAborted;
    if rs != [] {
      SoftNone(rs[1..]);
      assert forall i :: 0 < i < |rs| ==> rs[i] == rs[1..][i - 1];
    }
  }

  lemma {:induction false} SoftFirst(rs: seq<Result>, k: nat)
    requires OnlyOne(rs, k)
    ensures |NotAborted(rs)| == 1 && NotAborted(rs)[0] == rs[k]
  {
    hide IsAborted;
    assert forall i :: 0 < i < |rs| ==> rs[i] == rs[1..][i - 1];
    if k == 0 { SoftNone(rs[1..]); } else { SoftFirst(rs[1..], k - 1); }
  }

  lemma {:induction false} SoftIndex(rs: seq<Result>) returns (k: nat)
    requires |NotAborted(rs)| == 1
    ensures OnlyOne(rs, k)
  {
    hide IsAborted;
    if IsAborted(rs[0], 0) {
      k := SoftIndex(rs[1..]);
      k := k + 1;
    } else {
      SoftNone(rs[1..]);
      k := 0;
    }
    assert forall i :: 0 < i < |rs| ==> rs[i] == rs[1..][i - 1];
  }

  // ── containers ──────────

  /** An array of what its elements parse to, if they all do. */
  lemma ArrayParses(e: Engine, s: Schema, v: Json)
    requires s.node.KArray?
    ensures Parse(e, s, v).Some? <==>
      && v.Array? && AllSatisfied(e, s.checks, v)
      && forall i :: 0 <= i < |v.elems| ==> Parse(e, s.node.elem, v.elems[i]).Some?
    ensures Parse(e, s, v).Some? ==>
      var w := Parse(e, s, v).value;
      && w.Array? && |w.elems| == |v.elems|
      && forall i :: 0 <= i < |v.elems| ==> Parse(e, s.node.elem, v.elems[i]) == Some(w.elems[i])
  {
    hide AllSatisfied, Run, RunElems;
    ParseIs(e, s, v);
    if v.Array? {
      ElemsAccept(e, s.node.elem, v.elems);
      ElemsAre(e, s.node.elem, v.elems);
    }
  }

  ghost function ParsedAt(e: Engine, s: Schema, v: Option<Json>): Option<Json> {
    match v
    case None => None
    case Some(x) => Parse(e, s, x)
  }

  /** A record of what its values parse to, each under its key. */
  lemma RecordParses(e: Engine, s: Schema, v: Json)
    requires s.node.KRecord?
    ensures Parse(e, s, v).Some? <==>
      && v.Object? && AllSatisfied(e, s.checks, v)
      && forall i :: 0 <= i < |v.members| ==> Parse(e, s.node.value, v.members[i].value).Some?
    ensures Parse(e, s, v).Some? && UniqueKeys(v.members) ==>
      var w := Parse(e, s, v).value;
      && w.Object?
      && forall k :: Find(w.members, k) == ParsedAt(e, s.node.value, Find(v.members, k))
  {
    hide AllSatisfied, Run, RunMembers;
    ParseIs(e, s, v);
    if v.Object? {
      MembersAccept(e, s.node.value, v.members, [], []);
      if Parse(e, s, v).Some? && UniqueKeys(v.members) {
        forall k
          ensures Find(Parse(e, s, v).value.members, k)
            == match Find(v.members, k) case None => None case Some(x) => Parse(e, s.node.value, x)
        {
          RecordIs(e, s.node.value, v.members, [], [], k);
          if Find(v.members, k).Some? { FoundIn(v.members, k); }
        }
      }
    }
  }

  /** An object of what its fields parse to.  A field the input lacks gets what its schema
      gives an absent value, unless that may be left out; a key that is no field's is kept
      by a loose object alone. */
  lemma ObjectParses(e: Engine, s: Schema, v: Json, k: Str)
    requires s.node.KObject? && DistinctNames(s.node.fields) && Parse(e, s, v).Some?
    ensures v.Object? && Parse(e, s, v).value.Object?
    ensures var found := Find(Parse(e, s, v).value.members, k);
      && (forall j :: 0 <= j < |s.node.fields| && s.node.fields[j].name == k ==>
            found == match Find(v.members, k)
              case Some(x) => Parse(e, s.node.fields[j].schema, x)
              case None => WhenAbsent(e, s.node.fields[j].schema))
      && (UniqueKeys(v.members) && !Known(s.node.fields, k) ==>
            found == if s.node.catchall == Loose then Find(v.members, k) else None)
  {
    hide AllSatisfied, Run, RunFields, FinishObject, Known;
    ParseIs(e, s, v);
    ObjectAccepts(e, s, v);
    ObjectBuilt(e, s, v);
    if UniqueKeys(v.members) && !Known(s.node.fields, k) { UnknownFound(e, s, v, k); }
    forall j | 0 <= j < |s.node.fields| && s.node.fields[j].name == k
      ensures Stored(e, s.node.fields[j], v.members) == match Find(v.members, k)
        case Some(x) => Parse(e, s.node.fields[j].schema, x)
        case None => WhenAbsent(e, s.node.fields[j].schema)
    {
      assert FieldOk(e, s.node.fields[j], v.members);
      if Find(v.members, k).None? { StoredWhenAbsent(e, s.node.fields[j], v.members); }
    }
  }

  function WhenAbsent(e: Engine, s: Schema): Option<Json> {
    if StoresAbsent(e, s) then Some(Run(e, s, Absent).value) else None
  }

  // ── absent values ──────────

  // The names under which something is stored.
  function KeptNames(fs: seq<Field>, ms: seq<Member>): seq<Str> {
    if fs == [] then []
    else (if Find(ms, fs[0].name).Some? then [fs[0].name] else []) + KeptNames(fs[1..], ms)
  }

  function UnknownKeys(fs: seq<Field>, ms: seq<Member>): seq<Str> {
    if ms == [] then []
    else (if exists i :: 0 <= i < |fs| && fs[i].name == ms[0].key then [] else [ms[0].key]) + UnknownKeys(fs, ms[1..])
  }

  lemma {:induction false} FindKey(ms: seq<Member>, k: Str)
    ensures Find(ms, k).Some? <==> k in Keys(ms)
  {
    if ms != [] { FindKey(ms[1..], k); }
  }

  lemma {:induction false} KeysOfMore(a: seq<Member>, m: Member)
    ensures Keys(a + [m]) == Keys(a) + [m.key]
  {
    if a == [] {
      assert a + [m] == [m] && [m][1..] == [];
    } else {
      assert (a + [m])[1..] == a[1..] + [m];
      KeysOfMore(a[1..], m);
    }
  }

  lemma PutLast(ms: seq<Member>, k: Str, v: Json)
    requires Find(ms, k).None?
    ensures Keys(Put(ms, k, v)) == Keys(ms) + [k]
  {
    FindKey(ms, k);
    PutPlaces(ms, k, v);
    KeysOfMore(ms, Member(k, v));
  }

  lemma {:induction false} FieldsInOrder(e: Engine, fs: seq<Field>, ms: seq<Member>, r: Result)
    requires r.value.Object? && DistinctNames(fs)
    requires forall i :: 0 <= i < |fs| ==> Find(r.value.members, fs[i].name).None?
    ensures var out := RunFields(e, fs, ms, r).value.members;
      && Keys(out) == Keys(r.value.members) + KeptNames(fs, out)
      && forall k | Find(out, k) != Find(r.value.members, k) :: exists i :: 0 <= i < |fs| && fs[i].name == k
    decreases |fs|
  {
    if fs != [] {
      var f := fs[0];
      var r1 := FieldStep(f, Lookup(ms, f.name), Run(e, f.schema, Lookup(ms, f.name)), r);
      assert RunFields(e, fs, ms, r) == RunFields(e, fs[1..], ms, r1);
      hide Run, FieldStep, RunFields;
      StepPuts(f, Lookup(ms, f.name), Run(e, f.schema, Lookup(ms, f.name)), r);
      FieldsInOrder(e, fs[1..], ms, r1);
      var out := RunFields(e, fs, ms, r).value.members;
      assert Find(out, f.name) == Find(r1.value.members, f.name);
      assert KeptNames(fs, out) == (if Find(out, f.name).Some? then [f.name] else []) + KeptNames(fs[1..], out);
    }
  }

  lemma StepPuts(f: Field, input: Input, fr: Result, r: Result)
    requires r.value.Object? && Find(r.value.members, f.name).None?
    ensures var out, prior := FieldStep(f, input, fr, r).value.members, r.value.members;
      && Keys(out) == Keys(prior) + (if Find(out, f.name).Some? then [f.name] else [])
      && forall k | k != f.name :: Find(out, k) == Find(prior, k)
  {
    PutLast(r.value.members, f.name, fr.value);
  }

  lemma {:induction false} UnknownInOrder(fs: seq<Field>, ms: seq<Member>, out: seq<Member>)
    requires UniqueKeys(ms)
    requires forall i :: 0 <= i < |ms| ==> Find(out, ms[i].key).None? || Known(fs, ms[i].key)
    ensures Keys(CopyUnknown(fs, ms, out)) == Keys(out) + UnknownKeys(fs, ms)
    ensures forall k | Known(fs, k) :: Find(CopyUnknown(fs, ms, out), k) == Find(out, k)
    decreases |ms|
  {
    if ms != [] {
      var next := if Known(fs, ms[0].key) then out else Put(out, ms[0].key, ms[0].value);
      if !Known(fs, ms[0].key) { PutLast(out, ms[0].key, ms[0].value); }
      UnknownInOrder(fs, ms[1..], next);
    }
  }

  lemma {:induction false} KeptSame(fs: seq<Field>, a: seq<Member>, b: seq<Member>)
    requires forall i :: 0 <= i < |fs| ==> Find(a, fs[i].name) == Find(b, fs[i].name)
    ensures KeptNames(fs, a) == KeptNames(fs, b)
  {
    if fs != [] { KeptSame(fs[1..], a, b); }
  }

  /** An object's keys stand in the order of the fields, and after them a loose object's unknown
      ones in the order of the input. */
  lemma ObjectInOrder(e: Engine, s: Schema, v: Json)
    requires s.node.KObject? && DistinctNames(s.node.fields) && Parse(e, s, v).Some?
    requires v.Object? && UniqueKeys(v.members)
    ensures var w := Parse(e, s, v).value;
      w.Object? && Keys(w.members) ==
        KeptNames(s.node.fields, w.members)
        + if s.node.catchall == Loose then UnknownKeys(s.node.fields, v.members) else []
  {
    var fs, ms := s.node.fields, v.members;
    var r0 := Result(Object([]), [], false);
    ParseIs(e, s, v);
    FieldsInOrder(e, fs, ms, r0);
    var r := RunFields(e, fs, ms, r0);
    assert ParseType(e, s, Present(v)) == FinishObject(fs, s.node.catchall, s.node.superRefine, ms, r);
    hide RunFields, ParseType, AllSatisfied, FinishObject, UnknownKeys, KeptNames;
    FinishInOrder(fs, s.node.catchall, s.node.superRefine, ms, r);
  }

  lemma FinishInOrder(fs: seq<Field>, catchall: Catch, refine: Option<Json -> nat>, ms: seq<Member>, r: Result)
    requires r.value.Object? && UniqueKeys(ms) && Keys(r.value.members) == KeptNames(fs, r.value.members)
    requires forall k | Find(r.value.members, k).Some? :: exists i :: 0 <= i < |fs| && fs[i].name == k
    ensures var w := FinishObject(fs, catchall, refine, ms, r).value;
      w.Object? && Keys(w.members) ==
        KeptNames(fs, w.members) + if catchall == Loose then UnknownKeys(fs, ms) else []
  {
    if catchall == Loose {
      UnknownInOrder(fs, ms, r.value.members);
      hide CopyUnknown, UnknownKeys, KeptNames, Keys, Find;
      KeptSame(fs, r.value.members, CopyUnknown(fs, ms, r.value.members));
    }
  }

  /** A default stands in for an absent value. */
  lemma DefaultAbsent(e: Engine, s: Schema)
    requires s.node.KDefault? && s.checks == []
    ensures WhenAbsent(e, s) == Some(s.node.def)
  {
    assert Run(e, s, Absent) == ParseType(e, s, Absent) == Ok(s.node.def);
    assert Optin(s) == OptDefaulted;
  }

  /** Nullables and transforms hand on what their inner schema makes of it. */
  lemma NullableAbsent(e: Engine, s: Schema)
    requires s.node.KNullable? && s.checks == []
    ensures WhenAbsent(e, s) == WhenAbsent(e, s.node.inner)
  {
    assert Run(e, s, Absent) == ParseType(e, s, Absent) == Run(e, s.node.inner, Absent);
    assert LeftOut(s) == LeftOut(s.node.inner);
  }

  /** A transform is applied to what an absent value gives. */
  lemma PipeAbsent(e: Engine, s: Schema)
    requires s.node.KPipe? && s.checks == []
    ensures WhenAbsent(e, s) ==
      if Accepts(e, s.node.inner, Absent) then Some(s.node.transform(Run(e, s.node.inner, Absent).value)) else None
  {
    assert Run(e, s, Absent) == ParseType(e, s, Absent);
    assert !OptoutOptional(s);
  }

  /** A required field that is absent makes the object fail. */
  lemma RequiredAbsent(e: Engine, s: Schema, v: Json, j: nat)
    requires s.node.KObject? && v.Object? && j < |s.node.fields|
    requires Find(v.members, s.node.fields[j].name).None? && Optin(s.node.fields[j].schema) == OptNone
    ensures Parse(e, s, v).None?
  {
    hide Run, RunFields, FinishObject;
    ParseIs(e, s, v);
    ObjectAccepts(e, s, v);
    OptinNoneRejects(e, s.node.fields[j].schema);
    assert !FieldOk(e, s.node.fields[j], v.members);
  }

  // ── the ID argument ──────────

  /** idArg takes positive safe integers and decimal strings in range, and writes both as
      ToString does. */
  lemma IdArgParses(e: Engine, source: Str, inRange: Json -> bool, toString: Json -> Json, v: Json)
    ensures Parse(e, IdArg(source, inRange, toString), v) ==
      if (v.Number? && SafeInteger(v.n)) || (v.String? && e.matches(source, v.s) && inRange(v)) then Some(toString(v))
      else None
  {
    hide AllSatisfied, Takes, Parse, Val;
    var z := IdArg(source, inRange, toString);
    var os := z.node.inner.node.options;
    PipeParses(e, z, v);
    NoChecks(e, v);
    UnionParses(e, z.node.inner, v);
    LeafParses(e, os[0], v);
    LeafParses(e, os[1], v);
    WholeTakes(e, os[0], v);
    DecimalTakes(e, os[1], source, inRange, v);
    if Parse(e, os[0], v).Some? {
      assert FirstToParse(e, os, v, 0);
    } else if Parse(e, os[1], v).Some? {
      assert FirstToParse(e, os, v, 1);
    }
  }

  lemma NoChecks(e: Engine, v: Json)
    ensures AllSatisfied(e, [], v)
  {}

  lemma WholeTakes(e: Engine, s: Schema, v: Json)
    requires s == Schema([], [Int, Gt(0.0), Int], KNumber)
    ensures Takes(s, v) && AllSatisfied(e, s.checks, v) <==> v.Number? && SafeInteger(v.n)
  {
    hide Val;
    assert s.checks[0] == Int && s.checks[1] == Gt(0.0);
    if v.Number? { CheckIs(e, Int, v); }
    if v.Number? && SafeInteger(v.n) {
      assert CheckPasses(e, Int, Present(v));
    }
    assert AllSatisfied(e, s.checks, v) <==> Satisfies(e, Int, v) && Satisfies(e, Gt(0.0), v);
  }

  lemma DecimalTakes(e: Engine, s: Schema, source: Str, inRange: Json -> bool, v: Json)
    requires s == Schema([], [Pattern(NoFormat, source), Refine(inRange)], KString)
    ensures Takes(s, v) && AllSatisfied(e, s.checks, v) <==> v.String? && e.matches(source, v.s) && inRange(v)
  {
    assert s.checks[0] == Pattern(NoFormat, source) && s.checks[1] == Refine(inRange);
    assert AllSatisfied(e, s.checks, v) <==> Satisfies(e, s.checks[0], v) && Satisfies(e, s.checks[1], v);
  }
}
