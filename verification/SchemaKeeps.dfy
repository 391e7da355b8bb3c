/** What Parse leaves alone: a parsed value is the input, but for stripped keys and defaults. */
module SchemaKeeps {
  import opened JsonValue
  import opened SchemaAst
  import opened SchemaRun
  import opened SchemaAccept
  import opened SchemaTheorems
  import opened SchemaOutput

  // No transform anywhere, and no field name twice.
  predicate NoPipe(s: Schema)
    decreases s
  {
    match s.node
    case KPipe(_, _) => false
    case KOptional(i) => NoPipe(i)
    case KNullable(i) => NoPipe(i)
    case KDefault(i, _) => NoPipe(i)
    case KArray(i) => NoPipe(i)
    case KRecord(i) => NoPipe(i)
    case KUnion(os) => forall i :: 0 <= i < |os| ==> NoPipe(os[i])
    case KObject(fs, _, _) => DistinctNames(fs) && forall i :: 0 <= i < |fs| ==> NoPipe(fs[i].schema)
    case _ => true
  }

  // No object that strips unknown keys.
  predicate NoStrip(s: Schema)
    decreases s
  {
    match s.node
    case KPipe(i, _) => NoStrip(i)
    case KOptional(i) => NoStrip(i)
    case KNullable(i) => NoStrip(i)
    case KDefault(i, _) => NoStrip(i)
    case KArray(i) => NoStrip(i)
    case KRecord(i) => NoStrip(i)
    case KUnion(os) => forall i :: 0 <= i < |os| ==> NoStrip(os[i])
    case KObject(fs, c, _) => c != Strip && forall i :: 0 <= i < |fs| ==> NoStrip(fs[i].schema)
    case _ => true
  }

  predicate NoDefault(s: Schema)
    decreases s
  {
    match s.node
    case KPipe(i, _) => NoDefault(i)
    case KOptional(i) => NoDefault(i)
    case KNullable(i) => NoDefault(i)
    case KDefault(_, _) => false
    case KArray(i) => NoDefault(i)
    case KRecord(i) => NoDefault(i)
    case KUnion(os) => forall i :: 0 <= i < |os| ==> NoDefault(os[i])
    case KObject(fs, _, _) => forall i :: 0 <= i < |fs| ==> NoDefault(fs[i].schema)
    case _ => true
  }

  /** No key repeated at any depth, as in every value the JSON parser gives. */
  predicate Tidy(v: Json) {
    match v
    case Array(es) => forall x :: x in es ==> Tidy(x)
    case Object(ms) => UniqueKeys(ms) && forall m :: m in ms ==> Tidy(m.value)
    case _ => true
  }

  /** w is v with keys of objects possibly dropped (not if all) and added (not if only). */
  ghost predicate Kept(v: Json, w: Json, all: bool, only: bool)
    decreases v
  {
    match v
    case Array(es) => w.Array? && |w.elems| == |es| && forall i :: 0 <= i < |es| ==> Kept(es[i], w.elems[i], all, only)
    case Object(ms) =>
      && w.Object?
      && (forall m :: m in ms ==> MemberKept(m, Find(w.members, m.key), all, only))
      && (only ==> forall k :: Find(w.members, k).Some? ==> Find(ms, k).Some?)
    case _ => w == v
  }

  ghost predicate MemberKept(m: Member, found: Option<Json>, all: bool, only: bool)
    decreases m, 0
  {
    match found
    case None => !all
    case Some(x) => Kept(m.value, x, all, only)
  }

  predicate Fit(s: Schema, all: bool, only: bool) { NoPipe(s) && (all ==> NoStrip(s)) && (only ==> NoDefault(s)) }

  lemma FindUnique(ms: seq<Member>, m: Member)
    requires UniqueKeys(ms) && m in ms
    ensures Find(ms, m.key) == Some(m.value)
  {
    var i :| 0 <= i < |ms| && ms[i] == m;
    FindIs(ms, i);
  }

  lemma {:induction false} FoundIn(ms: seq<Member>, k: Str)
    requires Find(ms, k).Some?
    ensures Member(k, Find(ms, k).value) in ms
  {
    if ms[0].key == k {
      assert ms[0] == Member(k, Find(ms, k).value);
    } else {
      FoundIn(ms[1..], k);
    }
  }

  lemma {:induction false} KeptItself(v: Json, all: bool, only: bool)
    requires Tidy(v)
    ensures Kept(v, v, all, only)
    decreases v
  {
    match v
    case Array(es) => forall i | 0 <= i < |es| ensures Kept(es[i], es[i], all, only) { KeptItself(es[i], all, only); }
    case Object(ms) =>
      forall m | m in ms ensures MemberKept(m, Find(ms, m.key), all, only) {
        FindUnique(ms, m);
        KeptItself(m.value, all, only);
      }
    case _ =>
  }

  lemma RunValue(e: Engine, s: Schema, v: Json)
    requires Accepts(e, s, Present(v))
    ensures Run(e, s, Present(v)).value == ParseType(e, s, Present(v)).value && ParseType(e, s, Present(v)).issues == []
  {
    RunAccepts(e, s, Present(v));
  }

  // ── children ──────────

  lemma {:induction false} ElemsAre(e: Engine, elem: Schema, vs: seq<Json>)
    ensures forall i :: 0 <= i < |vs| ==> RunElems(e, elem, vs).0[i] == Run(e, elem, Present(vs[i])).value
  {
    if vs != [] { ElemsAre(e, elem, vs[1..]); }
  }

  lemma {:induction false} RecordIs(
    e: Engine, elem: Schema, ms: seq<Member>, out: seq<Member>, issues: seq<Issue>, k: Str)
    requires UniqueKeys(ms) && forall m :: m in ms ==> Accepts(e, elem, Present(m.value))
    ensures Find(RunMembers(e, elem, ms, out, issues).0, k)
      == match Find(ms, k) case None => Find(out, k) case Some(v) => Some(Run(e, elem, Present(v)).value)
  {
    hide Run;
    if ms != [] {
      var m, more := ms[0], ms[1..];
      assert m in ms && forall x :: x in more ==> x in ms;
      RecordIs(e, elem, more, Put(out, m.key, Run(e, elem, Present(m.value)).value), issues, k);
      if k == m.key && Find(more, k).Some? {
        FoundIn(more, k);
        assert false;
      }
    }
  }

  lemma {:induction false} OptionIs(e: Engine, os: seq<Schema>, input: Input, failed: seq<Result>) returns (i: nat)
    requires (forall r :: r in failed ==> r.issues != []) && RunOptions(e, os, input, failed).issues == []
    ensures i < |os| && Accepts(e, os[i], input) && RunOptions(e, os, input, failed).value == Run(e, os[i], input).value
  {
    var r := Run(e, os[0], input);
    if r.issues == [] {
      i := 0;
    } else {
      i := OptionIs(e, os[1..], input, failed + [r]);
      i := i + 1;
    }
  }

  lemma {:induction false} CopyIs(fs: seq<Field>, ms: seq<Member>, out: seq<Member>, k: Str)
    requires UniqueKeys(ms)
    ensures Find(CopyUnknown(fs, ms, out), k) ==
      if Find(ms, k).Some? && !Known(fs, k) then Find(ms, k) else Find(out, k)
  {
    hide Known;
    if ms != [] {
      CopyIs(fs, ms[1..], if Known(fs, ms[0].key) then out else Put(out, ms[0].key, ms[0].value), k);
      if k == ms[0].key && Find(ms[1..], k).Some? {
        FoundIn(ms[1..], k);
        assert false;
      }
    }
  }

  /** Without defaults, what may be absent is left out when it is. */
  lemma {:induction false} OptionalLeftOut(s: Schema)
    requires NoPipe(s) && NoDefault(s)
    ensures Optin(s) != OptDefaulted && (Optin(s) == OptOptional <==> OptoutOptional(s))
    decreases s
  {
    match s.node
    case KNullable(i) => OptionalLeftOut(i);
    case KUnion(os) =>
      forall i | 0 <= i < |os|
        ensures Optin(os[i]) != OptDefaulted && (Optin(os[i]) == OptOptional <==> OptoutOptional(os[i]))
      {
        OptionalLeftOut(os[i]);
      }
      AnyOptional(os, OptNone);
    case _ =>
  }

  lemma {:induction false} AnyOptional(os: seq<Schema>, result: Opt)
    requires result != OptDefaulted && forall i :: 0 <= i < |os| ==> Optin(os[i]) != OptDefaulted
    ensures OptinAny(os, result) != OptDefaulted
    ensures OptinAny(os, result) == OptOptional <==>
      result == OptOptional || exists i :: 0 <= i < |os| && Optin(os[i]) == OptOptional
    decreases os
  {
    if os != [] {
      var next := if Optin(os[0]) == OptOptional then OptOptional else result;
      AnyOptional(os[1..], next);
      if i :| 0 <= i < |os| && Optin(os[i]) == OptOptional {
        if i > 0 { assert Optin(os[1..][i - 1]) == OptOptional; }
      }
      if j :| 0 <= j < |os[1..]| && Optin(os[1..][j]) == OptOptional { assert Optin(os[j + 1]) == OptOptional; }
    }
  }

  lemma UnknownFound(e: Engine, s: Schema, v: Json, k: Str)
    requires s.node.KObject? && v.Object? && UniqueKeys(v.members) && DistinctNames(s.node.fields) &&
      !Known(s.node.fields, k)
    ensures var w := ParseType(e, s, Present(v)).value;
      w.Object? && Find(w.members, k) == if s.node.catchall == Loose then Find(v.members, k) else None
  {
    hide Run, RunFields, CopyUnknown, Known;
    var r := RunFields(e, s.node.fields, v.members, Ok(Object([])));
    FieldsBuild(e, s.node.fields, v.members, Ok(Object([])));
    CopyIs(s.node.fields, v.members, r.value.members, k);
  }

  // ── the theorem ──────────

  /** MAIN: what a schema without transforms accepts it returns unaltered: every value it
      keeps is the input's own, all keys are kept when nothing strips, and none is added
      when nothing defaults. */
  lemma {:induction false} ParseKeeps(e: Engine, s: Schema, v: Json, all: bool, only: bool)
    requires Fit(s, all, only) && Tidy(v) && Accepts(e, s, Present(v))
    ensures Kept(v, Run(e, s, Present(v)).value, all, only)
    decreases s, 1
  {
    hide Run, RunOptions, RunElems, RunMembers, RunFields, RunChecks, FinishObject, Kept, Tidy;
    RunValue(e, s, v);
    match s.node
    case KOptional(i) => ParseKeeps(e, i, v, all, only);
    case KNullable(i) => if v == Null { KeptItself(v, all, only); } else { ParseKeeps(e, i, v, all, only); }
    case KDefault(i, _) => ParseKeeps(e, i, v, all, only);
    case KArray(elem) => ArrayKeeps(e, s, v, all, only);
    case KRecord(elem) => RecordKeeps(e, s, v, all, only);
    case KUnion(os) =>
      var i := OptionIs(e, os, Present(v), []);
      ParseKeeps(e, os[i], v, all, only);
    case KObject(_, _, _) => ObjectKeeps(e, s, v, all, only);
    case _ => KeptItself(v, all, only);
  }

  lemma {:induction false} ArrayKeeps(e: Engine, s: Schema, v: Json, all: bool, only: bool)
    requires Fit(s, all, only) && Tidy(v) && s.node.KArray? && ParseType(e, s, Present(v)).issues == []
    ensures Kept(v, ParseType(e, s, Present(v)).value, all, only)
    decreases s, 0
  {
    hide Run, RunElems;
    var elem, vs := s.node.elem, v.elems;
    ElemsAccept(e, elem, vs);
    ElemsAre(e, elem, vs);
    forall i | 0 <= i < |vs| ensures Kept(vs[i], RunElems(e, elem, vs).0[i], all, only) {
      ParseKeeps(e, elem, vs[i], all, only);
    }
  }

  lemma {:induction false} RecordKeeps(e: Engine, s: Schema, v: Json, all: bool, only: bool)
    requires Fit(s, all, only) && Tidy(v) && s.node.KRecord? && ParseType(e, s, Present(v)).issues == []
    ensures Kept(v, ParseType(e, s, Present(v)).value, all, only)
    decreases s, 0
  {
    hide Run, RunMembers;
    var elem, ms := s.node.value, v.members;
    MembersAccept(e, elem, ms, [], []);
    var out := RunMembers(e, elem, ms, [], []).0;
    forall m | m in ms ensures MemberKept(m, Find(out, m.key), all, only) {
      RecordIs(e, elem, ms, [], [], m.key);
      FindUnique(ms, m);
      ParseKeeps(e, elem, m.value, all, only);
    }
    forall k | Find(out, k).Some? ensures Find(ms, k).Some? { RecordIs(e, elem, ms, [], [], k); }
  }

  /** What the field loop stored for a key of the input, or for an absent one. */
  lemma {:induction false} FieldKeeps(e: Engine, s: Schema, v: Json, j: nat, all: bool, only: bool)
    requires Fit(s, all, only) && Tidy(v) && s.node.KObject? && v.Object? && ParseType(e, s, Present(v)).issues == []
    requires j < |s.node.fields|
    ensures var f := s.node.fields[j];
            var x := Stored(e, f, v.members);
      match Find(v.members, f.name)
      case None => only ==> x.None?
      case Some(y) => x.Some? && Kept(y, x.value, all, only)
    decreases s, 0, 0
  {
    hide Run, RunFields, FinishObject;
    var f := s.node.fields[j];
    ObjectAccepts(e, s, v);
    assert FieldOk(e, f, v.members);
    if Find(v.members, f.name).Some? {
      FoundIn(v.members, f.name);
      ParseKeeps(e, f.schema, Find(v.members, f.name).value, all, only);
    } else if only {
      OptionalLeftOut(f.schema);
    }
  }

  lemma {:induction false} ObjectKeeps(e: Engine, s: Schema, v: Json, all: bool, only: bool)
    requires Fit(s, all, only) && Tidy(v) && s.node.KObject? && ParseType(e, s, Present(v)).issues == []
    ensures Kept(v, ParseType(e, s, Present(v)).value, all, only)
    decreases s, 0, 1
  {
    hide Run, RunFields, FinishObject, Stored, Fit;
    ObjectAccepts(e, s, v);
    Distinct(s, all, only);
    ObjectBuilt(e, s, v);
    var fs, ms, w := s.node.fields, v.members, ParseType(e, s, Present(v)).value;
    forall m | m in ms ensures MemberKept(m, Find(w.members, m.key), all, only) {
      FindUnique(ms, m);
      if Known(fs, m.key) {
        var j :| 0 <= j < |fs| && fs[j].name == m.key;
        FieldKeeps(e, s, v, j, all, only);
      } else {
        UnknownFound(e, s, v, m.key);
        KeptItself(m.value, all, only);
        assert s.node.catchall != Strict by { KnownIfStrict(fs, ms, m); }
      }
    }
    forall k | only && Find(w.members, k).Some? ensures Find(ms, k).Some? {
      if Known(fs, k) {
        var j :| 0 <= j < |fs| && fs[j].name == k;
        FieldKeeps(e, s, v, j, all, only);
      } else {
        UnknownFound(e, s, v, k);
      }
    }
  }

  lemma Distinct(s: Schema, all: bool, only: bool)
    requires Fit(s, all, only) && s.node.KObject?
    ensures DistinctNames(s.node.fields) && (all ==> s.node.catchall != Strip)
  {}

  lemma KnownIfStrict(fs: seq<Field>, ms: seq<Member>, m: Member)
    requires m in ms && !Known(fs, m.key)
    ensures !AllKnown(fs, ms)
  {
    hide Known;
  }
}
