/** The other direction of the language: what parse returns, and the output document. */
module SchemaOutput {
  import opened JsonValue
  import opened SchemaAst
  import opened SchemaRun
  import opened SchemaDoc
  import opened SchemaEmit
  import opened SchemaAccept
  import opened SchemaMeaning
  import opened SchemaTheorems

  /** What a schema stores for an absent field comes from a default, or from a branch
      that takes anything, and not from the null of an optional branch. */
  predicate DefaultFirst(e: Engine, s: Schema)
    decreases s
  {
    match s.node
    case KDefault(_, _) => true
    case KUnknown => true
    case KPipe(i, _) => DefaultFirst(e, i)
    case KNullable(i) => DefaultFirst(e, i)
    case KUnion(os) => DefaultFirstOf(e, os)
    case _ => false
  }

  predicate DefaultFirstOf(e: Engine, os: seq<Schema>)
    decreases os
  {
    os != [] && if Accepts(e, os[0], Absent) then DefaultFirst(e, os[0]) else DefaultFirstOf(e, os[1..])
  }

  /** The null of that optional branch, after the transforms on its way. */
  function MappedNull(e: Engine, s: Schema): Json
    decreases s
  {
    match s.node
    case KPipe(i, f) => f(MappedNull(e, i))
    case KNullable(i) => MappedNull(e, i)
    case KUnion(os) => MappedNullOf(e, os)
    case _ => Null
  }

  function MappedNullOf(e: Engine, os: seq<Schema>): Json
    decreases os
  {
    if os == [] then Null
    else if Accepts(e, os[0], Absent) then MappedNull(e, os[0])
    else MappedNullOf(e, os[1..])
  }

  ghost predicate AbsentFits(e: Engine, s: Schema) {
    DefaultFirst(e, s) || Valid(e, Emit(s, Out), MappedNull(e, s))
  }

  predicate LeftOut(s: Schema) { Optin(s) == OptOptional && OptoutOptional(s) }

  // An absent field stores something although its document need not admit it.
  predicate StoresAbsent(e: Engine, s: Schema) { Accepts(e, s, Absent) && !LeftOut(s) }

  /** Defaults and transforms land inside their own documents, fields have distinct
      names, and what a field stores when absent fits its document. */
  ghost predicate Steady(e: Engine, s: Schema)
    decreases s
  {
    AnnotationsOnly(s.meta) &&
    match s.node
    case KLiteral(lit) => Primitive(lit) && !(lit.Number? && lit.n.Inf?)
    case KObject(fs, _, _) =>
      DistinctNames(fs) && forall i :: 0 <= i < |fs| ==>
        && Steady(e, fs[i].schema)
        && (StoresAbsent(e, fs[i].schema) ==> AbsentFits(e, fs[i].schema))
    case KArray(i) => Steady(e, i)
    case KRecord(i) => Steady(e, i)
    case KUnion(os) => forall i :: 0 <= i < |os| ==> Steady(e, os[i])
    case KOptional(i) => Steady(e, i)
    case KNullable(i) => Steady(e, i)
    case KDefault(i, def) => Steady(e, i) && Valid(e, Emit(i, Out), def)
    case KPipe(i, f) => Steady(e, i) && forall x :: Valid(e, Emit(i, Out), x) ==> Valid(e, Emit(i, Out), f(x))
    case _ => true
  }

  // ── what runObject builds ──────────

  // What the field loop stores for f, if anything.
  function Stored(e: Engine, f: Field, ms: seq<Member>): Option<Json> {
    var input := Lookup(ms, f.name);
    var fr := Run(e, f.schema, input);
    if fr.issues != [] || (input.Absent? && (LeftOut(f.schema) || Optin(f.schema) == OptNone)) then None
    else Some(fr.value)
  }

  function StoredOr(e: Engine, f: Field, ms: seq<Member>, out: seq<Member>): Option<Json> {
    var v := Stored(e, f, ms);
    if v.Some? then v else Find(out, f.name)
  }

  lemma {:induction false} FieldsBuild(e: Engine, fs: seq<Field>, ms: seq<Member>, r: Result)
    requires r.value.Object? && DistinctNames(fs)
    ensures var out := RunFields(e, fs, ms, r).value.members;
      && (forall i :: 0 <= i < |fs| ==>
            Find(out, fs[i].name) == StoredOr(e, fs[i], ms, r.value.members))
      && (forall n :: !Known(fs, n) ==> Find(out, n) == Find(r.value.members, n))
    decreases fs
  {
    if fs != [] {
      var input := Lookup(ms, fs[0].name);
      var r1 := FieldStep(fs[0], input, Run(e, fs[0].schema, input), r);
      assert Find(r1.value.members, fs[0].name) == StoredOr(e, fs[0], ms, r.value.members);
      FieldsBuild(e, fs[1..], ms, r1);
      KnownCons(fs);
      forall i | 0 < i < |fs| ensures fs[i] == fs[1..][i - 1] && fs[i].name != fs[0].name {}
      forall j | 0 <= j < |fs| - 1 ensures fs[1..][j].name != fs[0].name { assert fs[1..][j] == fs[j + 1]; }
    }
  }

  lemma {:induction false} UnknownCopied(fs: seq<Field>, ms: seq<Member>, out: seq<Member>)
    ensures forall n :: Known(fs, n) ==> Find(CopyUnknown(fs, ms, out), n) == Find(out, n)
    decreases ms
  {
    if ms != [] {
      UnknownCopied(fs, ms[1..], if Known(fs, ms[0].key) then out else Put(out, ms[0].key, ms[0].value));
    }
  }

  /** Only a field's name is ever put into a closed result. */
  lemma {:induction false} FieldsOnly(e: Engine, fs: seq<Field>, all: seq<Field>, ms: seq<Member>, r: Result)
    requires r.value.Object? && AllKnown(all, r.value.members)
    requires forall n :: Known(fs, n) ==> Known(all, n)
    ensures AllKnown(all, RunFields(e, fs, ms, r).value.members)
    decreases fs
  {
    if fs != [] {
      var input := Lookup(ms, fs[0].name);
      var fr := Run(e, fs[0].schema, input);
      KnownCons(fs);
      PutKeys(r.value.members, fs[0].name, fr.value);
      FieldsOnly(e, fs[1..], all, ms, FieldStep(fs[0], input, fr, r));
    }
  }

  lemma {:induction false} PutKeys(ms: seq<Member>, key: Str, v: Json)
    ensures forall m :: m in Put(ms, key, v) ==> m.key == key || exists i :: 0 <= i < |ms| && ms[i].key == m.key
  {
    if ms != [] {
      PutKeys(ms[1..], key, v);
      forall m | m in Put(ms, key, v) && m.key != key ensures exists i :: 0 <= i < |ms| && ms[i].key == m.key {
        if ms[0].key == m.key {
        } else {
          var i :| 0 <= i < |ms| - 1 && ms[1..][i].key == m.key;
          assert ms[i + 1].key == m.key;
        }
      }
    }
  }

  // ── the parsed value ──────────

  lemma {:induction false} OutputSound(e: Engine, s: Schema, v: Json)
    requires Steady(e, s) && Accepts(e, s, Present(v))
    ensures Valid(e, Emit(s, Out), Run(e, s, Present(v)).value)
    decreases s, 2
  {
    EmitMeans(e, s, Out, Run(e, s, Present(v)).value);
    RunAccepts(e, s, Present(v));
    OutputNode(e, s, v);
  }

  lemma {:induction false} OutputNode(e: Engine, s: Schema, v: Json)
    requires Steady(e, s) && ParseType(e, s, Present(v)).issues == [] && AllPass(e, s.checks, Present(v))
    ensures var w := ParseType(e, s, Present(v)).value;
      Valid(e, if Wrapper(s) then Emit(s.node.inner, Out) else Doc(EmitNode(s, Out)), w)
    decreases s, 1
  {
    hide Valid, KeywordOk, Set, Get, FoldLo, FoldHi, NarrowAll, FinishObject, RunFields, RunElems, RunChecks;
    hide EmitFields, EmitString, EmitBounds, EmitObject, EmitArray, EmitRecord, EmitOptions, DefaultFirst, MappedNull;
    var w := ParseType(e, s, Present(v)).value;
    match s.node
    case KString => SoundString(e, s.checks, v);
    case KNumber => SoundNumber(e, s.checks, v);
    case KBool => TypeMeans(e, TBoolean, w);
    case KNull => TypeMeans(e, TNull, w);
    case KUnknown => EmptyMeans(e, w);
    case KNever =>
    case KLiteral(lit) => LiteralMeans(e, lit, w);
    case KEnum(vs) => EnumMeans(e, vs, seq(|vs|, i requires 0 <= i < |vs| => String(vs[i])), w);
    case KObject(_, _, _) => ObjectExact(e, s, v);
    case KArray(elem) => OutputArray(e, s, v);
    case KRecord(elem) =>
      OutputMembers(e, elem, v.members, [], []);
      RecordMeans(e, Emit(elem, Out), w);
    case KUnion(os) => OutputOptions(e, os, Present(v), []); AnyOfMeans(e, EmitOptions(os, Out), w);
    case KNullable(inner) =>
      if v != Null { OutputSound(e, inner, v); }
      NullableMeans(e, Emit(inner, Out), w);
    case KOptional(i) => OutputSound(e, i, v);
    case KDefault(i, _) => OutputSound(e, i, v);
    case KPipe(i, _) => OutputSound(e, i, v);
  }

  lemma {:induction false} OutputArray(e: Engine, s: Schema, v: Json)
    requires Steady(e, s) && s.node.KArray? && v.Array?
    requires ParseType(e, s, Present(v)).issues == [] && AllPass(e, s.checks, Present(v))
    ensures Valid(e, Doc(EmitNode(s, Out)), ParseType(e, s, Present(v)).value)
    decreases s, 0
  {
    hide Valid, KeywordOk;
    var elem := s.node.elem;
    ElemsAccept(e, elem, v.elems);
    OutputElems(e, elem, v.elems);
    SoundSize(e, s.checks, v, |v.elems|);
    ArrayMeans(e, FoldLo(s.checks, -1), FoldHi(s.checks, -1), Emit(elem, Out), ParseType(e, s, Present(v)).value);
  }

  lemma {:induction false} OutputElems(e: Engine, elem: Schema, vs: seq<Json>)
    requires Steady(e, elem) && forall i :: 0 <= i < |vs| ==> Accepts(e, elem, Present(vs[i]))
    ensures forall i :: 0 <= i < |vs| ==> Valid(e, Emit(elem, Out), RunElems(e, elem, vs).0[i])
    decreases elem, 3, |vs|
  {
    hide Valid, KeywordOk;
    if vs != [] {
      OutputSound(e, elem, vs[0]);
      forall i | 0 <= i < |vs| - 1 ensures Accepts(e, elem, Present(vs[1..][i])) { assert vs[1..][i] == vs[i + 1]; }
      OutputElems(e, elem, vs[1..]);
    }
  }

  lemma {:induction false} OutputMembers(e: Engine, elem: Schema, ms: seq<Member>, out: seq<Member>, issues: seq<Issue>)
    requires Steady(e, elem) && RunMembers(e, elem, ms, out, issues).1 == []
    requires forall i :: 0 <= i < |out| ==> Valid(e, Emit(elem, Out), out[i].value)
    ensures var r := RunMembers(e, elem, ms, out, issues).0;
      forall i :: 0 <= i < |r| ==> Valid(e, Emit(elem, Out), r[i].value)
    decreases elem, 3, |ms|
  {
    hide Valid, KeywordOk;
    if ms != [] {
      MembersAccept(e, elem, ms, out, issues);
      assert Accepts(e, elem, Present(ms[0].value));
      OutputSound(e, elem, ms[0].value);
      var w := Run(e, elem, Present(ms[0].value)).value;
      PutValues(e, Emit(elem, Out), out, ms[0].key, w);
      OutputMembers(e, elem, ms[1..], Put(out, ms[0].key, w), issues);
    }
  }

  lemma {:induction false} PutValues(e: Engine, d: Doc, ms: seq<Member>, key: Str, v: Json)
    requires Valid(e, d, v) && forall i :: 0 <= i < |ms| ==> Valid(e, d, ms[i].value)
    ensures forall i :: 0 <= i < |Put(ms, key, v)| ==> Valid(e, d, Put(ms, key, v)[i].value)
  {
    hide Valid, KeywordOk;
    if ms != [] { PutValues(e, d, ms[1..], key, v); }
  }

  lemma {:induction false} OutputOptions(e: Engine, os: seq<Schema>, input: Input, failed: seq<Result>)
    requires (forall i :: 0 <= i < |os| ==> Steady(e, os[i])) && input.Present?
    requires (forall r :: r in failed ==> r.issues != []) && RunOptions(e, os, input, failed).issues == []
    ensures exists i :: 0 <= i < |os| && Valid(e, EmitOptions(os, Out)[i], RunOptions(e, os, input, failed).value)
    decreases os, 3
  {
    hide Valid, KeywordOk;
    OptionsAccept(e, os, input, failed);
    if os != [] {
      var r := Run(e, os[0], input);
      if r.issues == [] {
        OutputSound(e, os[0], input.v);
        assert Valid(e, EmitOptions(os, Out)[0], r.value);
      } else {
        OutputOptions(e, os[1..], input, failed + [r]);
        var w := RunOptions(e, os, input, failed).value;
        var i :| 0 <= i < |os| - 1 && Valid(e, EmitOptions(os[1..], Out)[i], w);
        assert EmitOptions(os, Out)[i + 1] == EmitOptions(os[1..], Out)[i];
      }
    }
  }

  // ── absent fields ──────────

  /** What an absent field stores is valid when it comes from a default. */
  lemma {:induction false} AbsentSound(e: Engine, s: Schema)
    requires Steady(e, s) && DefaultFirst(e, s) && Accepts(e, s, Absent)
    ensures Valid(e, Emit(s, Out), Run(e, s, Absent).value)
    decreases s
  {
    hide Valid, KeywordOk, Set, Get;
    var w := Run(e, s, Absent).value;
    EmitMeans(e, s, Out, w);
    RunAccepts(e, s, Absent);
    match s.node
    case KDefault(_, _) =>
    case KPipe(i, _) => AbsentSound(e, i);
    case KUnknown => EmptyMeans(e, w);
    case KNullable(i) =>
      AbsentSound(e, i);
      var ds := [Emit(i, Out), NULL_DOC];
      AnyOfMeans(e, ds, w);
      assert Valid(e, ds[0], w);
    case KUnion(os) =>
      AbsentOptions(e, os, []);
      AnyOfMeans(e, EmitOptions(os, Out), w);
    case _ =>
  }

  lemma {:induction false} AbsentOptions(e: Engine, os: seq<Schema>, failed: seq<Result>)
    requires forall i :: 0 <= i < |os| ==> Steady(e, os[i])
    requires DefaultFirstOf(e, os) && forall r :: r in failed ==> r.issues != []
    ensures exists i :: 0 <= i < |os| && Valid(e, EmitOptions(os, Out)[i], RunOptions(e, os, Absent, failed).value)
    decreases os
  {
    hide Valid, KeywordOk;
    if Accepts(e, os[0], Absent) {
      AbsentSound(e, os[0]);
      assert Valid(e, EmitOptions(os, Out)[0], RunOptions(e, os, Absent, failed).value);
    } else {
      AbsentOptions(e, os[1..], failed + [Run(e, os[0], Absent)]);
      var w := RunOptions(e, os, Absent, failed).value;
      var i :| 0 <= i < |os| - 1 && Valid(e, EmitOptions(os[1..], Out)[i], w);
      assert EmitOptions(os, Out)[i + 1] == EmitOptions(os[1..], Out)[i];
    }
  }

  /** Otherwise it is the null of an optional branch, mapped. */
  lemma {:induction false} AbsentNull(e: Engine, s: Schema)
    requires Accepts(e, s, Absent) && !DefaultFirst(e, s)
    ensures Run(e, s, Absent).value == MappedNull(e, s)
    decreases s
  {
    RunAccepts(e, s, Absent);
    match s.node
    case KPipe(i, _) => AbsentNull(e, i);
    case KNullable(i) => AbsentNull(e, i);
    case KUnion(os) => AbsentNullOf(e, os, []);
    case _ =>
  }

  lemma {:induction false} AbsentNullOf(e: Engine, os: seq<Schema>, failed: seq<Result>)
    requires (forall r :: r in failed ==> r.issues != []) && RunOptions(e, os, Absent, failed).issues == []
    requires !DefaultFirstOf(e, os)
    ensures RunOptions(e, os, Absent, failed).value == MappedNullOf(e, os)
    decreases os
  {
    OptionsAccept(e, os, Absent, failed);
    if Accepts(e, os[0], Absent) {
      AbsentNull(e, os[0]);
    } else {
      AbsentNullOf(e, os[1..], failed + [Run(e, os[0], Absent)]);
    }
  }

  /** What an absent field stores is valid exactly when a default comes first or the
      document admits the null stored instead. */
  lemma AbsentExact(e: Engine, s: Schema)
    requires Steady(e, s) && Accepts(e, s, Absent)
    ensures Valid(e, Emit(s, Out), Run(e, s, Absent).value) <==> AbsentFits(e, s)
  {
    hide Valid, Run, Steady;
    if DefaultFirst(e, s) { AbsentSound(e, s); } else { AbsentNull(e, s); }
  }

  /** The members of a parsed object: what each field stored, and for a closed
      object nothing else. */
  lemma ObjectBuilt(e: Engine, s: Schema, v: Json)
    requires s.node.KObject? && v.Object? && DistinctNames(s.node.fields)
    ensures var w := ParseType(e, s, Present(v)).value;
      && w.Object?
      && (forall j :: 0 <= j < |s.node.fields| ==>
            Find(w.members, s.node.fields[j].name) == Stored(e, s.node.fields[j], v.members))
      && (s.node.catchall != Loose ==> AllKnown(s.node.fields, w.members))
  {
    hide Run, RunFields;
    var fs := s.node.fields;
    var r := RunFields(e, fs, v.members, Ok(Object([])));
    FieldsBuild(e, fs, v.members, Ok(Object([])));
    UnknownCopied(fs, v.members, r.value.members);
    FieldsOnly(e, fs, fs, v.members, Ok(Object([])));
    assert ParseType(e, s, Present(v)) == FinishObject(fs, s.node.catchall, s.node.superRefine, v.members, r);
    forall j | 0 <= j < |fs| ensures Known(fs, fs[j].name) {}
  }

  // Every field absent from ms that stores something then stores what fits.
  ghost predicate AbsentFieldsFit(e: Engine, fs: seq<Field>, ms: seq<Member>) {
    forall j :: 0 <= j < |fs| && Lookup(ms, fs[j].name).Absent? && StoresAbsent(e, fs[j].schema)
      ==> AbsentFits(e, fs[j].schema)
  }

  ghost predicate SteadyFields(e: Engine, fs: seq<Field>) {
    DistinctNames(fs) && forall i :: 0 <= i < |fs| ==> Steady(e, fs[i].schema)
  }

  /** A parsed object is valid exactly when its absent fields' stored values fit. */
  lemma {:induction false} ObjectExact(e: Engine, s: Schema, v: Json)
    requires s.node.KObject? && SteadyFields(e, s.node.fields) && ParseType(e, s, Present(v)).issues == []
    ensures Valid(e, Doc(EmitNode(s, Out)), ParseType(e, s, Present(v)).value)
       <==> AbsentFieldsFit(e, s.node.fields, v.members)
    decreases s, 0
  {
    hide Valid, KeywordOk, Set, Get, Run, RunFields, FinishObject, Steady, AbsentFits, LeftOut, Stored, EmitFields;
    hide AllPass, EmitObject, RequiredNames, Emit, StoresAbsent;
    var fs := s.node.fields;
    ObjectAccepts(e, s, v);
    ObjectBuilt(e, s, v);
    var w := ParseType(e, s, Present(v)).value;
    var ps := EmitFields(fs, Out, []);
    FieldsIn(fs, Out, []);
    FieldsKept(fs, Out, []);
    RequiredStored(e, fs, v.members, w.members);
    if s.node.catchall != Loose {
      forall i | 0 <= i < |w.members| ensures Named(ps, w.members[i].key) {
        assert Known(fs, w.members[i].key);
      }
    }
    ObjectMeans(e, ps, RequiredNames(fs, Out), s.node.catchall, Out, w);
    FieldsFit(e, fs, v.members, w.members, ps);
  }

  ghost predicate PropsHold(e: Engine, ps: seq<Prop>, ms: seq<Member>) {
    forall i :: 0 <= i < |ps| && Find(ms, ps[i].name).Some? ==> Valid(e, ps[i].d, Find(ms, ps[i].name).value)
  }

  lemma {:induction false} FieldsFit(e: Engine, fs: seq<Field>, ms: seq<Member>, out: seq<Member>, ps: seq<Prop>)
    requires SteadyFields(e, fs)
    requires forall j :: 0 <= j < |fs| ==> Find(out, fs[j].name) == Stored(e, fs[j], ms)
    requires forall p :: p in ps ==> PropOf(p, fs, Out)
    requires forall j :: 0 <= j < |fs| ==> Prop(fs[j].name, Emit(fs[j].schema, Out)) in ps
    ensures PropsHold(e, ps, out) <==> AbsentFieldsFit(e, fs, ms)
    decreases fs, 4
  {
    hide Valid, KeywordOk, Steady, AbsentFits, LeftOut, Stored, Run;
    if AbsentFieldsFit(e, fs, ms) {
      forall i | 0 <= i < |ps| && Find(out, ps[i].name).Some?
        ensures Valid(e, ps[i].d, Find(out, ps[i].name).value)
      {
        assert ps[i] in ps;
        var j :| 0 <= j < |fs| && ps[i] == Prop(fs[j].name, Emit(fs[j].schema, Out));
        if Lookup(ms, fs[j].name).Absent? { StoredWhenAbsent(e, fs[j], ms); }
        StoredExact(e, fs[j], ms);
      }
    }
    if PropsHold(e, ps, out) {
      forall j | 0 <= j < |fs| && Lookup(ms, fs[j].name).Absent? && StoresAbsent(e, fs[j].schema)
        ensures AbsentFits(e, fs[j].schema)
      {
        StoredWhenAbsent(e, fs[j], ms);
        StoredExact(e, fs[j], ms);
        var i :| 0 <= i < |ps| && ps[i] == Prop(fs[j].name, Emit(fs[j].schema, Out));
      }
    }
  }

  lemma StoredWhenAbsent(e: Engine, f: Field, ms: seq<Member>)
    requires Lookup(ms, f.name).Absent?
    ensures Stored(e, f, ms).Some? <==> StoresAbsent(e, f.schema)
  {
    hide Run;
    if Optin(f.schema) == OptNone { OptinNoneRejects(e, f.schema); }
  }

  lemma RequiredStored(e: Engine, fs: seq<Field>, ms: seq<Member>, out: seq<Member>)
    requires forall j :: 0 <= j < |fs| ==> FieldOk(e, fs[j], ms) && Find(out, fs[j].name) == Stored(e, fs[j], ms)
    ensures forall n :: n in RequiredNames(fs, Out) ==> Find(out, n).Some?
  {
    RequiredIn(fs, Out);
    forall n | n in RequiredNames(fs, Out) ensures Find(out, n).Some? {
      var j :| 0 <= j < |fs| && fs[j].name == n && Required(fs[j], Out);
      assert FieldOk(e, fs[j], ms);
      if Lookup(ms, n).Absent? && Optin(fs[j].schema) == OptNone { OptinNoneRejects(e, fs[j].schema); }
    }
  }

  lemma {:induction false} StoredExact(e: Engine, f: Field, ms: seq<Member>)
    requires Steady(e, f.schema) && Stored(e, f, ms).Some?
    ensures Valid(e, Emit(f.schema, Out), Stored(e, f, ms).value)
       <==> (Lookup(ms, f.name).Absent? ==> AbsentFits(e, f.schema))
    decreases f.schema, 3
  {
    hide Valid, KeywordOk, Steady, AbsentFits;
    var input := Lookup(ms, f.name);
    if input.Present? { OutputSound(e, f.schema, input.v); } else { AbsentExact(e, f.schema); }
  }

  /** MAIN: every value Parse returns is valid under the advertised output document. */
  lemma ParsedIsAdvertised(e: Engine, s: Schema, v: Json)
    requires Steady(e, s) && Parse(e, s, v).Some?
    ensures Valid(e, JSONSchema(s, Out), Parse(e, s, v).value)
  {
    OutputSound(e, s, v);
    DocumentMeans(e, s, Out, Parse(e, s, v).value);
  }

  /** An object tool's parsed value is valid exactly when what its absent fields store fits. */
  lemma ParsedObjectExact(e: Engine, s: Schema, v: Json)
    requires s.node.KObject? && AnnotationsOnly(s.meta) && SteadyFields(e, s.node.fields) && Parse(e, s, v).Some?
    ensures v.Object?
    ensures Valid(e, JSONSchema(s, Out), Parse(e, s, v).value) <==> AbsentFieldsFit(e, s.node.fields, v.members)
  {
    hide Valid, KeywordOk, Steady, AbsentFits, JSONSchema, Emit, EmitNode;
    RunAccepts(e, s, Present(v));
    ObjectAccepts(e, s, v);
    var w := Parse(e, s, v).value;
    DocumentMeans(e, s, Out, w);
    EmitMeans(e, s, Out, w);
    ObjectExact(e, s, v);
  }
}
