/** Compiler correctness: the parser and the advertised document agree. */
module SchemaTheorems {
  import opened JsonValue
  import opened SchemaAst
  import opened SchemaRun
  import opened SchemaDoc
  import opened SchemaEmit
  import opened SchemaCompact
  import opened SchemaAccept
  import opened SchemaMeaning
  import T = Text

  const DRAFT_07: Str := T.Ascii("http://json-schema.org/draft-07/schema#")

  /** Schema.JSONSchema: the compacted document under its $schema key. */
  function JSONSchema(s: Schema, dir: Dir): Doc {
    var root := Compact(Emit(s, dir));
    Doc(CopyInto([Entry(KwSchema, Lit(String(DRAFT_07)))], root.entries))
  }

  function CopyInto(o: seq<Entry>, es: seq<Entry>): seq<Entry>
    decreases es
  {
    if es == [] then o else CopyInto(Set(o, es[0].key, es[0].value), es[1..])
  }

  lemma {:induction false} CopyIntoGet(o: seq<Entry>, es: seq<Entry>, k: Key)
    ensures Get(es, k).None? ==> Get(CopyInto(o, es), k) == Get(o, k)
    decreases es
  {
    if es != [] { CopyIntoGet(Set(o, es[0].key, es[0].value), es[1..], k); }
  }

  /** Metadata only annotates, and literals are values JSON can write. */
  predicate Plain(s: Schema)
    decreases s
  {
    AnnotationsOnly(s.meta) &&
    match s.node
    case KLiteral(lit) => Primitive(lit) && !(lit.Number? && lit.n.Inf?)
    case KObject(fs, _, _) => forall i :: 0 <= i < |fs| ==> Plain(fs[i].schema)
    case KArray(i) => Plain(i)
    case KRecord(i) => Plain(i)
    case KUnion(os) => forall i :: 0 <= i < |os| ==> Plain(os[i])
    case KOptional(i) => Plain(i)
    case KNullable(i) => Plain(i)
    case KDefault(i, _) => Plain(i)
    case KPipe(i, _) => Plain(i)
    case _ => true
  }

  // ── the object node ──────────

  predicate PropOf(p: Prop, fs: seq<Field>, dir: Dir) {
    exists j :: 0 <= j < |fs| && p == Prop(fs[j].name, Emit(fs[j].schema, dir))
  }

  lemma {:induction false} SetPropIn(ps: seq<Prop>, name: Str, d: Doc)
    ensures forall p :: p in SetProp(ps, name, d) ==> p in ps || p == Prop(name, d)
    ensures Prop(name, d) in SetProp(ps, name, d)
    ensures forall n :: Named(SetProp(ps, name, d), n) <==> n == name || Named(ps, n)
    ensures forall p :: p in ps && p.name != name ==> p in SetProp(ps, name, d)
  {
    var r := SetProp(ps, name, d);
    if ps == [] {
      assert r[0].name == name;
    } else if ps[0].name == name {
      assert ps == [ps[0]] + ps[1..];
      assert r[0].name == name;
      assert forall i :: 0 < i < |ps| ==> r[i] == ps[i];
    } else {
      SetPropIn(ps[1..], name, d);
      assert ps == [ps[0]] + ps[1..];
      var t := SetProp(ps[1..], name, d);
      assert forall n :: Named(r, n) <==> ps[0].name == n || Named(t, n) by { NamedCons(ps[0], t); }
      assert forall n :: Named(ps, n) <==> ps[0].name == n || Named(ps[1..], n) by { NamedCons(ps[0], ps[1..]); }
    }
  }

  lemma NamedCons(p: Prop, ps: seq<Prop>)
    ensures forall n :: Named([p] + ps, n) <==> p.name == n || Named(ps, n)
  {
    forall n | Named(ps, n) ensures Named([p] + ps, n) {
      var i :| 0 <= i < |ps| && ps[i].name == n;
      assert ([p] + ps)[i + 1].name == n;
    }
    forall n | p.name == n ensures Named([p] + ps, n) { assert ([p] + ps)[0].name == n; }
  }

  /** Every property comes from a field, and every field's name is a property. */
  lemma {:induction false} FieldsIn(fs: seq<Field>, dir: Dir, ps: seq<Prop>)
    ensures forall p :: p in EmitFields(fs, dir, ps) ==> p in ps || PropOf(p, fs, dir)
    ensures forall n :: Named(EmitFields(fs, dir, ps), n) <==> Named(ps, n) || Known(fs, n)
    decreases fs
  {
    if fs != [] {
      var d := Emit(fs[0].schema, dir);
      var ps1 := SetProp(ps, fs[0].name, d);
      SetPropIn(ps, fs[0].name, d);
      FieldsIn(fs[1..], dir, ps1);
      forall p | PropOf(p, fs[1..], dir) ensures PropOf(p, fs, dir) {
        var j :| 0 <= j < |fs| - 1 && p == Prop(fs[1..][j].name, Emit(fs[1..][j].schema, dir));
        assert p == Prop(fs[j + 1].name, Emit(fs[j + 1].schema, dir));
      }
      assert PropOf(Prop(fs[0].name, d), fs, dir);
      KnownCons(fs);
    }
  }

  lemma KnownCons(fs: seq<Field>)
    requires fs != []
    ensures forall n :: Known(fs, n) <==> fs[0].name == n || Known(fs[1..], n)
  {
    forall n | Known(fs[1..], n) ensures Known(fs, n) {
      var i :| 0 <= i < |fs| - 1 && fs[1..][i].name == n;
      assert fs[i + 1].name == n;
    }
    forall n | Known(fs, n) && fs[0].name != n ensures Known(fs[1..], n) {
      var i :| 0 <= i < |fs| && fs[i].name == n;
      assert fs[1..][i - 1].name == n;
    }
  }

  lemma {:induction false} RequiredIn(fs: seq<Field>, dir: Dir)
    ensures forall n :: n in RequiredNames(fs, dir) <==>
      exists j :: 0 <= j < |fs| && fs[j].name == n && Required(fs[j], dir)
  {
    if fs != [] {
      RequiredIn(fs[1..], dir);
      forall n | n in RequiredNames(fs, dir)
        ensures exists j :: 0 <= j < |fs| && fs[j].name == n && Required(fs[j], dir)
      {
        if n in RequiredNames(fs[1..], dir) {
          var j :| 0 <= j < |fs| - 1 && fs[1..][j].name == n && Required(fs[1..][j], dir);
          assert fs[j + 1] == fs[1..][j];
        }
      }
      forall j | 0 <= j < |fs| && Required(fs[j], dir) ensures fs[j].name in RequiredNames(fs, dir) {
        if j > 0 { assert fs[j] == fs[1..][j - 1]; }
      }
    }
  }

  // ── soundness ──────────

  /** Whatever the parser accepts, the emitted input document validates. */
  lemma {:induction false} Sound(e: Engine, s: Schema, v: Json)
    requires Plain(s) && Accepts(e, s, Present(v))
    ensures Valid(e, Emit(s, In), v)
    decreases s, 2
  {
    EmitMeans(e, s, In, v);
    RunAccepts(e, s, Present(v));
    if Wrapper(s) {
      Sound(e, s.node.inner, v);
    } else {
      SoundNode(e, s, v);
    }
  }

  lemma {:induction false} SoundNode(e: Engine, s: Schema, v: Json)
    requires Plain(s) && !Wrapper(s)
    requires ParseType(e, s, Present(v)).issues == [] && AllPass(e, s.checks, Present(v))
    ensures Valid(e, Doc(EmitNode(s, In)), v)
    decreases s, 1
  {
    hide Valid, KeywordOk, Set, Get, FoldLo, FoldHi, NarrowAll, FinishObject, RunFields, RunElems, RunMembers;
    hide RunOptions, Run, EmitFields, EmitString, EmitBounds, EmitObject, EmitArray, EmitRecord;
    match s.node
    case KString => SoundString(e, s.checks, v);
    case KNumber => SoundNumber(e, s.checks, v);
    case KBool => TypeMeans(e, TBoolean, v);
    case KNull => TypeMeans(e, TNull, v);
    case KUnknown => EmptyMeans(e, v);
    case KNever =>
    case KLiteral(lit) => LiteralMeans(e, lit, v);
    case KEnum(vs) => EnumMeans(e, vs, seq(|vs|, i requires 0 <= i < |vs| => String(vs[i])), v);
    case KObject(_, _, _) => SoundObject(e, s, v);
    case KArray(elem) =>
      ElemsAccept(e, elem, v.elems);
      SoundSize(e, s.checks, v, |v.elems|);
      forall i | 0 <= i < |v.elems| ensures Valid(e, Emit(elem, In), v.elems[i]) { Sound(e, elem, v.elems[i]); }
      ArrayMeans(e, FoldLo(s.checks, -1), FoldHi(s.checks, -1), Emit(elem, In), v);
    case KRecord(elem) =>
      MembersAccept(e, elem, v.members, [], []);
      forall i | 0 <= i < |v.members| ensures Valid(e, Emit(elem, In), v.members[i].value) {
        Sound(e, elem, v.members[i].value);
      }
      RecordMeans(e, Emit(elem, In), v);
    case KUnion(os) =>
      OptionsAccept(e, os, Present(v), []);
      var i :| 0 <= i < |os| && Accepts(e, os[i], Present(v));
      Sound(e, os[i], v);
      AnyOfMeans(e, EmitOptions(os, In), v);
    case KNullable(inner) =>
      if v != Null { Sound(e, inner, v); }
      NullableMeans(e, Emit(inner, In), v);
  }

  lemma NullDocMeans(e: Engine, v: Json)
    ensures Valid(e, NULL_DOC, v) <==> v == Null
  {
    TypeMeans(e, TNull, v);
    assert Set([], KwType, Type(TNull)) == NULL_DOC.entries;
  }

  lemma NullableMeans(e: Engine, d: Doc, v: Json)
    ensures Valid(e, Doc(Set([], KwAnyOf, Subs([d, NULL_DOC]))), v) <==> v == Null || Valid(e, d, v)
  {
    hide Valid, KeywordOk, Set, Get;
    var ds := [d, NULL_DOC];
    AnyOfMeans(e, ds, v);
    NullDocMeans(e, v);
    assert Valid(e, ds[0], v) <==> Valid(e, d, v);
    assert Valid(e, ds[1], v) <==> v == Null;
  }

  lemma SoundSize(e: Engine, cs: seq<Check>, v: Json, size: nat)
    requires AllPass(e, cs, Present(v)) && LengthOf(e, Present(v)) == Some(size)
    ensures WithinBounds(FoldLo(cs, -1), FoldHi(cs, -1), size)
  {
    forall c | c in cs ensures SizePasses(c, size) { assert CheckPasses(e, c, Present(v)); }
    FoldSound(cs, -1, -1, size);
  }

  lemma SoundString(e: Engine, cs: seq<Check>, v: Json)
    requires v.String? && AllPass(e, cs, Present(v))
    ensures Valid(e, Doc(EmitString(cs)), v)
  {
    StringMeans(e, cs, v);
    SoundSize(e, cs, v, e.runes(v.s));
    LastPatternIn(cs, None);
    var p := LastPattern(cs, None);
    if p.Some? {
      var f :| Pattern(f, p.value) in cs;
      assert CheckPasses(e, Pattern(f, p.value), Present(v));
    }
  }

  lemma SoundNumber(e: Engine, cs: seq<Check>, v: Json)
    requires v.Number? && !v.n.Inf? && AllPass(e, cs, Present(v))
    ensures Valid(e, Doc(EmitNumber(cs)), v)
  {
    forall c | c in cs ensures NumberPasses(c, v.n) { assert CheckPasses(e, c, Present(v)); }
    NarrowMeans(cs, UNBOUNDED, v.n);
    NumberMeans(e, NarrowAll(cs, UNBOUNDED), v);
  }

  lemma {:induction false} SoundObject(e: Engine, s: Schema, v: Json)
    requires Plain(s) && s.node.KObject? && ParseType(e, s, Present(v)).issues == []
    ensures Valid(e, Doc(EmitNode(s, In)), v)
    decreases s, 0
  {
    var fs := s.node.fields;
    ObjectAccepts(e, s, v);
    var ps := EmitFields(fs, In, []);
    FieldsIn(fs, In, []);
    RequiredIn(fs, In);
    forall i | 0 <= i < |ps| && Find(v.members, ps[i].name).Some?
      ensures Valid(e, ps[i].d, Find(v.members, ps[i].name).value)
    {
      assert ps[i] in ps;
      var j :| 0 <= j < |fs| && ps[i] == Prop(fs[j].name, Emit(fs[j].schema, In));
      assert FieldOk(e, fs[j], v.members);
      Sound(e, fs[j].schema, Find(v.members, fs[j].name).value);
    }
    forall n | n in RequiredNames(fs, In) ensures Find(v.members, n).Some? {
      var j :| 0 <= j < |fs| && fs[j].name == n && Required(fs[j], In);
      assert FieldOk(e, fs[j], v.members);
      OptinNoneRejects(e, fs[j].schema);
    }
    ObjectMeans(e, ps, RequiredNames(fs, In), s.node.catchall, In, v);
  }

  // ── completeness ──────────

  predicate StringCheck(c: Check) { c.Pattern? || (c.IsLength() && Carried(c)) }
  predicate NumberCheck(c: Check) { c.Int? || c.Gt? || c.Gte? || c.Lte? || c.IsLength() }

  predicate OnePattern(cs: seq<Check>) {
    forall i, j :: 0 <= i < |cs| && 0 <= j < |cs| && cs[i].Pattern? && cs[j].Pattern? ==> cs[i].source == cs[j].source
  }

  predicate DistinctNames(fs: seq<Field>) {
    forall i, j :: 0 <= i < j < |fs| ==> fs[i].name != fs[j].name
  }

  /** The fragment the document describes completely: no refine, superRefine or
      url; one pattern a string at most; length bounds that are carried; every other check
      on the type it is for, so none on a wrapper. */
  predicate Exact(s: Schema)
    decreases s
  {
    AnnotationsOnly(s.meta) &&
    (!s.node.KString? && !s.node.KNumber? && !s.node.KArray? ==> s.checks == []) &&
    match s.node
    case KString => (forall i :: 0 <= i < |s.checks| ==> StringCheck(s.checks[i])) && OnePattern(s.checks)
    case KNumber => forall i :: 0 <= i < |s.checks| ==> NumberCheck(s.checks[i])
    case KArray(elem) =>
      (forall i :: 0 <= i < |s.checks| ==> s.checks[i].IsLength() && Carried(s.checks[i])) && Exact(elem)
    case KLiteral(lit) => Primitive(lit) && !(lit.Number? && lit.n.Inf?)
    case KObject(fs, _, refine) =>
      refine.None? && DistinctNames(fs) && forall i :: 0 <= i < |fs| ==> Exact(fs[i].schema)
    case KRecord(i) => Exact(i)
    case KUnion(os) => forall i :: 0 <= i < |os| ==> Exact(os[i])
    case KOptional(i) => Exact(i)
    case KNullable(i) => Exact(i)
    case KDefault(i, _) => Exact(i)
    case KPipe(i, _) => Exact(i)
    case _ => true
  }

  lemma {:induction false} ExactIsPlain(s: Schema)
    requires Exact(s)
    ensures Plain(s) && BareWrappers(s)
    decreases s
  {
    match s.node
    case KObject(fs, _, _) => forall i | 0 <= i < |fs| { ExactIsPlain(fs[i].schema); }
    case KArray(i) => ExactIsPlain(i);
    case KRecord(i) => ExactIsPlain(i);
    case KUnion(os) => forall i | 0 <= i < |os| { ExactIsPlain(os[i]); }
    case KOptional(i) => ExactIsPlain(i);
    case KNullable(i) => ExactIsPlain(i);
    case KDefault(i, _) => ExactIsPlain(i);
    case KPipe(i, _) => ExactIsPlain(i);
    case _ =>
  }

  /** On the exact fragment, whatever the document validates the parser accepts. */
  lemma {:induction false} Complete(e: Engine, s: Schema, v: Json)
    requires Exact(s) && Valid(e, Emit(s, In), v)
    ensures Accepts(e, s, Present(v))
    decreases s, 2
  {
    EmitMeans(e, s, In, v);
    RunAccepts(e, s, Present(v));
    if Wrapper(s) {
      Complete(e, s.node.inner, v);
    } else {
      CompleteNode(e, s, v);
    }
  }

  lemma {:induction false} CompleteNode(e: Engine, s: Schema, v: Json)
    requires Exact(s) && !Wrapper(s) && Valid(e, Doc(EmitNode(s, In)), v)
    ensures ParseType(e, s, Present(v)).issues == [] && AllPass(e, s.checks, Present(v))
    decreases s, 1
  {
    hide Valid, KeywordOk, Set, Get, FoldLo, FoldHi, NarrowAll, Plain, FinishObject, RunFields, RunElems;
    hide RunMembers, RunOptions, Run, EmitFields, EmitString, EmitBounds, EmitObject, EmitArray, EmitRecord;
    match s.node
    case KString => CompleteString(e, s.checks, v);
    case KNumber => CompleteNumber(e, s.checks, v);
    case KBool => TypeMeans(e, TBoolean, v);
    case KNull => TypeMeans(e, TNull, v);
    case KUnknown =>
    case KNever => NeverMeans(e, v);
    case KLiteral(lit) => LiteralMeans(e, lit, v);
    case KEnum(vs) => EnumMeans(e, vs, seq(|vs|, i requires 0 <= i < |vs| => String(vs[i])), v);
    case KObject(_, _, _) => CompleteObject(e, s, v);
    case KArray(_) => CompleteArray(e, s, v);
    case KRecord(_) => CompleteRecord(e, s, v);
    case KUnion(os) =>
      AnyOfMeans(e, EmitOptions(os, In), v);
      var i :| 0 <= i < |os| && Valid(e, EmitOptions(os, In)[i], v);
      Complete(e, os[i], v);
      OptionsAccept(e, os, Present(v), []);
    case KNullable(inner) =>
      NullableMeans(e, Emit(inner, In), v);
      if v != Null { Complete(e, inner, v); }
  }

  lemma {:induction false} CompleteArray(e: Engine, s: Schema, v: Json)
    requires Exact(s) && s.node.KArray? && Valid(e, Doc(EmitNode(s, In)), v)
    ensures ParseType(e, s, Present(v)).issues == [] && AllPass(e, s.checks, Present(v))
    decreases s, 0
  {
    hide Valid, KeywordOk, FoldLo, FoldHi, Run, RunElems, EmitArray;
    var elem := s.node.elem;
    ArrayMeans(e, FoldLo(s.checks, -1), FoldHi(s.checks, -1), Emit(elem, In), v);
    CompleteSize(e, s.checks, v, |v.elems|);
    forall i | 0 <= i < |v.elems| ensures Accepts(e, elem, Present(v.elems[i])) { Complete(e, elem, v.elems[i]); }
    ElemsAccept(e, elem, v.elems);
  }

  lemma {:induction false} CompleteRecord(e: Engine, s: Schema, v: Json)
    requires Exact(s) && s.node.KRecord? && Valid(e, Doc(EmitNode(s, In)), v)
    ensures ParseType(e, s, Present(v)).issues == []
    decreases s, 0
  {
    hide Valid, KeywordOk, Run, RunMembers, EmitRecord;
    var elem := s.node.value;
    RecordMeans(e, Emit(elem, In), v);
    forall i | 0 <= i < |v.members| ensures Accepts(e, elem, Present(v.members[i].value)) {
      Complete(e, elem, v.members[i].value);
    }
    MembersAccept(e, elem, v.members, [], []);
  }

  lemma CompleteSize(e: Engine, cs: seq<Check>, v: Json, size: nat)
    requires forall c :: c in cs ==> c.Pattern? || (c.IsLength() && Carried(c))
    requires WithinBounds(FoldLo(cs, -1), FoldHi(cs, -1), size) && LengthOf(e, Present(v)) == Some(size)
    ensures forall c :: c in cs && c.IsLength() ==> CheckPasses(e, c, Present(v))
  {
    FoldExact(cs, -1, -1, size);
  }

  lemma {:induction false} OnlyPattern(cs: seq<Check>, p: Option<Str>)
    requires OnePattern(cs)
    requires p.Some? ==> forall c :: c in cs && c.Pattern? ==> c.source == p.value
    ensures forall c :: c in cs && c.Pattern? ==> LastPattern(cs, p) == Some(c.source)
  {
    if cs != [] {
      assert forall c :: c in cs <==> c == cs[0] || c in cs[1..];
      var p1 := if cs[0].Pattern? then Some(cs[0].source) else p;
      OnlyPattern(cs[1..], p1);
      LastPatternIn(cs[1..], p1);
    }
  }

  lemma CompleteString(e: Engine, cs: seq<Check>, v: Json)
    requires (forall i :: 0 <= i < |cs| ==> StringCheck(cs[i])) && OnePattern(cs)
    requires Valid(e, Doc(EmitString(cs)), v)
    ensures v.String? && AllPass(e, cs, Present(v))
  {
    StringMeans(e, cs, v);
    CompleteSize(e, cs, v, e.runes(v.s));
    OnlyPattern(cs, None);
    forall c | c in cs ensures CheckPasses(e, c, Present(v)) { assert StringCheck(c); }
  }

  lemma CompleteNumber(e: Engine, cs: seq<Check>, v: Json)
    requires forall i :: 0 <= i < |cs| ==> NumberCheck(cs[i])
    requires Valid(e, Doc(EmitNumber(cs)), v)
    ensures v.Number? && !v.n.Inf? && AllPass(e, cs, Present(v))
  {
    NumberMeans(e, NarrowAll(cs, UNBOUNDED), v);
    NarrowMeans(cs, UNBOUNDED, v.n);
    forall c | c in cs ensures CheckPasses(e, c, Present(v)) { assert NumberPasses(c, v.n) && NumberCheck(c); }
  }

  /** With distinct names every field's own document is the property's. */
  lemma {:induction false} FieldsKept(fs: seq<Field>, dir: Dir, ps: seq<Prop>)
    requires DistinctNames(fs) && forall i :: 0 <= i < |fs| ==> !Named(ps, fs[i].name)
    ensures forall p :: p in ps ==> p in EmitFields(fs, dir, ps)
    ensures forall i :: 0 <= i < |fs| ==> Prop(fs[i].name, Emit(fs[i].schema, dir)) in EmitFields(fs, dir, ps)
    decreases fs
  {
    if fs != [] {
      var d := Emit(fs[0].schema, dir);
      SetPropIn(ps, fs[0].name, d);
      forall p | p in ps ensures p.name != fs[0].name {
        var i :| 0 <= i < |ps| && ps[i] == p;
        assert Named(ps, p.name);
      }
      FieldsKept(fs[1..], dir, SetProp(ps, fs[0].name, d));
      forall i | 0 < i < |fs| ensures Prop(fs[i].name, Emit(fs[i].schema, dir)) in EmitFields(fs, dir, ps) {
        assert fs[i] == fs[1..][i - 1];
      }
    }
  }

  lemma {:induction false} CompleteObject(e: Engine, s: Schema, v: Json)
    requires Exact(s) && s.node.KObject? && Valid(e, Doc(EmitNode(s, In)), v)
    ensures ParseType(e, s, Present(v)).issues == []
    decreases s, 0
  {
    hide Valid, KeywordOk, Set, Get, Run, RunFields, EmitFields, EmitObject, RequiredNames;
    var fs := s.node.fields;
    var ps := EmitFields(fs, In, []);
    ObjectMeans(e, ps, RequiredNames(fs, In), s.node.catchall, In, v);
    FieldsIn(fs, In, []);
    FieldsKept(fs, In, []);
    RequiredIn(fs, In);
    forall j | 0 <= j < |fs| ensures FieldOk(e, fs[j], v.members) {
      if Find(v.members, fs[j].name).Some? {
        var i :| 0 <= i < |ps| && ps[i] == Prop(fs[j].name, Emit(fs[j].schema, In));
        Complete(e, fs[j].schema, Find(v.members, fs[j].name).value);
      } else {
        assert !Required(fs[j], In);
        ExactIsPlain(fs[j].schema);
        OptinExact(e, fs[j].schema);
      }
    }
    if s.node.catchall == Strict {
      forall i | 0 <= i < |v.members| ensures Known(fs, v.members[i].key) {
        assert Named(ps, v.members[i].key);
      }
    }
    ObjectAccepts(e, s, v);
  }

  // ── the advertised document ──────────

  lemma {:induction false} CopiedGet(o: seq<Entry>, es: seq<Entry>, k: Key)
    requires UniqueEntries(es) && (Get(es, k).None? ==> Get(o, k).None? || Annotation(k))
    ensures !Annotation(k) ==> Get(CopyInto(o, es), k) == Get(es, k)
    decreases es
  {
    if es != [] {
      var o1 := Set(o, es[0].key, es[0].value);
      if es[0].key == k {
        NoneIfAbsent(es[1..], k);
        CopyIntoGet(o1, es[1..], k);
      } else {
        CopiedGet(o1, es[1..], k);
      }
    }
  }

  predicate UniqueEntries(es: seq<Entry>) {
    forall i, j :: 0 <= i < j < |es| ==> es[i].key != es[j].key
  }

  lemma {:induction false} NoneIfAbsent(es: seq<Entry>, k: Key)
    requires forall i :: 0 <= i < |es| ==> es[i].key != k
    ensures Get(es, k).None?
  {
    if es != [] { NoneIfAbsent(es[1..], k); }
  }

  lemma {:induction false} SetUnique(es: seq<Entry>, k: Key, v: Value)
    requires UniqueEntries(es)
    ensures UniqueEntries(Set(es, k, v))
    ensures forall i :: 0 <= i < |Set(es, k, v)| ==>
      Set(es, k, v)[i].key == k || exists j :: 0 <= j < |es| && es[j].key == Set(es, k, v)[i].key
  {
    if es != [] && es[0].key != k {
      var r := Set(es[1..], k, v);
      SetUnique(es[1..], k, v);
      assert Set(es, k, v) == [es[0]] + r;
      hide Set;
      forall i | 0 <= i < |r| ensures r[i].key == k || exists j :: 0 < j < |es| && es[j].key == r[i].key {
        if r[i].key != k {
          var j :| 0 <= j < |es[1..]| && es[1..][j].key == r[i].key;
          assert es[j + 1].key == r[i].key;
        }
      }
      UniqueMore(es[0], r);
    } else {
      OneSet(es, k, v);
    }
  }

  lemma UniqueMore(x: Entry, r: seq<Entry>)
    requires UniqueEntries(r) && forall i :: 0 <= i < |r| ==> r[i].key != x.key
    ensures UniqueEntries([x] + r)
  {}

  lemma OneSet(es: seq<Entry>, k: Key, v: Value)
    requires es == [] || es[0].key == k
    ensures Set(es, k, v) == [Entry(k, v)] + if es == [] then [] else es[1..]
  {}

  lemma {:induction false} DeleteUnique(es: seq<Entry>, k: Key)
    requires UniqueEntries(es)
    ensures UniqueEntries(Delete(es, k))
    ensures forall i :: 0 <= i < |Delete(es, k)| ==> exists j :: 0 <= j < |es| && es[j].key == Delete(es, k)[i].key
  {
    if es != [] {
      DeleteUnique(es[1..], k);
      var t := Delete(es[1..], k);
      forall i | 0 <= i < |t| ensures exists j :: 0 < j < |es| && es[j].key == t[i].key {
        var j :| 0 <= j < |es| - 1 && es[1..][j].key == t[i].key;
        assert es[j + 1].key == t[i].key;
      }
      if es[0].key != k {
        assert Delete(es, k) == [es[0]] + t;
        assert es[0].key == Delete(es, k)[0].key;
      }
    }
  }

  lemma {:induction false} EmitUnique(s: Schema, dir: Dir)
    ensures UniqueEntries(Emit(s, dir).entries)
    decreases s
  {
    NodeUnique(s, dir);
    MetaUnique(EmitNode(s, dir), s.meta);
    if Wrapper(s) {
      EmitUnique(s.node.inner, dir);
      UnderUnique(SetMeta(EmitNode(s, dir), s.meta), Emit(s.node.inner, dir).entries);
    }
  }

  lemma {:induction false} MetaUnique(es: seq<Entry>, ms: seq<Meta>)
    requires UniqueEntries(es)
    ensures UniqueEntries(SetMeta(es, ms))
    decreases ms
  {
    if ms != [] {
      SetUnique(es, ms[0].key, Lit(ms[0].value));
      MetaUnique(Set(es, ms[0].key, Lit(ms[0].value)), ms[1..]);
    }
  }

  lemma {:induction false} UnderUnique(o: seq<Entry>, inner: seq<Entry>)
    requires UniqueEntries(o)
    ensures UniqueEntries(Under(o, inner))
    decreases inner
  {
    if inner != [] {
      SetUnique(o, inner[0].key, inner[0].value);
      UnderUnique(if Has(o, inner[0].key) then o else Set(o, inner[0].key, inner[0].value), inner[1..]);
    }
  }

  lemma AllSetsUnique()
    ensures forall es, k, v :: UniqueEntries(es) ==> UniqueEntries(Set(es, k, v))
  {
    forall es, k, v | UniqueEntries(es) { SetUnique(es, k, v); }
  }

  lemma NodeUnique(s: Schema, dir: Dir)
    ensures UniqueEntries(EmitNode(s, dir))
  {
    AllSetsUnique();
    hide Set, Get, FoldLo, FoldHi, NarrowAll, FormatOf, LastPattern, EmitFields, RequiredNames, Emit, EmitOptions;
    if s.node.KString? || s.node.KNumber? {
      LeavesUnique(s.checks);
      hide EmitString, EmitNumber, EmitBounds;
    } else {
      hide EmitString, EmitNumber, EmitBounds;
    }
  }

  lemma LeavesUnique(cs: seq<Check>)
    ensures UniqueEntries(EmitString(cs)) && UniqueEntries(EmitNumber(cs))
  {
    AllSetsUnique();
    hide Set, Get, FoldLo, FoldHi, NarrowAll, FormatOf, LastPattern;
  }

  lemma {:induction false} EntriesUnique(es: seq<Entry>)
    requires UniqueEntries(es)
    ensures UniqueEntries(CompactEntries(es))
    ensures |CompactEntries(es)| == |es| && forall i :: 0 <= i < |es| ==> CompactEntries(es)[i].key == es[i].key
    decreases es
  {
    if es != [] { EntriesUnique(es[1..]); }
  }

  lemma CompactUnique(d: Doc)
    requires UniqueEntries(d.entries)
    ensures UniqueEntries(Compact(d).entries)
  {
    var es := CompactEntries(d.entries);
    EntriesUnique(d.entries);
    if Collapse(es) != es {
      DeleteUnique(es, KwAnyOf);
      AllSetsUnique();
    }
  }

  /** The advertised document validates what the uncompacted tree does. */
  lemma DocumentMeans(e: Engine, s: Schema, dir: Dir, v: Json)
    ensures Valid(e, JSONSchema(s, dir), v) <==> Valid(e, Emit(s, dir), v)
  {
    var root := Compact(Emit(s, dir));
    EmitUnique(s, dir);
    CompactUnique(Emit(s, dir));
    var start := [Entry(KwSchema, Lit(String(DRAFT_07)))];
    assert forall k :: k != KwSchema ==> Get(start, k).None? by {
      assert start[1..] == [];
    }
    forall k | !Annotation(k) ensures Get(CopyInto(start, root.entries), k) == Get(root.entries, k) {
      CopiedGet(start, root.entries, k);
    }
    SameKeywords(e, JSONSchema(s, dir), root, v);
    CompactMeans(e, Emit(s, dir), v);
  }

  /** MAIN: whatever Parse accepts is valid under the advertised input document. */
  lemma ParseIsAdvertised(e: Engine, s: Schema, v: Json)
    requires Plain(s) && Parse(e, s, v).Some?
    ensures Valid(e, JSONSchema(s, In), v)
  {
    Sound(e, s, v);
    DocumentMeans(e, s, In, v);
  }

  /** MAIN: on the exact fragment the document describes Parse completely. */
  lemma ParseIffAdvertised(e: Engine, s: Schema, v: Json)
    requires Exact(s)
    ensures Parse(e, s, v).Some? <==> Valid(e, JSONSchema(s, In), v)
  {
    ExactIsPlain(s);
    DocumentMeans(e, s, In, v);
    if Parse(e, s, v).Some? { Sound(e, s, v); } else if Valid(e, Emit(s, In), v) { Complete(e, s, v); }
  }
}
