/** What a document carries beside what it validates: metadata, defaults, formats, the
    names it requires, and types in place of unions. */
module SchemaEntries {
  import opened JsonValue
  import opened SchemaAst
  import opened SchemaDoc
  import opened SchemaRun
  import opened SchemaEmit
  import opened SchemaCompact
  import opened SchemaMeaning
  import opened SchemaTheorems
  import T = Text

  // ── metadata ──────────

  // The last value metadata gives a key.
  ghost predicate Given(ms: seq<Meta>, k: Key, v: Json) {
    exists i :: 0 <= i < |ms| && ms[i] == Meta(k, v) && forall j :: i < j < |ms| ==> ms[j].key != k
  }

  predicate Mentions(ms: seq<Meta>, k: Key) { exists i :: 0 <= i < |ms| && ms[i].key == k }

  lemma {:induction false} MetaEntry(es: seq<Entry>, ms: seq<Meta>, k: Key)
    ensures !Mentions(ms, k) ==> Get(SetMeta(es, ms), k) == Get(es, k)
    ensures forall v :: Given(ms, k, v) ==> Get(SetMeta(es, ms), k) == Some(Lit(v))
    decreases ms
  {
    if ms != [] {
      var next := Set(es, ms[0].key, Lit(ms[0].value));
      MetaEntry(next, ms[1..], k);
      assert forall i :: 0 <= i < |ms[1..]| ==> ms[1..][i] == ms[i + 1];
      assert Mentions(ms, k) <== Mentions(ms[1..], k);
      forall v | Given(ms, k, v) ensures Get(SetMeta(es, ms), k) == Some(Lit(v)) {
        var i :| 0 <= i < |ms| && ms[i] == Meta(k, v) && forall j :: i < j < |ms| ==> ms[j].key != k;
        if i > 0 {
          assert ms[1..][i - 1] == Meta(k, v);
          assert Given(ms[1..], k, v);
        }
      }
    }
  }

  /** What metadata says of a schema its document says too. */
  lemma EmitMeta(s: Schema, dir: Dir, k: Key, v: Json)
    requires Given(s.meta, k, v)
    ensures Get(Emit(s, dir).entries, k) == Some(Lit(v))
  {
    MetaEntry(EmitNode(s, dir), s.meta, k);
    if Wrapper(s) {
      UnderGet(SetMeta(EmitNode(s, dir), s.meta), Emit(s.node.inner, dir).entries, k);
    }
  }

  /** Where a wrapper says nothing of its own, the wrapped schema's entry shows. */
  lemma EmitInherits(s: Schema, dir: Dir, k: Key)
    requires s.node.KOptional? || s.node.KPipe? || (s.node.KDefault? && k != KwDefault)
    requires !Mentions(s.meta, k)
    ensures Get(Emit(s, dir).entries, k) == Get(Emit(s.node.inner, dir).entries, k)
  {
    hide SetMeta, Under, Set;
    WrapperOwn(s, dir, k);
    MetaEntry(EmitNode(s, dir), s.meta, k);
    UnderGet(SetMeta(EmitNode(s, dir), s.meta), Emit(s.node.inner, dir).entries, k);
  }

  lemma WrapperOwn(s: Schema, dir: Dir, k: Key)
    requires s.node.KOptional? || s.node.KPipe? || (s.node.KDefault? && k != KwDefault)
    ensures Get(EmitNode(s, dir), k) == None
  {
    assert Get([], k) == None;
  }

  /** A default is advertised. */
  lemma EmitDefault(s: Schema, dir: Dir)
    requires s.node.KDefault? && !Mentions(s.meta, KwDefault)
    ensures Get(Emit(s, dir).entries, KwDefault) == Some(Lit(s.node.def))
  {
    MetaEntry(EmitNode(s, dir), s.meta, KwDefault);
    UnderGet(SetMeta(EmitNode(s, dir), s.meta), Emit(s.node.inner, dir).entries, KwDefault);
  }

  /** Compacting rewrites types and child documents only. */
  lemma CompactEntryAt(d: Doc, k: Key)
    requires Annotation(k)
    ensures Get(Compact(d).entries, k) == Get(d.entries, k)
  {
    CompactGet(d.entries, k);
  }

  lemma {:induction false} CopiedEntry(o: seq<Entry>, es: seq<Entry>, k: Key)
    requires UniqueEntries(es)
    ensures Get(CopyInto(o, es), k) == if Get(es, k).Some? then Get(es, k) else Get(o, k)
    decreases es
  {
    if es != [] {
      var next := Set(o, es[0].key, es[0].value);
      CopiedEntry(next, es[1..], k);
      if es[0].key == k { NoneIfAbsent(es[1..], k); }
    }
  }

  /** MAIN: the advertised document has every annotation of the emitted tree, and the
      draft's name unless metadata gives another. */
  lemma Advertised(s: Schema, dir: Dir, k: Key)
    requires Annotation(k)
    ensures k != KwSchema ==> Get(JSONSchema(s, dir).entries, k) == Get(Emit(s, dir).entries, k)
    ensures Get(JSONSchema(s, dir).entries, KwSchema)
      == var own := Get(Emit(s, dir).entries, KwSchema); if own.Some? then own else Some(Lit(String(DRAFT_07)))
  {
    var start := [Entry(KwSchema, Lit(String(DRAFT_07)))];
    var root := Compact(Emit(s, dir));
    EmitUnique(s, dir);
    CompactUnique(Emit(s, dir));
    CopiedEntry(start, root.entries, k);
    CopiedEntry(start, root.entries, KwSchema);
    CompactEntryAt(Emit(s, dir), k);
    CompactEntryAt(Emit(s, dir), KwSchema);
    assert start[1..] == [];
  }

  // ── formats ──────────

  function FormatName(c: Check): Option<Str> {
    match c
    case Pattern(DateTime, _) => Some(T.Ascii("date-time"))
    case Pattern(Uuid, _) => Some(T.Ascii("uuid"))
    case Url => Some(T.Ascii("uri"))
    case _ => None
  }

  lemma {:induction false} LastFormat(cs: seq<Check>, f: Option<Json>, i: nat)
    requires i < |cs| && FormatName(cs[i]).Some? && forall j :: i < j < |cs| ==> FormatName(cs[j]).None?
    ensures FormatOf(cs, f) == Some(String(FormatName(cs[i]).value))
    decreases |cs|
  {
    var next := if FormatName(cs[0]).Some? then Some(String(FormatName(cs[0]).value)) else f;
    FormatStep(cs, f);
    if i > 0 {
      LastFormat(cs[1..], next, i - 1);
    } else {
      NoFormatIn(cs[1..], next);
    }
  }

  lemma FormatStep(cs: seq<Check>, f: Option<Json>)
    requires cs != []
    ensures FormatOf(cs, f)
      == FormatOf(cs[1..], if FormatName(cs[0]).Some? then Some(String(FormatName(cs[0]).value)) else f)
  {}

  lemma {:induction false} NoFormatIn(cs: seq<Check>, f: Option<Json>)
    requires forall j :: 0 <= j < |cs| ==> FormatName(cs[j]).None?
    ensures FormatOf(cs, f) == f
    decreases |cs|
  {
    if cs != [] {
      assert FormatName(cs[0]).None?;
      NoFormatIn(cs[1..], f);
    }
  }

  /** A string's document names the format of its last check that has one. */
  lemma FormatAdvertised(cs: seq<Check>)
    ensures forall i :: LastNamed(cs, i) ==> Get(EmitString(cs), KwFormat) == Some(Lit(String(FormatName(cs[i]).value)))
    ensures (forall i :: 0 <= i < |cs| ==> FormatName(cs[i]).None?) ==> Get(EmitString(cs), KwFormat) == None
  {
    hide FormatOf, Set, FoldLo, FoldHi, LastPattern, FormatName;
    FormatEntry(cs);
    forall i | LastNamed(cs, i)
      ensures Get(EmitString(cs), KwFormat) == Some(Lit(String(FormatName(cs[i]).value)))
    {
      LastFormat(cs, None, i);
    }
    if forall i :: 0 <= i < |cs| ==> FormatName(cs[i]).None? { NoFormatIn(cs, None); }
  }

  predicate LastNamed(cs: seq<Check>, i: int) {
    && 0 <= i < |cs| && FormatName(cs[i]).Some?
    && forall j :: i < j < |cs| ==> FormatName(cs[j]).None?
  }

  lemma FormatEntry(cs: seq<Check>)
    ensures Get(EmitString(cs), KwFormat)
      == match FormatOf(cs, None) case Some(f) => Some(Lit(f)) case None => None
  {
    hide FormatOf, Set, FoldLo, FoldHi, LastPattern;
    assert Get([], KwFormat) == None;
  }

  // ── required names ──────────

  /** A path through nullables and unions to an optional or unknown schema. */
  ghost predicate Reaches(s: Schema, path: seq<nat>)
    decreases |path|
  {
    if path == [] then s.node.KOptional? || s.node.KUnknown?
    else match s.node
      case KNullable(i) => path[0] == 0 && Reaches(i, path[1..])
      case KUnion(os) => path[0] < |os| && Reaches(os[path[0]], path[1..])
      case _ => false
  }

  ghost predicate HasWay(s: Schema) { exists path :: Reaches(s, path) }

  /** A parsed value may lack what such a path leads to, and nothing else. */
  lemma {:induction false} OptoutIff(s: Schema)
    ensures OptoutOptional(s) <==> HasWay(s)
    decreases s
  {
    match s.node
    case KOptional(_) => assert Reaches(s, []);
    case KUnknown =>
      var here: seq<nat> := [];
      assert Reaches(s, here);
    case KNullable(i) =>
      OptoutIff(i);
      if p :| Reaches(i, p) { assert ([0] + p)[1..] == p; assert Reaches(s, [0] + p); }
      if p :| Reaches(s, p) { assert Reaches(i, p[1..]); }
    case KUnion(os) =>
      if i :| 0 <= i < |os| && OptoutOptional(os[i]) {
        OptoutIff(os[i]);
        var p :| Reaches(os[i], p);
        assert ([i] + p)[1..] == p;
        assert Reaches(s, [i] + p);
      }
      if p :| Reaches(s, p) {
        assert Reaches(os[p[0]], p[1..]);
        OptoutIff(os[p[0]]);
      }
    case _ =>
      forall p ensures !Reaches(s, p) {}
  }

  /** A union defaults if an option does, and is optional if none defaults and one is. */
  lemma {:induction false} OptinOfUnion(os: seq<Schema>, result: Opt)
    requires result != OptDefaulted
    ensures OptinAny(os, result) == OptDefaulted <==> exists i :: 0 <= i < |os| && Optin(os[i]) == OptDefaulted
    ensures OptinAny(os, result) == OptOptional
      ==> result == OptOptional || exists i :: 0 <= i < |os| && Optin(os[i]) == OptOptional
    ensures (exists i :: 0 <= i < |os| && Optin(os[i]) == OptOptional) ==> OptinAny(os, result) != OptNone
    ensures result == OptOptional ==> OptinAny(os, result) != OptNone
    decreases os
  {
    if os != [] {
      assert forall i :: 0 < i < |os| ==> os[i] == os[1..][i - 1];
      if Optin(os[0]) != OptDefaulted {
        OptinOfUnion(os[1..], if Optin(os[0]) == OptNone then result else OptOptional);
        if i :| 0 <= i < |os| && Optin(os[i]) == OptDefaulted { assert Optin(os[1..][i - 1]) == OptDefaulted; }
        if i :| 0 <= i < |os[1..]| && Optin(os[1..][i]) == OptDefaulted { assert Optin(os[i + 1]) == OptDefaulted; }
        if i :| 0 <= i < |os[1..]| && Optin(os[1..][i]) == OptOptional { assert Optin(os[i + 1]) == OptOptional; }
        if i :| 1 <= i < |os| && Optin(os[i]) == OptOptional { assert Optin(os[1..][i - 1]) == OptOptional; }
      } else {
        assert Optin(os[0]) == OptDefaulted;
      }
    }
  }

  /** An object's document requires of an input the fields that have no way to be absent,
      and of an output those a parsed value always has. */
  lemma RequiredAdvertised(s: Schema, dir: Dir)
    requires s.node.KObject? && AnnotationsOnly(s.meta)
    ensures var listed := Get(Emit(s, dir).entries, KwRequired);
      match listed
      case None => forall f :: f in s.node.fields ==> MayLack(f.schema, dir)
      case Some(v) =>
        v.Names? && forall n ::
          n in v.ns <==> exists f :: f in s.node.fields && f.name == n && !MayLack(f.schema, dir)
  {
    hide Set, SetMeta, Emit, Required, MayLack;
    var fs := s.node.fields;
    RequiredIn(fs, dir);
    forall f | f in fs ensures Required(f, dir) <==> !MayLack(f.schema, dir) { RequiredIs(f, dir); }
    RequiredEntry(s, dir);
    if |RequiredNames(fs, dir)| == 0 {
      forall f | f in fs ensures MayLack(f.schema, dir) {
        var j :| 0 <= j < |fs| && fs[j] == f;
        assert Required(fs[j], dir) ==> f.name in RequiredNames(fs, dir);
      }
    }
  }

  ghost predicate MayLack(s: Schema, dir: Dir) {
    if dir == In then Optin(s) != OptNone else HasWay(s)
  }

  lemma RequiredIs(f: Field, dir: Dir)
    ensures Required(f, dir) <==> !MayLack(f.schema, dir)
  {
    OptoutIff(f.schema);
    if dir == In { assert Required(f, In) <==> Optin(f.schema) == OptNone; }
  }

  lemma RequiredEntry(s: Schema, dir: Dir)
    requires s.node.KObject? && AnnotationsOnly(s.meta)
    ensures var ns := RequiredNames(s.node.fields, dir);
      Get(Emit(s, dir).entries, KwRequired) == if |ns| > 0 then Some(Names(ns)) else None
  {
    hide Set, SetMeta, RequiredNames, EmitFields;
    SetMetaGet(EmitNode(s, dir), s.meta, KwRequired);
    assert Get([], KwRequired) == None;
  }

  // ── unions of types ──────────

  /** An anyOf of documents that only name types, beside no type of its own. */
  predicate Collapsible(es: seq<Entry>) {
    && Get(es, KwType).None?
    && match Get(es, KwAnyOf)
       case Some(Subs(ds)) => ds != [] && forall i :: 0 <= i < |ds| ==> BareTypes(ds[i]).Some?
       case _ => false
  }

  lemma {:induction false} UnionTypesIff(ds: seq<Doc>, types: seq<TypeName>)
    ensures UnionTypes(ds, types).Some? <==> forall i :: 0 <= i < |ds| ==> BareTypes(ds[i]).Some?
    decreases ds
  {
    if ds != [] {
      assert forall i :: 0 < i < |ds| ==> ds[i] == ds[1..][i - 1];
      if BareTypes(ds[0]).Some? { UnionTypesIff(ds[1..], AddNew(types, BareTypes(ds[0]).value)); }
    }
  }

  predicate NoRepeats(ts: seq<TypeName>) { forall i, j :: 0 <= i < j < |ts| ==> ts[i] != ts[j] }

  lemma {:induction false} AddNewOnce(types: seq<TypeName>, ms: seq<TypeName>)
    requires NoRepeats(types)
    ensures NoRepeats(AddNew(types, ms)) && types <= AddNew(types, ms)
    decreases ms
  {
    if ms != [] {
      var next := if ms[0] in types then types else types + [ms[0]];
      AddNewOnce(next, ms[1..]);
    }
  }

  /** Each type of a branch, once. */
  lemma {:induction false} UnionTypesOnce(ds: seq<Doc>, types: seq<TypeName>)
    requires UnionTypes(ds, types).Some? && NoRepeats(types)
    ensures var ts := UnionTypes(ds, types).value;
      && NoRepeats(ts) && types <= ts
      && forall t :: t in ts <==>
        t in types || exists i :: 0 <= i < |ds| && BareTypes(ds[i]).Some? && t in BareTypes(ds[i]).value
    decreases ds
  {
    if ds != [] {
      var ms := BareTypes(ds[0]).value;
      AddNewOnce(types, ms);
      UnionTypesOnce(ds[1..], AddNew(types, ms));
      var ts := UnionTypes(ds, types).value;
      forall t | t in ts
        ensures t in types || exists i :: 0 <= i < |ds| && BareTypes(ds[i]).Some? && t in BareTypes(ds[i]).value
      {
        if t !in types {
          if t in ms {
            assert t in BareTypes(ds[0]).value;
          } else {
            var i :| 0 <= i < |ds[1..]| && BareTypes(ds[1..][i]).Some? && t in BareTypes(ds[1..][i]).value;
            assert t in BareTypes(ds[i + 1]).value;
          }
        }
      }
      forall i, t | 0 <= i < |ds| && BareTypes(ds[i]).Some? && t in BareTypes(ds[i]).value ensures t in ts {
        if i > 0 { assert t in BareTypes(ds[1..][i - 1]).value; }
      }
    }
  }

  /** The rewriting happens exactly where it can, and then the document names, once each,
      the types its union named. */
  lemma CollapseIff(es: seq<Entry>)
    ensures !Collapsible(es) ==> Collapse(es) == es
    ensures Collapsible(es) ==> Get(Collapse(es), KwAnyOf) == None
    ensures Collapsible(es) ==> forall k :: k != KwAnyOf && k != KwType ==> Get(Collapse(es), k) == Get(es, k)
    ensures Collapsible(es) ==>
      exists ts :: NoRepeats(ts) && Listed(Get(Collapse(es), KwType), ts) && NamedBy(ts, Get(es, KwAnyOf).value.ds)
  {
    if Get(es, KwAnyOf).Some? && Get(es, KwAnyOf).value.Subs? {
      var ds := Get(es, KwAnyOf).value.ds;
      UnionTypesIff(ds, []);
      if Collapsible(es) {
        UnionTypesOnce(ds, []);
        var ts := UnionTypes(ds, []).value;
        assert NoRepeats(ts) && Listed(Get(Collapse(es), KwType), ts) && NamedBy(ts, ds);
      }
    }
  }

  // A type keyword: one name, or a list of them.
  predicate Listed(v: Option<Value>, ts: seq<TypeName>) {
    v == Some(if |ts| == 1 then Type(ts[0]) else Types(ts))
  }

  // The types the branches name.
  ghost predicate NamedBy(ts: seq<TypeName>, ds: seq<Doc>) {
    forall t :: t in ts <==> exists i :: 0 <= i < |ds| && BareTypes(ds[i]).Some? && t in BareTypes(ds[i]).value
  }

  /** MAIN: no document that compact leaves, at any depth, could be collapsed. */
  lemma {:induction false} CompactLeavesNone(d: Doc)
    ensures Settled(Compact(d))
    decreases d
  {
    hide Collapsible, Collapse;
    var c := CompactEntries(d.entries);
    CompactedChildren(d.entries);
    CollapseIff(c);
    CollapsedAgain(c);
    CollapsedChildren(c);
  }

  /** Nothing to collapse here, nor in any child document that compact visits. */
  ghost predicate Settled(d: Doc)
    decreases d
  {
    !Collapsible(d.entries) && forall i :: 0 <= i < |d.entries| ==> ValueSettled(d.entries[i].key, d.entries[i].value)
  }

  ghost predicate ValueSettled(k: Key, v: Value)
    decreases v
  {
    match v
    case Sub(d) => ChildKey(k) ==> Settled(d)
    case Subs(ds) => k.KwAnyOf? ==> forall i :: 0 <= i < |ds| ==> Settled(ds[i])
    case Props(ps) => k.KwProperties? ==> forall i :: 0 <= i < |ps| ==> Settled(ps[i].d)
    case _ => true
  }

  lemma {:induction false} CompactedChildren(es: seq<Entry>)
    ensures forall i :: 0 <= i < |CompactEntries(es)| ==>
      ValueSettled(CompactEntries(es)[i].key, CompactEntries(es)[i].value)
    decreases es
  {
    hide Settled;
    if es != [] {
      EntryCompacted(es[0]);
      CompactedChildren(es[1..]);
    }
  }

  lemma {:induction false} EntryCompacted(x: Entry)
    ensures ValueSettled(x.key, CompactValue(x.key, x.value))
    decreases x
  {
    ValueCompacted(x.key, x.value);
  }

  lemma {:induction false} ValueCompacted(k: Key, v: Value)
    ensures ValueSettled(k, CompactValue(k, v))
    decreases v
  {
    hide Settled;
    match v
    case Sub(d) => CompactLeavesNone(d);
    case Subs(ds) => forall i | 0 <= i < |ds| { CompactLeavesNone(ds[i]); }
    case Props(ps) => forall i | 0 <= i < |ps| { CompactLeavesNone(ps[i].d); }
    case _ =>
  }

  lemma CollapsedAgain(es: seq<Entry>)
    ensures !Collapsible(Collapse(es))
  {
    CollapseIff(es);
  }

  ghost predicate AllSettled(es: seq<Entry>) {
    forall i :: 0 <= i < |es| ==> ValueSettled(es[i].key, es[i].value)
  }

  lemma CollapsedChildren(es: seq<Entry>)
    requires AllSettled(es)
    ensures AllSettled(Collapse(es))
  {
    hide Settled, UnionTypes;
    if Collapse(es) != es {
      var ts := UnionTypes(Get(es, KwAnyOf).value.ds, []).value;
      DeleteSettled(es, KwAnyOf);
      SetSettled(Delete(es, KwAnyOf), KwType, if |ts| == 1 then Type(ts[0]) else Types(ts));
    }
  }

  lemma {:induction false} DeleteSettled(es: seq<Entry>, k: Key)
    requires AllSettled(es)
    ensures AllSettled(Delete(es, k))
  {
    hide ValueSettled;
    if es != [] {
      DeleteSettled(es[1..], k);
    }
  }

  lemma {:induction false} SetSettled(es: seq<Entry>, k: Key, v: Value)
    requires AllSettled(es) && ValueSettled(k, v)
    ensures AllSettled(Set(es, k, v))
  {
    hide ValueSettled;
    if es != [] {
      SetSettled(es[1..], k, v);
    }
  }

  // ── bounds ──────────

  /** A bound that is no whole number is advertised as the next one towards zero. */
  lemma TruncIs(r: real)
    ensures r >= 0.0 ==> 0 <= Trunc(r) && Trunc(r) as real <= r < (Trunc(r) + 1) as real
    ensures r <= 0.0 ==> Trunc(r) <= 0 && (Trunc(r) - 1) as real < r <= Trunc(r) as real
  {}

  // ── order ──────────

  function KeysOf(es: seq<Entry>): seq<Key> { if es == [] then [] else [es[0].key] + KeysOf(es[1..]) }

  /** Set keeps the order: a new key goes last, a known one keeps its place. */
  lemma {:induction false} SetPlaces(es: seq<Entry>, k: Key, v: Value)
    ensures k !in KeysOf(es) ==> Set(es, k, v) == es + [Entry(k, v)]
    ensures k in KeysOf(es) ==> KeysOf(Set(es, k, v)) == KeysOf(es)
  {
    if es != [] && es[0].key != k { SetPlaces(es[1..], k, v); }
  }

  /** Deleting a key leaves the others in their places. */
  lemma {:induction false} DeletePlaces(es: seq<Entry>, k: Key)
    ensures KeysOf(Delete(es, k)) == Others(KeysOf(es), k)
  {
    if es != [] { DeletePlaces(es[1..], k); }
  }

  function Others(ks: seq<Key>, k: Key): seq<Key> {
    if ks == [] then [] else (if ks[0] == k then [] else [ks[0]]) + Others(ks[1..], k)
  }

  /** The properties stand in the order of the fields, each once, with what the field emits. */
  lemma {:induction false} PropertiesInOrder(fs: seq<Field>, dir: Dir, ps: seq<Prop>)
    requires DistinctNames(fs) && forall i, j :: 0 <= i < |fs| && 0 <= j < |ps| ==> fs[i].name != ps[j].name
    ensures var r := EmitFields(fs, dir, ps);
      && |r| == |ps| + |fs| && r[..|ps|] == ps
      && forall i :: 0 <= i < |fs| ==> r[|ps| + i] == Prop(fs[i].name, Emit(fs[i].schema, dir))
    decreases |fs|
  {
    hide Emit;
    if fs != [] {
      var p := Prop(fs[0].name, Emit(fs[0].schema, dir));
      PropLast(ps, p);
      PropertiesInOrder(fs[1..], dir, ps + [p]);
      var r := EmitFields(fs, dir, ps);
      assert r[..|ps|] == r[..|ps| + 1][..|ps|];
      assert forall i :: 0 < i < |fs| ==> fs[i] == fs[1..][i - 1];
    }
  }

  lemma {:induction false} PropLast(ps: seq<Prop>, p: Prop)
    requires forall j :: 0 <= j < |ps| ==> p.name != ps[j].name
    ensures SetProp(ps, p.name, p.d) == ps + [p]
  {
    if ps != [] { PropLast(ps[1..], p); }
  }
}
