/** compact: an anyOf of bare types becomes a type array, bottom-up. */
module SchemaCompact {
  import opened JsonValue
  import opened SchemaAst
  import opened SchemaDoc
  import opened SchemaRun

  function CompactAll(ds: seq<Doc>): (r: seq<Doc>)
    ensures |r| == |ds|
    ensures forall i :: 0 <= i < |ds| ==> r[i] == Compact(ds[i])
    decreases ds
  {
    if ds == [] then [] else [Compact(ds[0])] + CompactAll(ds[1..])
  }

  function CompactProps(ps: seq<Prop>): (r: seq<Prop>)
    ensures |r| == |ps|
    ensures forall i :: 0 <= i < |ps| ==> r[i] == Prop(ps[i].name, Compact(ps[i].d))
    decreases ps
  {
    if ps == [] then [] else [Prop(ps[0].name, Compact(ps[0].d))] + CompactProps(ps[1..])
  }

  // schemaChildKeys
  predicate ChildKey(k: Key) { k.KwItems? || k.KwAdditional? || k.KwPropertyNames? || k.KwNot? }

  function CompactValue(k: Key, v: Value): Value
    decreases v
  {
    if k.KwProperties? && v.Props? then Props(CompactProps(v.ps))
    else if ChildKey(k) && v.Sub? then Sub(Compact(v.d))
    else if k.KwAnyOf? && v.Subs? then Subs(CompactAll(v.ds))
    else v
  }

  function CompactEntries(es: seq<Entry>): seq<Entry>
    decreases es
  {
    if es == [] then [] else [CompactEntry(es[0])] + CompactEntries(es[1..])
  }

  function CompactEntry(e: Entry): Entry
    decreases e
  {
    Entry(e.key, CompactValue(e.key, e.value))
  }

  lemma {:induction false} CompactGet(es: seq<Entry>, k: Key)
    ensures Get(CompactEntries(es), k)
         == match Get(es, k) case None => None case Some(v) => Some(CompactValue(k, v))
  {
    if es != [] { CompactGet(es[1..], k); }
  }

  /** The type names of a document that is nothing but a type keyword. */
  function BareTypes(d: Doc): Option<seq<TypeName>> {
    if |d.entries| != 1 || d.entries[0].key != KwType then None
    else match d.entries[0].value
      case Type(t) => Some([t])
      case Types(ts) => Some(ts)
      case _ => None
  }

  function AddNew(types: seq<TypeName>, ms: seq<TypeName>): (r: seq<TypeName>)
    ensures forall t :: t in r <==> t in types || t in ms
    decreases ms
  {
    if ms == [] then types
    else
      assert forall t :: t in ms <==> t == ms[0] || t in ms[1..];
      AddNew(if ms[0] in types then types else types + [ms[0]], ms[1..])
  }

  /** Every branch's types, in order and without repeats; None if a branch is not bare. */
  function UnionTypes(ds: seq<Doc>, types: seq<TypeName>): Option<seq<TypeName>>
    decreases ds
  {
    if ds == [] then Some(types)
    else match BareTypes(ds[0])
      case None => None
      case Some(ms) => UnionTypes(ds[1..], AddNew(types, ms))
  }

  /** The rewriting step, the document's children being compact already. */
  function Collapse(es: seq<Entry>): seq<Entry> {
    match Get(es, KwAnyOf)
    case Some(Subs(ds)) =>
      if ds == [] || Has(es, KwType) then es
      else (match UnionTypes(ds, [])
        case None => es
        case Some(ts) =>
          Set(Delete(es, KwAnyOf), KwType, if |ts| == 1 then Type(ts[0]) else Types(ts)))
    case _ => es
  }

  function Compact(d: Doc): Doc
    decreases d
  {
    Doc(Collapse(CompactEntries(d.entries)))
  }

  /** Adds one branch's types that are not there yet. */
  method AddNewLoop(types: seq<TypeName>, ms: seq<TypeName>) returns (r: seq<TypeName>)
    ensures r == AddNew(types, ms)
  {
    r := types;
    for j := 0 to |ms|
      invariant AddNew(types, ms) == AddNew(r, ms[j..])
    {
      assert ms[j..][0] == ms[j] && ms[j..][1..] == ms[j + 1..];
      var dup := false;
      for l := 0 to |r|
        invariant dup <==> ms[j] in r[..l]
      {
        if r[l] == ms[j] { dup := true; }
      }
      assert r[..|r|] == r;
      if !dup { r := r + [ms[j]]; }
    }
  }

  /** The member loop of compact, as the source runs it. */
  method UnionTypesLoop(ds: seq<Doc>) returns (r: Option<seq<TypeName>>)
    ensures r == UnionTypes(ds, [])
  {
    hide AddNew, BareTypes;
    var types: seq<TypeName> := [];
    for i := 0 to |ds|
      invariant UnionTypes(ds, []) == UnionTypes(ds[i..], types)
    {
      assert ds[i..][0] == ds[i] && ds[i..][1..] == ds[i + 1..];
      var members := BareTypes(ds[i]);
      if members.None? { return None; }
      types := AddNewLoop(types, members.value);
    }
    r := Some(types);
  }

  // ── compact changes no meaning ──────────

  /** A bare document says exactly: some listed type. */
  lemma BareMeans(e: Engine, d: Doc, v: Json)
    requires BareTypes(d).Some?
    ensures Valid(e, d, v) <==> exists t :: t in BareTypes(d).value && HasType(t, v)
  {
    var es := d.entries;
    assert forall k :: Get(es, k).Some? <==> k == KwType by {
      forall k ensures Get(es, k).Some? <==> k == KwType {
        assert es[1..] == [];
      }
    }
    assert Valid(e, d, v) <==> KeywordOk(e, d, KwType, v);
  }

  lemma {:induction false} UnionMeans(e: Engine, ds: seq<Doc>, types: seq<TypeName>, v: Json)
    requires UnionTypes(ds, types).Some?
    ensures (exists t :: t in UnionTypes(ds, types).value && HasType(t, v))
       <==> (exists t :: t in types && HasType(t, v)) || exists i :: 0 <= i < |ds| && Valid(e, ds[i], v)
    decreases ds
  {
    if ds != [] {
      BareMeans(e, ds[0], v);
      var ms := BareTypes(ds[0]).value;
      UnionMeans(e, ds[1..], AddNew(types, ms), v);
      if i :| 0 <= i < |ds| && Valid(e, ds[i], v) {
        assert i > 0 ==> ds[1..][i - 1] == ds[i];
      }
    }
  }

  /** What a keyword asks depends on its own value and on the property names. */
  lemma KeywordSame(e: Engine, a: Doc, b: Doc, k: Key, v: Json)
    requires Get(a.entries, k).Some? && Get(a.entries, k) == Get(b.entries, k)
    requires Get(a.entries, KwProperties) == Get(b.entries, KwProperties)
    ensures KeywordOk(e, a, k, v) <==> KeywordOk(e, b, k, v)
  {
    assert forall key :: IsProp(a.entries, key) == IsProp(b.entries, key);
  }

  /** One rewriting, wherever it stands, keeps the set of valid values. */
  lemma CollapseMeans(e: Engine, es: seq<Entry>, v: Json)
    ensures Valid(e, Doc(Collapse(es)), v) <==> Valid(e, Doc(es), v)
  {
    var a, b := Doc(es), Doc(Collapse(es));
    if b == a { return; }
    TypesForUnion(e, es, v);
    forall k | k != KwType && k != KwAnyOf && Get(es, k).Some?
      ensures KeywordOk(e, a, k, v) <==> KeywordOk(e, b, k, v)
    {
      KeywordSame(e, a, b, k, v);
    }
    assert Get(es, KwType).None? && Get(b.entries, KwAnyOf).None?;
  }

  /** The type keyword put in asks what the anyOf taken out asked. */
  lemma TypesForUnion(e: Engine, es: seq<Entry>, v: Json)
    requires Collapse(es) != es
    ensures Get(es, KwAnyOf).Some? && Get(es, KwType).None?
    ensures Get(Collapse(es), KwAnyOf).None? && Get(Collapse(es), KwType).Some?
    ensures KeywordOk(e, Doc(Collapse(es)), KwType, v) <==> KeywordOk(e, Doc(es), KwAnyOf, v)
  {
    hide Valid, UnionTypes;
    var ds := Get(es, KwAnyOf).value.ds;
    var ts := UnionTypes(ds, []).value;
    UnionMeans(e, ds, [], v);
    if |ts| == 1 { assert forall t :: t in ts <==> t == ts[0]; }
  }

  /** compact preserves validity at every depth: any document, any value. */
  lemma {:induction false} CompactMeans(e: Engine, d: Doc, v: Json)
    ensures Valid(e, Compact(d), v) <==> Valid(e, d, v)
    decreases d
  {
    var c := Doc(CompactEntries(d.entries));
    CollapseMeans(e, c.entries, v);
    forall k
      ensures Get(d.entries, k).Some? <==> Get(c.entries, k).Some?
      ensures Get(d.entries, k).Some? ==> (KeywordOk(e, c, k, v) <==> KeywordOk(e, d, k, v))
    {
      CompactGet(d.entries, k);
      if Get(d.entries, k).Some? { KeywordMeans(e, d, k, v); }
    }
  }

  predicate SubDoc(val: Value, s: Doc) {
    match val
    case Sub(d) => d == s
    case Subs(ds) => s in ds
    case Props(ps) => exists i :: 0 <= i < |ps| && ps[i].d == s
    case _ => false
  }

  ghost predicate SubsKept(e: Engine, val: Value) {
    forall s, w :: SubDoc(val, s) ==> (Valid(e, Compact(s), w) <==> Valid(e, s, w))
  }

  lemma {:induction false} KeywordMeans(e: Engine, d: Doc, k: Key, v: Json)
    requires Get(d.entries, k).Some?
    ensures var c := Doc(CompactEntries(d.entries));
      Get(c.entries, k).Some? && (KeywordOk(e, c, k, v) <==> KeywordOk(e, d, k, v))
    decreases d, 0
  {
    CompactGet(d.entries, k);
    var val := Get(d.entries, k).value;
    GetSmaller(d, k);
    forall s, w | SubDoc(val, s) ensures Valid(e, Compact(s), w) <==> Valid(e, s, w) {
      CompactMeans(e, s, w);
    }
    PropsKept(d.entries);
    KeywordFromSubs(e, d, Doc(CompactEntries(d.entries)), k, val, v);
  }

  // c holds k's value compacted, and the same property names as d.
  ghost predicate Compacted(e: Engine, d: Doc, c: Doc, k: Key, val: Value) {
    && Get(d.entries, k) == Some(val)
    && Get(c.entries, k) == Some(CompactValue(k, val))
    && SubsKept(e, val)
    && forall key :: IsProp(c.entries, key) == IsProp(d.entries, key)
  }

  lemma KeywordFromSubs(e: Engine, d: Doc, c: Doc, k: Key, val: Value, v: Json)
    requires Compacted(e, d, c, k, val)
    ensures KeywordOk(e, c, k, v) <==> KeywordOk(e, d, k, v)
  {
    if k.KwProperties? && val.Props? {
      PropertiesFromSubs(e, d, c, val, v);
    } else if k.KwAnyOf? && val.Subs? {
      AnyOfFromSubs(e, d, c, val, v);
    } else if ChildKey(k) && val.Sub? {
      ChildFromSubs(e, d, c, k, val, v);
    } else {
      LeafFromSubs(e, d, c, k, val, v);
    }
  }

  lemma PropertiesFromSubs(e: Engine, d: Doc, c: Doc, val: Value, v: Json)
    requires Compacted(e, d, c, KwProperties, val) && val.Props?
    ensures KeywordOk(e, c, KwProperties, v) <==> KeywordOk(e, d, KwProperties, v)
  {
    assert forall i :: 0 <= i < |val.ps| ==> SubDoc(val, val.ps[i].d);
  }

  lemma AnyOfFromSubs(e: Engine, d: Doc, c: Doc, val: Value, v: Json)
    requires Compacted(e, d, c, KwAnyOf, val) && val.Subs?
    ensures KeywordOk(e, c, KwAnyOf, v) <==> KeywordOk(e, d, KwAnyOf, v)
  {
    assert forall i :: 0 <= i < |val.ds| ==> SubDoc(val, val.ds[i]);
  }

  lemma ChildFromSubs(e: Engine, d: Doc, c: Doc, k: Key, val: Value, v: Json)
    requires Compacted(e, d, c, k, val) && val.Sub? && ChildKey(k)
    ensures KeywordOk(e, c, k, v) <==> KeywordOk(e, d, k, v)
  {
    assert SubDoc(val, val.d);
    assert forall w :: Valid(e, Compact(val.d), w) <==> Valid(e, val.d, w);
  }

  lemma LeafFromSubs(e: Engine, d: Doc, c: Doc, k: Key, val: Value, v: Json)
    requires Compacted(e, d, c, k, val) && CompactValue(k, val) == val
    requires !(k.KwProperties? && val.Props?) && !(k.KwAnyOf? && val.Subs?) && !(ChildKey(k) && val.Sub?)
    ensures KeywordOk(e, c, k, v) <==> KeywordOk(e, d, k, v)
  {
  }

  lemma PropsKept(es: seq<Entry>)
    ensures forall key :: IsProp(CompactEntries(es), key) == IsProp(es, key)
  {
    CompactGet(es, KwProperties);
    if Get(es, KwProperties).Some? && Get(es, KwProperties).value.Props? {
      var ps := Get(es, KwProperties).value.ps;
      var cs := CompactProps(ps);
      assert forall key :: Named(ps, key) ==> Named(cs, key) by {
        forall key | Named(ps, key) ensures Named(cs, key) {
          var i :| 0 <= i < |ps| && ps[i].name == key;
          assert cs[i].name == key;
        }
      }
      assert forall key :: Named(cs, key) ==> Named(ps, key) by {
        forall key | Named(cs, key) ensures Named(ps, key) {
          var i :| 0 <= i < |cs| && cs[i].name == key;
          assert ps[i].name == key;
        }
      }
    }
  }
}
