/** Draft-07 documents and what they mean: which values a document validates. */
module SchemaDoc {
  import opened JsonValue
  import opened SchemaAst
  import opened SchemaRun

  datatype TypeName = TString | TNumber | TInteger | TBoolean | TNull | TArray | TObject

  // What a document key holds.  Lit is any value the model gives no structure to.
  datatype Value =
    | Lit(j: Json)
    | Type(t: TypeName)
    | Types(ts: seq<TypeName>)
    | Consts(vs: seq<Json>)
    | Names(ns: seq<Str>)
    | Count(n: nat)
    | Bound(r: real)
    | Source(src: Str)
    | Sub(d: Doc)
    | Subs(ds: seq<Doc>)
    | Props(ps: seq<Prop>)

  datatype Prop = Prop(name: Str, d: Doc)
  datatype Entry = Entry(key: Key, value: Value)
  datatype Doc = Doc(entries: seq<Entry>)

  const EMPTY := Doc([])

  function Get(es: seq<Entry>, k: Key): Option<Value> {
    if es == [] then None else if es[0].key == k then Some(es[0].value) else Get(es[1..], k)
  }

  lemma {:induction false} GetIn(es: seq<Entry>, k: Key)
    requires Get(es, k).Some?
    ensures exists i :: 0 <= i < |es| && es[i] == Entry(k, Get(es, k).value)
  {
    if es[0].key == k {
      assert es[0] == Entry(k, Get(es, k).value);
    } else {
      GetIn(es[1..], k);
      var i :| 0 <= i < |es| - 1 && es[1..][i] == Entry(k, Get(es, k).value);
      assert es[i + 1] == Entry(k, Get(es, k).value);
    }
  }

  /** A looked-up value is a proper part of its document. */
  lemma GetSmaller(d: Doc, k: Key)
    requires Get(d.entries, k).Some?
    ensures Get(d.entries, k).value < d
  {
    GetIn(d.entries, k);
    var i :| 0 <= i < |d.entries| && d.entries[i] == Entry(k, Get(d.entries, k).value);
    assert d.entries[i] < d;
  }

  predicate Has(es: seq<Entry>, k: Key) { Get(es, k).Some? }

  function Set(es: seq<Entry>, k: Key, v: Value): (r: seq<Entry>)
    ensures Get(r, k) == Some(v)
    ensures forall k' | k' != k :: Get(r, k') == Get(es, k')
  {
    if es == [] then [Entry(k, v)]
    else if es[0].key == k then [Entry(k, v)] + es[1..]
    else [es[0]] + Set(es[1..], k, v)
  }

  function Delete(es: seq<Entry>, k: Key): (r: seq<Entry>)
    ensures Get(r, k) == None
    ensures forall k' | k' != k :: Get(r, k') == Get(es, k')
  {
    if es == [] then []
    else if es[0].key == k then Delete(es[1..], k)
    else [es[0]] + Delete(es[1..], k)
  }

  // ── meaning ──────────

  predicate HasType(t: TypeName, v: Json) {
    match t
    case TString => v.String?
    case TNumber => v.Number? && !v.n.Inf?
    case TInteger => v.Number? && !v.n.Inf? && Integral(v.n)
    case TBoolean => v.Bool?
    case TNull => v.Null?
    case TArray => v.Array?
    case TObject => v.Object?
  }

  predicate CountOk(e: Engine, k: Key, n: nat, v: Json) {
    && (k.KwMinItems? && v.Array? ==> |v.elems| >= n)
    && (k.KwMaxItems? && v.Array? ==> |v.elems| <= n)
    && (k.KwMinLength? && v.String? ==> e.runes(v.s) >= n)
    && (k.KwMaxLength? && v.String? ==> e.runes(v.s) <= n)
  }

  predicate BoundOk(k: Key, r: real, n: Num) {
    && (k.KwMinimum? ==> AtLeast(n, r))
    && (k.KwMaximum? ==> AtMost(n, r))
    && (k.KwExclusiveMinimum? ==> Above(n, r))
  }

  /** Keywords without sub-schemas: they speak of the value alone.  A value of a
      shape the keyword does not take constrains nothing. */
  predicate ShallowOk(e: Engine, k: Key, val: Value, v: Json) {
    match val
    case Type(t) => k.KwType? ==> HasType(t, v)
    case Types(ts) => k.KwType? ==> exists t :: t in ts && HasType(t, v)
    case Lit(j) => k.KwConst? ==> SameLiteral(v, j)
    case Consts(js) => k.KwEnum? ==> exists j :: j in js && SameLiteral(v, j)
    case Names(ns) => k.KwRequired? && v.Object? ==> forall n :: n in ns ==> Find(v.members, n).Some?
    case Count(n) => CountOk(e, k, n, v)
    case Bound(r) => v.Number? ==> BoundOk(k, r, v.n)
    case Source(src) => k.KwPattern? && v.String? ==> e.matches(src, v.s)
    case _ => true
  }

  predicate Named(ps: seq<Prop>, key: Str) {
    exists i :: 0 <= i < |ps| && ps[i].name == key
  }

  predicate IsProp(es: seq<Entry>, key: Str) {
    match Get(es, KwProperties)
    case Some(Props(ps)) => Named(ps, key)
    case _ => false
  }

  /** The values d validates. */
  ghost predicate Valid(e: Engine, d: Doc, v: Json)
    decreases d, 1
  {
    forall k :: Get(d.entries, k).Some? ==> KeywordOk(e, d, k, v)
  }

  /** What the keyword k of d asks of v. */
  ghost predicate KeywordOk(e: Engine, d: Doc, k: Key, v: Json)
    requires Get(d.entries, k).Some?
    decreases d, 0
  {
    var val := Get(d.entries, k).value;
    GetSmaller(d, k);
    if k.KwProperties? && val.Props? then
      v.Object? ==> forall i :: 0 <= i < |val.ps| && Find(v.members, val.ps[i].name).Some? ==>
        Valid(e, val.ps[i].d, Find(v.members, val.ps[i].name).value)
    else if k.KwAdditional? && val.Sub? then
      v.Object? ==> forall i :: 0 <= i < |v.members| && !IsProp(d.entries, v.members[i].key) ==>
        Valid(e, val.d, v.members[i].value)
    else if k.KwAdditional? && val == Lit(Bool(false)) then
      v.Object? ==> forall i :: 0 <= i < |v.members| ==> IsProp(d.entries, v.members[i].key)
    else if k.KwPropertyNames? && val.Sub? then
      v.Object? ==> forall i :: 0 <= i < |v.members| ==> Valid(e, val.d, String(v.members[i].key))
    else if k.KwItems? && val.Sub? then
      v.Array? ==> forall i :: 0 <= i < |v.elems| ==> Valid(e, val.d, v.elems[i])
    else if k.KwAnyOf? && val.Subs? then
      exists i :: 0 <= i < |val.ds| && Valid(e, val.ds[i], v)
    else if k.KwNot? && val.Sub? then
      !Valid(e, val.d, v)
    else
      ShallowOk(e, k, val, v)
  }
}
