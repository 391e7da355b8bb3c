/** What each emitted document means, node by node. */
module SchemaMeaning {
  import opened JsonValue
  import opened SchemaAst
  import opened SchemaRun
  import opened SchemaDoc
  import opened SchemaEmit
  import opened SchemaCompact

  // ── metadata and wrappers change no meaning ──────────

  predicate AnnotationsOnly(ms: seq<Meta>) { forall i :: 0 <= i < |ms| ==> Annotation(ms[i].key) }

  lemma {:induction false} SetMetaGet(es: seq<Entry>, ms: seq<Meta>, k: Key)
    requires AnnotationsOnly(ms) && !Annotation(k)
    ensures Get(SetMeta(es, ms), k) == Get(es, k)
    decreases ms
  {
    if ms != [] { SetMetaGet(Set(es, ms[0].key, Lit(ms[0].value)), ms[1..], k); }
  }

  /** The wrapper's keys win, the wrapped schema's fill in. */
  lemma {:induction false} UnderGet(o: seq<Entry>, inner: seq<Entry>, k: Key)
    ensures Get(Under(o, inner), k) == if Has(o, k) then Get(o, k) else Get(inner, k)
    decreases inner
  {
    if inner != [] {
      UnderGet(if Has(o, inner[0].key) then o else Set(o, inner[0].key, inner[0].value), inner[1..], k);
    }
  }

  lemma AnnotationOk(e: Engine, d: Doc, k: Key, v: Json)
    requires Annotation(k) && Get(d.entries, k).Some?
    ensures KeywordOk(e, d, k, v)
  {}

  /** Documents that agree on the validation keywords validate the same values. */
  lemma SameKeywords(e: Engine, a: Doc, b: Doc, v: Json)
    requires forall k :: !Annotation(k) ==> Get(a.entries, k) == Get(b.entries, k)
    ensures Valid(e, a, v) <==> Valid(e, b, v)
  {
    hide Get, KeywordOk;
    forall k | Get(a.entries, k).Some? ensures Valid(e, b, v) ==> KeywordOk(e, a, k, v) {
      if Annotation(k) { AnnotationOk(e, a, k, v); } else { KeywordSame(e, a, b, k, v); }
    }
    forall k | Get(b.entries, k).Some? ensures Valid(e, a, v) ==> KeywordOk(e, b, k, v) {
      if Annotation(k) { AnnotationOk(e, b, k, v); } else { KeywordSame(e, a, b, k, v); }
    }
  }

  lemma MetaMeans(e: Engine, es: seq<Entry>, ms: seq<Meta>, v: Json)
    requires AnnotationsOnly(ms)
    ensures Valid(e, Doc(SetMeta(es, ms)), v) <==> Valid(e, Doc(es), v)
  {
    forall k | !Annotation(k) ensures Get(SetMeta(es, ms), k) == Get(es, k) {
      SetMetaGet(es, ms, k);
    }
    SameKeywords(e, Doc(SetMeta(es, ms)), Doc(es), v);
  }

  lemma WrapperMeans(e: Engine, o: seq<Entry>, inner: Doc, v: Json)
    requires forall k :: !Annotation(k) ==> Get(o, k) == None
    ensures Valid(e, Doc(Under(o, inner.entries)), v) <==> Valid(e, inner, v)
  {
    forall k | !Annotation(k) ensures Get(Under(o, inner.entries), k) == Get(inner.entries, k) {
      UnderGet(o, inner.entries, k);
    }
    SameKeywords(e, Doc(Under(o, inner.entries)), inner, v);
  }

  lemma EmitMeans(e: Engine, s: Schema, dir: Dir, v: Json)
    requires AnnotationsOnly(s.meta)
    ensures !Wrapper(s) ==> (Valid(e, Emit(s, dir), v) <==> Valid(e, Doc(EmitNode(s, dir)), v))
    ensures Wrapper(s) ==> (Valid(e, Emit(s, dir), v) <==> Valid(e, Emit(s.node.inner, dir), v))
  {
    var own := EmitNode(s, dir);
    if Wrapper(s) {
      var o := SetMeta(own, s.meta);
      forall k | !Annotation(k) ensures Get(o, k) == None { SetMetaGet(own, s.meta, k); }
      WrapperMeans(e, o, Emit(s.node.inner, dir), v);
    } else {
      MetaMeans(e, own, s.meta, v);
    }
  }

  /** Adding one new keyword conjoins what it asks. */
  lemma SetMeans(e: Engine, es: seq<Entry>, k: Key, val: Value, v: Json)
    requires Get(es, k).None? && (k == KwProperties ==> Get(es, KwAdditional).None?)
    ensures var d := Doc(Set(es, k, val));
      Valid(e, d, v) <==> Valid(e, Doc(es), v) && KeywordOk(e, d, k, v)
  {
    hide Get, Set, KeywordOk, IsProp;
    var a, d := Doc(es), Doc(Set(es, k, val));
    forall k' | k' != k && Get(es, k').Some? ensures KeywordOk(e, a, k', v) <==> KeywordOk(e, d, k', v) {
      KeywordSameValue(e, a, d, k', v);
    }
  }

  lemma LeafMeans(e: Engine, es: seq<Entry>, k: Key, val: Value, v: Json)
    requires Get(es, k).None? && Leaf(k, val)
    ensures Valid(e, Doc(Set(es, k, val)), v) <==> Valid(e, Doc(es), v) && ShallowOk(e, k, val, v)
  {
    hide Get, Set, Valid, ShallowOk;
    SetMeans(e, es, k, val, v);
  }

  predicate Leaf(k: Key, val: Value) {
    !val.Sub? && !val.Subs? && !val.Props? && !k.KwAdditional? && !k.KwProperties?
  }

  lemma KeywordSameValue(e: Engine, a: Doc, b: Doc, k: Key, v: Json)
    requires Get(a.entries, k).Some? && Get(a.entries, k) == Get(b.entries, k)
    requires k != KwAdditional || Get(a.entries, KwProperties) == Get(b.entries, KwProperties)
    ensures KeywordOk(e, a, k, v) <==> KeywordOk(e, b, k, v)
  {
    if k == KwAdditional { KeywordSame(e, a, b, k, v); }
  }

  lemma EmptyMeans(e: Engine, v: Json)
    ensures Valid(e, Doc([]), v)
    ensures forall k :: Get([], k) == None
  {
  }

  // ── lengths ──────────

  predicate SizePasses(c: Check, size: nat) {
    match c
    case MinLen(b) => size as real >= b
    case MaxLen(b) => size as real <= b
    case LenEq(b) => size as real == b
    case _ => true
  }

  ghost predicate SizesPass(cs: seq<Check>, size: nat) { forall c :: c in cs ==> SizePasses(c, size) }

  predicate Whole(r: real) { r.Floor as real == r }

  /** A length check whose truncated bounds allow the same sizes. */
  predicate Carried(c: Check) {
    match c
    case MinLen(b) => b <= 0.0 || Whole(b)
    case MaxLen(b) => b >= 0.0
    case LenEq(b) => b >= 0.0 && Whole(b)
    case _ => true
  }

  predicate WithinBounds(lo: int, hi: int, size: nat) { lo <= size && (hi >= 0 ==> size <= hi) }

  /** Folding the bounds keeps every size the checks pass. */
  lemma {:induction false} FoldSound(cs: seq<Check>, lo: int, hi: int, size: nat)
    requires SizesPass(cs, size) && WithinBounds(lo, hi, size)
    ensures WithinBounds(FoldLo(cs, lo), FoldHi(cs, hi), size)
  {
    if cs != [] {
      var c := cs[0];
      assert SizePasses(c, size);
      FoldSound(cs[1..], RaiseTo(lo, c), LowerTo(hi, c), size);
    }
  }

  lemma BoundExact(c: Check, lo: int, hi: int, size: nat)
    requires Carried(c)
    ensures WithinBounds(RaiseTo(lo, c), LowerTo(hi, c), size) <==> WithinBounds(lo, hi, size) && SizePasses(c, size)
  {}

  // The bounds c alone gives allow this size.
  predicate Allows(c: Check, size: nat) { WithinBounds(RaiseTo(-1, c), LowerTo(-1, c), size) }

  /** A length check is advertised exactly if and only if it is a whole minimum or one that
      is no constraint, a maximum that is not negative, or a whole length. */
  lemma CarriedIff(c: Check)
    ensures (forall size: nat :: Allows(c, size) <==> SizePasses(c, size)) <==> Carried(c)
  {
    if Carried(c) {
      forall size: nat ensures Allows(c, size) <==> SizePasses(c, size) { BoundExact(c, -1, -1, size); }
    } else {
      var size: nat := if c.n >= 0.0 then c.n.Floor else 0;
      assert Allows(c, size) && !SizePasses(c, size);
    }
  }

  /** On bounds that are carried it keeps no other. */
  lemma {:induction false} FoldExact(cs: seq<Check>, lo: int, hi: int, size: nat)
    requires forall c :: c in cs ==> Carried(c)
    ensures WithinBounds(FoldLo(cs, lo), FoldHi(cs, hi), size) <==> WithinBounds(lo, hi, size) && SizesPass(cs, size)
  {
    if cs != [] {
      var c := cs[0];
      assert forall d :: d in cs <==> d == c || d in cs[1..];
      FoldExact(cs[1..], RaiseTo(lo, c), LowerTo(hi, c), size);
      BoundExact(c, lo, hi, size);
    }
  }

  /** Checks that are no length checks leave the bounds alone. */
  lemma {:induction false} NoBounds(cs: seq<Check>, lo: int, hi: int)
    requires forall c :: c in cs ==> !c.IsLength()
    ensures FoldLo(cs, lo) == lo && FoldHi(cs, hi) == hi
  {
    if cs != [] {
      assert cs[0] in cs;
      NoBounds(cs[1..], lo, hi);
    }
  }

  lemma CountMeans(e: Engine, es: seq<Entry>, k: Key, n: int, v: Json)
    requires Get(es, k).None? && (k.KwMinLength? || k.KwMaxLength? || k.KwMinItems? || k.KwMaxItems?)
    ensures Valid(e, Doc(SetCount(es, k, n)), v)
       <==> Valid(e, Doc(es), v) && (n >= 0 ==> ShallowOk(e, k, Count(n), v))
  {
    if n >= 0 { LeafMeans(e, es, k, Count(n), v); }
  }

  // ── strings ──────────

  function SizedString(lo: int, hi: int): seq<Entry> {
    SetCount(SetCount(Set([], KwType, Type(TString)), KwMinLength, lo), KwMaxLength, hi)
  }

  lemma SizedStringMeans(e: Engine, lo: int, hi: int, v: Json)
    ensures Get(SizedString(lo, hi), KwFormat) == None && Get(SizedString(lo, hi), KwPattern) == None
    ensures Valid(e, Doc(SizedString(lo, hi)), v) <==> v.String? && WithinBounds(lo, hi, e.runes(v.s))
  {
    hide Get, Set, Valid, KeywordOk;
    EmptyMeans(e, v);
    var o1 := Set([], KwType, Type(TString));
    LeafMeans(e, [], KwType, Type(TString), v);
    CountMeans(e, o1, KwMinLength, lo, v);
    CountMeans(e, SetCount(o1, KwMinLength, lo), KwMaxLength, hi, v);
  }

  lemma StringMeans(e: Engine, cs: seq<Check>, v: Json)
    ensures Valid(e, Doc(EmitString(cs)), v) <==>
      && v.String?
      && WithinBounds(FoldLo(cs, -1), FoldHi(cs, -1), e.runes(v.s))
      && (LastPattern(cs, None).Some? ==> e.matches(LastPattern(cs, None).value, v.s))
  {
    hide Get, Set, Valid, KeywordOk, FoldLo, FoldHi, FormatOf, LastPattern, WithinBounds;
    var o3 := SizedString(FoldLo(cs, -1), FoldHi(cs, -1));
    SizedStringMeans(e, FoldLo(cs, -1), FoldHi(cs, -1), v);
    var f, p := FormatOf(cs, None), LastPattern(cs, None);
    var o4 := if f.Some? then Set(o3, KwFormat, Lit(f.value)) else o3;
    if f.Some? { LeafMeans(e, o3, KwFormat, Lit(f.value), v); }
    if p.Some? { LeafMeans(e, o4, KwPattern, Source(p.value), v); }
  }

  /** Every check's pattern is met when all checks pass; the last one is among them. */
  lemma {:induction false} LastPatternIn(cs: seq<Check>, p: Option<Str>)
    ensures var r := LastPattern(cs, p);
      r == p || exists f :: r.Some? && Pattern(f, r.value) in cs
  {
    if cs != [] {
      var p1 := if cs[0].Pattern? then Some(cs[0].source) else p;
      LastPatternIn(cs[1..], p1);
      if cs[0].Pattern? { assert Pattern(cs[0].format, cs[0].source) == cs[0]; }
    }
  }

  // ── numbers ──────────

  predicate InBounds(b: Bounds, n: Num) {
    && (b.isInt ==> Integral(n))
    && (b.minimum.Some? ==> AtLeast(n, b.minimum.value))
    && (b.maximum.Some? ==> AtMost(n, b.maximum.value))
    && (b.exMin.Some? ==> Above(n, b.exMin.value))
  }

  predicate NumberPasses(c: Check, n: Num) {
    match c
    case Int => Integral(n) && AtLeast(n, -MAX_SAFE) && AtMost(n, MAX_SAFE)
    case Gt(b) => Above(n, b)
    case Gte(b) => AtLeast(n, b)
    case Lte(b) => AtMost(n, b)
    case _ => true
  }

  /** Folding keeps exactly the numbers every check passes. */
  lemma {:induction false} NarrowMeans(cs: seq<Check>, b: Bounds, n: Num)
    requires !n.Inf?
    ensures InBounds(NarrowAll(cs, b), n) <==> InBounds(b, n) && forall c :: c in cs ==> NumberPasses(c, n)
    decreases cs
  {
    if cs != [] {
      assert forall c :: c in cs <==> c == cs[0] || c in cs[1..];
      NarrowMeans(cs[1..], Narrow(b, cs[0]), n);
      NarrowOnce(cs[0], b, n);
      hide InBounds, NumberPasses, Narrow;
    }
  }

  lemma NarrowOnce(c: Check, b: Bounds, n: Num)
    requires !n.Inf?
    ensures InBounds(Narrow(b, c), n) <==> InBounds(b, n) && NumberPasses(c, n)
  {
    hide Val, Integral;
  }

  /** Emitting only the stronger of minimum and exclusiveMinimum loses nothing. */
  lemma NumberMeans(e: Engine, b: Bounds, v: Json)
    ensures Valid(e, Doc(EmitBounds(b)), v) <==> v.Number? && !v.n.Inf? && InBounds(b, v.n)
  {
    hide Get, Set, Valid, KeywordOk;
    EmptyMeans(e, v);
    var t := Type(if b.isInt then TInteger else TNumber);
    var o1 := Set([], KwType, t);
    LeafMeans(e, [], KwType, t, v);
    var strict := b.exMin.Some? && (b.minimum.None? || b.exMin.value >= b.minimum.value);
    var o2 := if strict then Set(o1, KwExclusiveMinimum, Bound(b.exMin.value))
              else if b.minimum.Some? then Set(o1, KwMinimum, Bound(b.minimum.value)) else o1;
    if strict {
      LeafMeans(e, o1, KwExclusiveMinimum, Bound(b.exMin.value), v);
    } else if b.minimum.Some? {
      LeafMeans(e, o1, KwMinimum, Bound(b.minimum.value), v);
    }
    if b.maximum.Some? { LeafMeans(e, o2, KwMaximum, Bound(b.maximum.value), v); }
  }

  // ── containers ──────────

  lemma TypeMeans(e: Engine, t: TypeName, v: Json)
    ensures Valid(e, Doc(Set([], KwType, Type(t))), v) <==> HasType(t, v)
  {
    hide Get, Set, Valid;
    EmptyMeans(e, v);
    LeafMeans(e, [], KwType, Type(t), v);
  }

  lemma ArrayMeans(e: Engine, lo: int, hi: int, items: Doc, v: Json)
    ensures Valid(e, Doc(EmitArray(lo, hi, items)), v) <==>
      && v.Array?
      && WithinBounds(lo, hi, |v.elems|)
      && forall i :: 0 <= i < |v.elems| ==> Valid(e, items, v.elems[i])
  {
    hide Get, Set, Valid, KeywordOk;
    EmptyMeans(e, v);
    var o1 := SetCount([], KwMinItems, lo);
    CountMeans(e, [], KwMinItems, lo, v);
    var o2 := SetCount(o1, KwMaxItems, hi);
    CountMeans(e, o1, KwMaxItems, hi, v);
    var o3 := Set(o2, KwType, Type(TArray));
    LeafMeans(e, o2, KwType, Type(TArray), v);
    ItemsMeans(e, o3, items, v);
  }

  lemma ItemsMeans(e: Engine, es: seq<Entry>, items: Doc, v: Json)
    requires Get(es, KwItems).None?
    ensures Valid(e, Doc(Set(es, KwItems, Sub(items))), v) <==>
      Valid(e, Doc(es), v) && (v.Array? ==> forall i :: 0 <= i < |v.elems| ==> Valid(e, items, v.elems[i]))
  {
    hide Get, Set, Valid;
    SetMeans(e, es, KwItems, Sub(items), v);
  }

  lemma StringDocMeans(e: Engine, k: Str)
    ensures Valid(e, STRING_DOC, String(k))
  {
    TypeMeans(e, TString, String(k));
    assert Set([], KwType, Type(TString)) == STRING_DOC.entries;
  }

  lemma RecordMeans(e: Engine, values: Doc, v: Json)
    ensures Valid(e, Doc(EmitRecord(values)), v) <==>
      v.Object? && forall i :: 0 <= i < |v.members| ==> Valid(e, values, v.members[i].value)
  {
    hide Get, Set, Valid, KeywordOk;
    EmptyMeans(e, v);
    var o1 := Set([], KwType, Type(TObject));
    LeafMeans(e, [], KwType, Type(TObject), v);
    var o2 := Set(o1, KwPropertyNames, Sub(STRING_DOC));
    NamesMean(e, o1, v);
    ValuesMean(e, o2, values, v);
  }

  lemma NamesMean(e: Engine, es: seq<Entry>, v: Json)
    requires Get(es, KwPropertyNames).None?
    ensures Valid(e, Doc(Set(es, KwPropertyNames, Sub(STRING_DOC))), v) <==> Valid(e, Doc(es), v)
  {
    hide Get, Set, Valid;
    SetMeans(e, es, KwPropertyNames, Sub(STRING_DOC), v);
    forall k: Str ensures Valid(e, STRING_DOC, String(k)) { StringDocMeans(e, k); }
  }

  // Without properties, additionalProperties speaks of every member.
  lemma ValuesMean(e: Engine, es: seq<Entry>, values: Doc, v: Json)
    requires Get(es, KwAdditional).None? && Get(es, KwProperties).None?
    ensures Valid(e, Doc(Set(es, KwAdditional, Sub(values))), v) <==>
      Valid(e, Doc(es), v) && (v.Object? ==> forall i :: 0 <= i < |v.members| ==> Valid(e, values, v.members[i].value))
  {
    hide Get, Set, Valid;
    SetMeans(e, es, KwAdditional, Sub(values), v);
  }

  lemma AnyOfMeans(e: Engine, ds: seq<Doc>, v: Json)
    ensures Valid(e, Doc(Set([], KwAnyOf, Subs(ds))), v) <==> exists i :: 0 <= i < |ds| && Valid(e, ds[i], v)
  {
    hide Get, Set, Valid;
    EmptyMeans(e, v);
    SetMeans(e, [], KwAnyOf, Subs(ds), v);
  }

  /** What an object document asks: shapes of the named properties, the required
      names, and nothing else when it is closed. */
  ghost predicate ObjectOk(e: Engine, ps: seq<Prop>, required: seq<Str>, closed: bool, v: Json) {
    && v.Object?
    && (forall i :: 0 <= i < |ps| && Find(v.members, ps[i].name).Some? ==>
          Valid(e, ps[i].d, Find(v.members, ps[i].name).value))
    && (forall n :: n in required ==> Find(v.members, n).Some?)
    && (closed ==> forall i :: 0 <= i < |v.members| ==> Named(ps, v.members[i].key))
  }

  lemma ObjectMeans(e: Engine, ps: seq<Prop>, required: seq<Str>, catchall: Catch, dir: Dir, v: Json)
    ensures Valid(e, Doc(EmitObject(ps, required, catchall, dir)), v)
       <==> ObjectOk(e, ps, required, catchall == Strict || (catchall == Strip && dir == Out), v)
  {
    hide Get, Set, Valid, KeywordOk;
    var o3 := OpenObject(ps, required);
    OpenObjectMeans(e, ps, required, v);
    if catchall == Loose {
      OpenMeans(e, o3, v);
    } else if catchall == Strict || dir == Out {
      ClosedMeans(e, o3, ps, v);
    }
  }

  // An object document before additionalProperties.
  function OpenObject(ps: seq<Prop>, required: seq<Str>): seq<Entry> {
    var o := Set(Set([], KwType, Type(TObject)), KwProperties, Props(ps));
    if |required| > 0 then Set(o, KwRequired, Names(required)) else o
  }

  lemma OpenObjectMeans(e: Engine, ps: seq<Prop>, required: seq<Str>, v: Json)
    ensures var o := OpenObject(ps, required);
      && Get(o, KwAdditional) == None && Get(o, KwProperties) == Some(Props(ps))
      && (Valid(e, Doc(o), v) <==> ObjectOk(e, ps, required, false, v))
  {
    hide Get, Set, Valid, KeywordOk;
    EmptyMeans(e, v);
    var o1 := Set([], KwType, Type(TObject));
    LeafMeans(e, [], KwType, Type(TObject), v);
    var o2 := Set(o1, KwProperties, Props(ps));
    PropertiesMeans(e, o1, ps, v);
    if |required| > 0 { LeafMeans(e, o2, KwRequired, Names(required), v); }
  }

  lemma PropertiesMeans(e: Engine, es: seq<Entry>, ps: seq<Prop>, v: Json)
    requires Get(es, KwProperties).None? && Get(es, KwAdditional).None?
    ensures Valid(e, Doc(Set(es, KwProperties, Props(ps))), v) <==> (
      && Valid(e, Doc(es), v)
      && (v.Object? ==> forall i :: 0 <= i < |ps| && Find(v.members, ps[i].name).Some? ==>
            Valid(e, ps[i].d, Find(v.members, ps[i].name).value)))
  {
    hide Get, Set, Valid;
    SetMeans(e, es, KwProperties, Props(ps), v);
  }

  lemma OpenMeans(e: Engine, es: seq<Entry>, v: Json)
    requires Get(es, KwAdditional).None?
    ensures Valid(e, Doc(Set(es, KwAdditional, Sub(EMPTY))), v) <==> Valid(e, Doc(es), v)
  {
    hide Get, Set, Valid;
    SetMeans(e, es, KwAdditional, Sub(EMPTY), v);
    forall w { EmptyMeans(e, w); }
  }

  lemma ClosedMeans(e: Engine, es: seq<Entry>, ps: seq<Prop>, v: Json)
    requires Get(es, KwAdditional).None? && Get(es, KwProperties) == Some(Props(ps))
    ensures Valid(e, Doc(Set(es, KwAdditional, Lit(Bool(false)))), v) <==> (
      && Valid(e, Doc(es), v)
      && (v.Object? ==> forall i :: 0 <= i < |v.members| ==> Named(ps, v.members[i].key)))
  {
    hide Get, Set, Valid;
    SetMeans(e, es, KwAdditional, Lit(Bool(false)), v);
  }

  lemma LiteralMeans(e: Engine, lit: Json, v: Json)
    requires Primitive(lit) && !(lit.Number? && lit.n.Inf?)
    ensures Valid(e, Doc(Set(Set([], KwType, Type(TypeofLiteral(lit))), KwConst, Lit(lit))), v) <==> SameLiteral(v, lit)
  {
    hide Get, Set, Valid, KeywordOk;
    EmptyMeans(e, v);
    LeafMeans(e, [], KwType, Type(TypeofLiteral(lit)), v);
    LeafMeans(e, Set([], KwType, Type(TypeofLiteral(lit))), KwConst, Lit(lit), v);
  }

  lemma EnumMeans(e: Engine, vs: seq<Str>, js: seq<Json>, v: Json)
    requires |js| == |vs| && forall i :: 0 <= i < |vs| ==> js[i] == String(vs[i])
    ensures Valid(e, Doc(Set(Set([], KwType, Type(TString)), KwEnum, Consts(js))), v) <==> v.String? && v.s in vs
  {
    hide Get, Set, Valid, KeywordOk;
    EmptyMeans(e, v);
    LeafMeans(e, [], KwType, Type(TString), v);
    LeafMeans(e, Set([], KwType, Type(TString)), KwEnum, Consts(js), v);
    if v.String? && v.s in vs {
      var i :| 0 <= i < |vs| && vs[i] == v.s;
      assert js[i] in js && SameLiteral(v, js[i]);
    }
  }

  lemma NeverMeans(e: Engine, v: Json)
    ensures !Valid(e, Doc(Set([], KwNot, Sub(EMPTY))), v)
  {
    hide Get, Set, Valid;
    EmptyMeans(e, v);
    SetMeans(e, [], KwNot, Sub(EMPTY), v);
  }
}
