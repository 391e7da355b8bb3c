/** jsonv.Equal: deep equality blind to member order and the sign of zero. */
module JsonEqual {
  import opened JsonValue
  import opened JsOrder
  import opened JsonText
  import opened JsonRoundTrip

  predicate SameNumber(a: Num, b: Num) { a == b || (a.Zero? && b.Zero?) }

  predicate Equal(a: Json, b: Json)
    decreases a, 0
  {
    match a
    case Null => b.Null?
    case Bool(x) => b == Bool(x)
    case Number(x) => b.Number? && SameNumber(x, b.n)
    case String(x) => b == String(x)
    case Array(x) => b.Array? && |x| == |b.elems| && forall i :: 0 <= i < |x| ==> Equal(x[i], b.elems[i])
    case Object(x) => b.Object? && |x| == |b.members| && forall m :: m in x ==> EqualAt(m.value, Find(b.members, m.key))
  }

  predicate EqualAt(a: Json, b: Option<Json>)
    decreases a, 1
  {
    b.Some? && Equal(a, b.value)
  }

  /** No infinity anywhere: what JSON text can carry. */
  ghost predicate Finite(v: Json) {
    match v
    case Number(n) => !n.Inf?
    case Array(es) => forall e :: e in es ==> Finite(e)
    case Object(ms) => forall m :: m in ms ==> Finite(m.value)
    case _ => true
  }

  lemma {:induction false} CanonMemberAt(v: Json, ms: seq<Member>, i: nat)
    requires PartsOf(ms, v) && i < |ms|
    ensures ms[i] in ms && CanonicalNumbers(ms[i].value)
    ensures CanonMembers(v, ms)[i] == Member(ms[i].key, Canon(ms[i].value))
    decreases i
  {
    hide Canon, CanonicalNumbers;
    CanonFirst(v, ms);
    if i > 0 { CanonMemberAt(v, ms[1..], i - 1); }
  }

  lemma {:induction false} CanonElemAt(es: seq<Json>, i: nat)
    requires (forall e :: e in es ==> CanonicalNumbers(e)) && i < |es|
    ensures CanonElems(es)[i] == Canon(es[i])
  {
    if i > 0 { CanonElemAt(es[1..], i - 1); }
  }

  /** MAIN: what comes back from printing and parsing is Equal to the value exactly
      when the value holds no infinity. */
  lemma {:induction false} CanonEqual(v: Json, mode: Mode)
    requires CanonicalNumbers(v) && Held(v, mode)
    ensures Equal(v, Canon(v)) <==> Finite(v)
    decreases v
  {
    hide Held, CanonElems, CanonMembers, Enumerate;
    match v
    case Array(es) =>
      ElementsHeld(v, mode);
      forall i | 0 <= i < |es| ensures Equal(es[i], CanonElems(es)[i]) <==> Finite(es[i]) {
        CanonEqual(es[i], mode);
        CanonElemAt(es, i);
      }
    case Object(ms) => ObjectEqual(v, mode);
    case _ =>
  }

  lemma ElementsHeld(v: Json, mode: Mode)
    requires Held(v, mode)
    ensures v.Array? ==> forall e :: e in v.elems ==> Held(e, mode)
    ensures v.Object? ==> UniqueKeys(v.members) && forall m :: m in v.members ==> Held(m.value, mode)
  {}

  lemma {:induction false} ObjectEqual(v: Json, mode: Mode)
    requires v.Object? && CanonicalNumbers(v) && Held(v, mode)
    ensures Equal(v, Canon(v)) <==> Finite(v)
    decreases v, 0
  {
    hide Held, Enumerate, CanonMembers, IsArrayIndex, InJsOrder;
    ElementsHeld(v, mode);
    MembersArePartsOf(v);
    EnumerateKeeps(v.members);
    EnumerateOrdered(v.members);
    var ms := Enumerate(v.members);
    var r := CanonMembers(v, ms);
    forall m | m in v.members ensures EqualAt(m.value, Find(r, m.key)) <==> Finite(m.value) {
      var i :| 0 <= i < |ms| && ms[i] == m;
      CanonMemberAt(v, ms, i);
      FindIs(r, i);
      CanonEqual(m.value, mode);
    }
  }

  // ── equality by paths ──────────

  datatype Step = At(i: nat) | Under(key: Str)

  /** What stands at the end of a path, if anything. */
  function Along(v: Json, path: seq<Step>): Option<Json>
    decreases |path|
  {
    if path == [] then Some(v)
    else match path[0]
      case At(i) => if v.Array? && i < |v.elems| then Along(v.elems[i], path[1..]) else None
      case Under(key) =>
        if v.Object? && Find(v.members, key).Some? then Along(Find(v.members, key).value, path[1..]) else None
  }

  /** Both nothing, both arrays, both objects, or the same primitive; zeros are the same. */
  predicate SameThere(a: Option<Json>, b: Option<Json>) {
    match (a, b)
    case (None, None) => true
    case (Some(Array(_)), Some(Array(_))) => true
    case (Some(Object(_)), Some(Object(_))) => true
    case (Some(Number(Zero(_))), Some(Number(Zero(_)))) => true
    case (Some(x), Some(y)) => x == y && Primitive(x)
    case _ => false
  }

  ghost predicate Unique(v: Json) {
    match v
    case Array(es) => forall e :: e in es ==> Unique(e)
    case Object(ms) => UniqueKeys(ms) && forall m :: m in ms ==> Unique(m.value)
    case _ => true
  }

  ghost predicate SameEverywhere(a: Json, b: Json) {
    forall path: seq<Step> :: SameThere(Along(a, path), Along(b, path))
  }

  function KeysOf(ms: seq<Member>): set<Str> { set m | m in ms :: m.key }

  lemma {:induction false} KeysFound(ms: seq<Member>, key: Str)
    ensures Find(ms, key).Some? <==> key in KeysOf(ms)
    ensures Find(ms, key).Some? ==> Member(key, Find(ms, key).value) in ms
  {
    if ms != [] {
      KeysFound(ms[1..], key);
      assert forall m :: m in ms <==> m == ms[0] || m in ms[1..];
    }
  }

  lemma {:induction false} KeysCount(ms: seq<Member>)
    requires UniqueKeys(ms)
    ensures |KeysOf(ms)| == |ms|
  {
    if ms != [] {
      KeysCount(ms[1..]);
      assert KeysOf(ms) == KeysOf(ms[1..]) + {ms[0].key};
      assert ms[0].key !in KeysOf(ms[1..]);
    }
  }

  lemma SubsetFull<T>(a: set<T>, b: set<T>)
    requires a <= b
    ensures |a| <= |b| && (|a| == |b| ==> a == b)
  {
    assert b == a + (b - a);
    assert |b| == |a| + |b - a|;
  }

  // Objects of one size that share the keys of one share all.
  lemma SameKeys(a: seq<Member>, b: seq<Member>)
    requires UniqueKeys(a) && UniqueKeys(b) && KeysOf(a) <= KeysOf(b)
    ensures |a| == |b| <==> KeysOf(a) == KeysOf(b)
  {
    hide UniqueKeys, KeysOf;
    KeysCount(a);
    KeysCount(b);
    SubsetFull(KeysOf(a), KeysOf(b));
  }

  lemma AllKeys(a: Json, b: Json)
    requires a.Object? && b.Object? && Equal(a, b)
    ensures KeysOf(a.members) <= KeysOf(b.members)
  {
    hide Find;
    forall m | m in a.members ensures m.key in KeysOf(b.members) {
      assert EqualAt(m.value, Find(b.members, m.key));
      KeysFound(b.members, m.key);
    }
  }

  lemma {:induction false} EqualAlong(a: Json, b: Json, path: seq<Step>)
    requires Equal(a, b) && Unique(a) && Unique(b)
    ensures SameThere(Along(a, path), Along(b, path))
    decreases |path|
  {
    hide UniqueKeys, Find;
    if path != [] {
      match path[0]
      case At(i) =>
        if a.Array? && i < |a.elems| {
          assert a.elems[i] in a.elems && b.elems[i] in b.elems;
          EqualAlong(a.elems[i], b.elems[i], path[1..]);
        }
      case Under(key) =>
        if a.Object? {
          AllKeys(a, b);
          SameKeys(a.members, b.members);
          KeysFound(a.members, key);
          KeysFound(b.members, key);
          if Find(a.members, key).Some? {
            EqualAlong(Find(a.members, key).value, Find(b.members, key).value, path[1..]);
          }
        }
    }
  }

  lemma Deeper(a: Json, b: Json, step: Step)
    requires SameEverywhere(a, b)
    ensures var x, y := Along(a, [step]), Along(b, [step]);
      SameThere(x, y) && (x.Some? && y.Some? ==> SameEverywhere(x.value, y.value))
  {
    assert SameThere(Along(a, [step]), Along(b, [step]));
    var x, y := Along(a, [step]), Along(b, [step]);
    if x.Some? && y.Some? {
      forall path ensures SameThere(Along(x.value, path), Along(y.value, path)) {
        StepThen(a, step, path);
        StepThen(b, step, path);
        assert SameThere(Along(a, [step] + path), Along(b, [step] + path));
      }
    }
  }

  lemma StepThen(v: Json, step: Step, path: seq<Step>)
    requires Along(v, [step]).Some?
    ensures Along(v, [step] + path) == Along(Along(v, [step]).value, path)
  {
    assert ([step] + path)[1..] == path && [step][1..] == [];
  }

  lemma {:induction false} PathsEqual(a: Json, b: Json)
    requires SameEverywhere(a, b) && Unique(a) && Unique(b)
    ensures Equal(a, b)
    decreases a
  {
    hide SameEverywhere, Find;
    assert SameThere(Some(a), Some(b)) by { SameHere(a, b); }
    match a
    case Array(x) =>
      ArraysLong(a, b);
      forall i | 0 <= i < |x| ensures Equal(x[i], b.elems[i]) {
        assert x[i] in x && b.elems[i] in b.elems;
        Deeper(a, b, At(i));
        ElemAlong(a, i);
        ElemAlong(b, i);
        PathsEqual(x[i], b.elems[i]);
      }
    case Object(x) => ObjectsEqual(a, b);
    case _ =>
  }

  lemma SameHere(a: Json, b: Json)
    requires SameEverywhere(a, b)
    ensures SameThere(Some(a), Some(b))
  {
    assert SameThere(Along(a, []), Along(b, []));
  }

  lemma ElemAlong(v: Json, i: nat)
    requires v.Array?
    ensures Along(v, [At(i)]) == if i < |v.elems| then Some(v.elems[i]) else None
  {}

  lemma MemberAlong(v: Json, key: Str)
    requires v.Object?
    ensures Along(v, [Under(key)]) == Find(v.members, key)
  {}

  lemma ArraysLong(a: Json, b: Json)
    requires SameEverywhere(a, b) && a.Array? && b.Array?
    ensures |a.elems| == |b.elems|
  {
    hide SameEverywhere;
    var m, n := |a.elems|, |b.elems|;
    Deeper(a, b, At(m));
    Deeper(a, b, At(n));
    ElemAlong(a, m);
    ElemAlong(b, m);
    ElemAlong(a, n);
    ElemAlong(b, n);
  }

  lemma ObjectsEqual(a: Json, b: Json)
    requires SameEverywhere(a, b) && Unique(a) && Unique(b) && a.Object? && b.Object?
    ensures Equal(a, b)
    decreases a, 0
  {
    hide SameEverywhere, Find, Along;
    forall k ensures k in KeysOf(a.members) <==> k in KeysOf(b.members) {
      Deeper(a, b, Under(k));
      MemberAlong(a, k);
      MemberAlong(b, k);
      KeysFound(a.members, k);
      KeysFound(b.members, k);
    }
    assert KeysOf(a.members) == KeysOf(b.members);
    forall m | m in a.members ensures EqualAt(m.value, Find(b.members, m.key)) {
      var i :| 0 <= i < |a.members| && a.members[i] == m;
      FindIs(a.members, i);
      Deeper(a, b, Under(m.key));
      MemberAlong(a, m.key);
      MemberAlong(b, m.key);
      KeysFound(b.members, m.key);
      PathsEqual(m.value, Find(b.members, m.key).value);
    }
    SameKeys(a.members, b.members);
  }

  /** MAIN: values with unique keys are Equal exactly when no path tells them apart. */
  lemma EqualIff(a: Json, b: Json)
    requires Unique(a) && Unique(b)
    ensures Equal(a, b) <==> SameEverywhere(a, b)
  {
    hide Equal, Unique, Along;
    if Equal(a, b) {
      forall path ensures SameThere(Along(a, path), Along(b, path)) { EqualAlong(a, b, path); }
    }
    if SameEverywhere(a, b) { PathsEqual(a, b); }
  }
}
