/** jsonv.Object: parallel key and value lists with a lazily built index. */
module OrderedObject {
  import opened JsonValue
  import opened JsOrder

  const INDEX_THRESHOLD := 8

  function Zip(keys: seq<Str>, vals: seq<Json>): (ms: seq<Member>)
    requires |keys| == |vals|
    ensures |ms| == |keys| && forall i :: 0 <= i < |keys| ==> ms[i] == Member(keys[i], vals[i])
  {
    seq(|keys|, i requires 0 <= i < |keys| => Member(keys[i], vals[i]))
  }

  function CountIndices(keys: seq<Str>): nat {
    if keys == [] then 0 else CountIndices(keys[..|keys| - 1]) + if IsArrayIndex(keys[|keys| - 1]) then 1 else 0
  }

  /** An insertion-ordered map without the key. */
  function Without(ms: seq<Member>, key: Str): seq<Member> {
    if ms == [] then [] else if ms[0].key == key then ms[1..] else [ms[0]] + Without(ms[1..], key)
  }

  predicate Distinct(keys: seq<Str>) { forall i, j :: 0 <= i < j < |keys| ==> keys[i] != keys[j] }

  /** index is the exact inverse of keys. */
  predicate Inverse(index: map<Str, nat>, keys: seq<Str>) {
    && (forall k :: k in index ==> index[k] < |keys| && keys[index[k]] == k)
    && (forall i :: 0 <= i < |keys| ==> keys[i] in index)
  }

  // ── facts about positions ──────────

  lemma {:induction false} FindNone(ms: seq<Member>, key: Str)
    requires NoKey(ms, key)
    ensures Find(ms, key) == None && Without(ms, key) == ms
  {
    if ms != [] { FindNone(ms[1..], key); }
  }

  lemma {:induction false} PutAt(ms: seq<Member>, i: nat, v: Json)
    requires i < |ms| && NoKey(ms[..i], ms[i].key)
    ensures Put(ms, ms[i].key, v) == ms[i := Member(ms[i].key, v)]
  {
    hide Find;
    if i > 0 {
      assert ms[0] == ms[..i][0] && ms[..i][1..] == ms[1..][..i - 1];
      PutAt(ms[1..], i - 1, v);
    }
  }

  lemma {:induction false} WithoutAt(ms: seq<Member>, i: nat)
    requires i < |ms| && NoKey(ms[..i], ms[i].key)
    ensures Without(ms, ms[i].key) == ms[..i] + ms[i + 1..]
  {
    if i > 0 {
      assert ms[0] == ms[..i][0] && ms[..i][1..] == ms[1..][..i - 1];
      WithoutAt(ms[1..], i - 1);
    }
  }

  lemma {:induction false} FindAt(ms: seq<Member>, i: nat)
    requires i < |ms| && NoKey(ms[..i], ms[i].key)
    ensures Find(ms, ms[i].key) == Some(ms[i].value)
  {
    if i > 0 {
      assert ms[0] == ms[..i][0] && ms[..i][1..] == ms[1..][..i - 1];
      FindAt(ms[1..], i - 1);
    }
  }

  lemma CountOne(key: Str)
    ensures CountIndices([key]) == if IsArrayIndex(key) then 1 else 0
  {
    var ks: seq<Str> := [key];
    assert ks[..0] == [];
  }

  lemma {:induction false} CountSplit(a: seq<Str>, b: seq<Str>)
    ensures CountIndices(a + b) == CountIndices(a) + CountIndices(b)
  {
    if b == [] {
      assert a + b == a;
    } else {
      assert (a + b)[..|a + b| - 1] == a + b[..|b| - 1];
      CountSplit(a, b[..|b| - 1]);
    }
  }

  lemma {:induction false} CountNone(ms: seq<Member>, keys: seq<Str>)
    requires |keys| == |ms| && forall i :: 0 <= i < |ms| ==> ms[i].key == keys[i]
    ensures CountIndices(keys) == |Indexed(ms)|
    ensures CountIndices(keys) == 0 ==> Named(ms) == ms
  {
    if ms != [] {
      CountNone(ms[1..], keys[1..]);
      assert keys == [keys[0]] + keys[1..];
      CountSplit([keys[0]], keys[1..]);
      CountOne(keys[0]);
    }
  }

  lemma BeforeIs(keys: seq<Str>, vals: seq<Json>, key: Str, i: int)
    requires |keys| == |vals| && Distinct(keys) && -1 <= i < |keys|
    requires if i >= 0 then keys[i] == key else forall j :: 0 <= j < |keys| ==> keys[j] != key
    ensures i >= 0 ==> Zip(keys, vals)[i].key == key && NoKey(Zip(keys, vals)[..i], key)
    ensures i < 0 ==> NoKey(Zip(keys, vals), key)
  {}

  lemma RemovedAt(keys: seq<Str>, vals: seq<Json>, i: nat)
    requires |keys| == |vals| && i < |keys| && Distinct(keys)
    ensures Distinct(keys[..i] + keys[i + 1..])
    ensures var ms := Zip(keys, vals);
      Zip(keys[..i] + keys[i + 1..], vals[..i] + vals[i + 1..]) == ms[..i] + ms[i + 1..]
  {}

  class Object {
    var keys: seq<Str>
    var vals: seq<Json>
    var index: Option<map<Str, nat>>
    var nidx: nat

    ghost predicate Valid()
      reads this
    {
      && |keys| == |vals|
      && Distinct(keys)
      && (index.Some? ==> Inverse(index.value, keys))
      && (|keys| > INDEX_THRESHOLD ==> index.Some?)
      && nidx == CountIndices(keys)
    }

    /** The insertion-ordered map this object stands for. */
    ghost function Contents(): (ms: seq<Member>)
      reads this
      requires Valid()
      ensures UniqueKeys(ms)
    {
      Zip(keys, vals)
    }

    constructor ()
      ensures Valid() && Contents() == [] && index == None
    {
      keys, vals, index, nidx := [], [], None, 0;
    }

    /** find: through the index when there is one, else a linear scan. */
    method Position(key: Str) returns (i: int)
      requires Valid()
      ensures -1 <= i < |keys|
      ensures i >= 0 ==> keys[i] == key
      ensures i < 0 ==> forall j :: 0 <= j < |keys| ==> keys[j] != key
    {
      if index.Some? {
        if key in index.value { return index.value[key]; }
        return -1;
      }
      for k := 0 to |keys|
        invariant forall j :: 0 <= j < k ==> keys[j] != key
      {
        if keys[k] == key { return k; }
      }
      i := -1;
    }

    method Get(key: Str) returns (r: Option<Json>)
      requires Valid()
      ensures r == Find(Contents(), key)
    {
      var i := Position(key);
      if i >= 0 {
        FindAt(Contents(), i);
        return Some(vals[i]);
      }
      FindNone(Contents(), key);
      r := None;
    }

    method Reindex()
      requires Distinct(keys)
      modifies this`index
      ensures index.Some? && Inverse(index.value, keys)
    {
      var m: map<Str, nat> := map[];
      for i := 0 to |keys|
        invariant forall k :: k in m ==> m[k] < i && keys[m[k]] == k
        invariant forall j :: 0 <= j < i ==> keys[j] in m
      {
        m := m[keys[i] := i];
      }
      index := Some(m);
    }

    /** Replace in place, or append. */
    method Set(key: Str, value: Json)
      requires Valid()
      modifies this
      ensures Valid() && Contents() == Put(old(Contents()), key, value)
    {
      hide Find, Put, CountIndices, IsArrayIndex;
      ghost var before := Contents();
      var i := Position(key);
      if i >= 0 {
        PutAt(before, i, value);
        vals := vals[i := value];
        assert Contents() == before[i := Member(key, value)];
      } else {
        PutNew(before, key, value);
        CountSplit(keys, [key]);
        CountOne(key);
        Append(key, value);
        assert Contents() == before + [Member(key, value)];
      }
    }

    method Append(key: Str, value: Json)
      requires Valid() && key !in keys
      requires CountIndices(keys + [key]) == CountIndices(keys) + if IsArrayIndex(key) then 1 else 0
      modifies this
      ensures Valid() && keys == old(keys) + [key] && vals == old(vals) + [value]
    {
      hide CountIndices, IsArrayIndex;
      keys := keys + [key];
      vals := vals + [value];
      if IsArrayIndex(key) { nidx := nidx + 1; }
      if index.Some? {
        index := Some(index.value[key := |keys| - 1]);
      } else if |keys| > INDEX_THRESHOLD {
        Reindex();
      }
    }

    method Delete(key: Str)
      requires Valid()
      modifies this
      ensures Valid() && Contents() == Without(old(Contents()), key)
    {
      hide Without, CountIndices, IsArrayIndex, Distinct, Find, NoKey;
      ghost var before := Contents();
      var i := Position(key);
      BeforeIs(keys, vals, key, i);
      if i < 0 {
        FindNone(before, key);
        return;
      }
      WithoutAt(before, i);
      CountRemoved(keys, i);
      RemovedAt(keys, vals, i);
      keys := keys[..i] + keys[i + 1..];
      vals := vals[..i] + vals[i + 1..];
      if IsArrayIndex(key) { nidx := nidx - 1; }
      if index.Some? { Reindex(); }
    }

    /** The members in the order Range visits them. */
    method Range() returns (r: seq<Member>)
      requires Valid()
      ensures r == Enumerate(Contents())
    {
      hide CountIndices, IsArrayIndex, SortByRank, Named, Indexed;
      var ms := Zip(keys, vals);
      CountNone(ms, keys);
      if nidx == 0 {
        SortNothing();
        assert [] + ms == ms;
        return ms;
      }
      var indices, named := Partition(ms);
      r := SortByRank(indices) + named;
    }

    /** A shallow copy, indexed when the original is. */
    method Clone() returns (c: Object)
      requires Valid()
      ensures fresh(c) && c.Valid() && c.Contents() == Contents() && c.index.Some? == index.Some?
    {
      hide CountIndices;
      c := new Object();
      c.keys, c.vals, c.nidx := keys, vals, nidx;
      if index.Some? { c.Reindex(); }
    }
  }

  method Partition(ms: seq<Member>) returns (indices: seq<Member>, named: seq<Member>)
    ensures indices == Indexed(ms) && named == Named(ms)
  {
    hide IsArrayIndex, Named, Indexed;
    named, indices := [], [];
    assert ms[0..] == ms;
    for i := 0 to |ms|
      invariant Named(ms) == named + Named(ms[i..])
      invariant Indexed(ms) == indices + Indexed(ms[i..])
    {
      SplitStep(ms, i);
      if IsArrayIndex(ms[i].key) {
        indices := indices + [ms[i]];
      } else {
        named := named + [ms[i]];
      }
    }
    assert ms[|ms|..] == [];
    SortNothing();
  }

  lemma SortNothing()
    ensures SortByRank([]) == [] && Named([]) == [] && Indexed([]) == []
  {}

  lemma SplitStep(ms: seq<Member>, i: nat)
    requires i < |ms|
    ensures Named(ms[i..]) == (if IsArrayIndex(ms[i].key) then [] else [ms[i]]) + Named(ms[i + 1..])
    ensures Indexed(ms[i..]) == (if IsArrayIndex(ms[i].key) then [ms[i]] else []) + Indexed(ms[i + 1..])
  {
    assert ms[i..][0] == ms[i] && ms[i..][1..] == ms[i + 1..];
  }

  lemma CountRemoved(keys: seq<Str>, i: nat)
    requires i < |keys|
    ensures CountIndices(keys) == CountIndices(keys[..i] + keys[i + 1..]) + if IsArrayIndex(keys[i]) then 1 else 0
  {
    hide CountIndices, IsArrayIndex;
    assert keys == keys[..i] + ([keys[i]] + keys[i + 1..]);
    CountSplit(keys[..i], [keys[i]] + keys[i + 1..]);
    CountSplit([keys[i]], keys[i + 1..]);
    CountSplit(keys[..i], keys[i + 1..]);
    CountOne(keys[i]);
  }

  // ── the map the operations refine ──────────

  lemma {:induction false} Missed(ms: seq<Member>, key: Str) returns (i: nat)
    ensures i <= |ms| && NoKey(ms[..i], key) && (i < |ms| ==> ms[i].key == key)
  {
    i := 0;
    while i < |ms| && ms[i].key != key
      invariant i <= |ms| && NoKey(ms[..i], key)
    {
      i := i + 1;
    }
  }

  /** Deleting a key removes it, and only it. */
  lemma WithoutFinds(ms: seq<Member>, key: Str, k: Str)
    requires UniqueKeys(ms)
    ensures Find(Without(ms, key), k) == if k == key then None else Find(ms, k)
    ensures UniqueKeys(Without(ms, key))
  {
    hide Without, Find;
    var i := Missed(ms, key);
    if i == |ms| {
      assert ms[..i] == ms;
      FindNone(ms, key);
    } else {
      WithoutAt(ms, i);
      FindDropped(ms, i, k);
    }
  }

  lemma {:induction false} FindDropped(ms: seq<Member>, i: nat, k: Str)
    requires i < |ms| && UniqueKeys(ms)
    ensures Find(ms[..i] + ms[i + 1..], k) == if k == ms[i].key then None else Find(ms, k)
  {
    if i == 0 {
      assert ms[..0] + ms[1..] == ms[1..];
      if k == ms[0].key { FindNone(ms[1..], k); }
    } else {
      FindDropped(ms[1..], i - 1, k);
      assert (ms[..i] + ms[i + 1..])[1..] == ms[1..][..i - 1] + ms[1..][i..];
    }
  }
}
