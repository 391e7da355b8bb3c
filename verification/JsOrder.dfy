/** JavaScript property order: array indices first, ascending, then insertion order. */
module JsOrder {
  import opened JsonValue

  const ZERO: byte := 48

  predicate IsDigitByte(b: byte) { 48 <= b <= 57 }

  function IndexValue(key: Str): nat
    requires forall i :: 0 <= i < |key| ==> IsDigitByte(key[i])
  {
    if key == [] then 0
    else
      assert IsDigitByte(key[|key| - 1]);
      var last: nat := key[|key| - 1] - 48;
      10 * IndexValue(key[..|key| - 1]) + last
  }

  predicate AllDigits(key: Str) { forall i :: 0 <= i < |key| ==> IsDigitByte(key[i]) }

  /** IsArrayIndex, branch for branch. */
  predicate IsArrayIndex(key: Str) {
    if key == [] || |key| > 10 then false
    else if key == [ZERO] then true
    else if key[0] < 49 || key[0] > 57 then false
    else if exists i :: 1 <= i < |key| && !IsDigitByte(key[i]) then false
    else
      assert AllDigits(key);
      IndexValue(key) < 4294967295
  }

  /** The decimal text of n. */
  function Itoa(n: nat): (s: Str)
    ensures s != [] && AllDigits(s) && IndexValue(s) == n
  {
    if n < 10 then [48 + n] else
    var s := Itoa(n / 10);
    var r := s + [48 + n % 10];
    assert r[..|r| - 1] == s;
    r
  }

  lemma {:induction false} ItoaLead(n: nat)
    ensures n > 0 ==> Itoa(n)[0] != 48
    ensures n < 10 ==> |Itoa(n)| == 1
  {
    if n >= 10 { ItoaLead(n / 10); }
  }

  /** A digit string with no needless zero in front is the text of its value. */
  lemma {:induction false} ItoaInverse(key: Str)
    requires key != [] && AllDigits(key) && (key[0] != 48 || |key| == 1)
    ensures Itoa(IndexValue(key)) == key
  {
    var front, last := key[..|key| - 1], key[|key| - 1] - 48;
    if front == [] {
      assert key == [key[0]] && IndexValue(front) == 0;
    } else {
      ItoaInverse(front);
      Positive(front);
      assert IndexValue(key) / 10 == IndexValue(front) && IndexValue(key) % 10 == last;
      assert key == front + [key[|key| - 1]];
    }
  }

  lemma {:induction false} Positive(key: Str)
    requires key != [] && AllDigits(key) && key[0] != 48
    ensures IndexValue(key) > 0
  {
    if |key| > 1 { Positive(key[..|key| - 1]); }
  }

  lemma {:induction false} ItoaLength(n: nat, k: nat)
    requires k >= 1 && n < TenTo(k)
    ensures |Itoa(n)| <= k
  {
    if n >= 10 {
      if k > 1 { ItoaLength(n / 10, k - 1); }
    }
  }

  function TenTo(k: nat): nat { if k == 0 then 1 else 10 * TenTo(k - 1) }

  lemma TenToTen()
    ensures TenTo(10) == 10000000000
  {
    assert TenTo(2) == 100;
    assert TenTo(4) == 10000;
    assert TenTo(6) == 1000000;
    assert TenTo(8) == 100000000;
  }

  /** The array indices are exactly the decimal texts of 0 to 2^32 - 2. */
  lemma IndicesAre(key: Str)
    ensures IsArrayIndex(key) <==> exists n: nat :: n < 4294967295 && key == Itoa(n)
  {
    if IsArrayIndex(key) {
      if key == [ZERO] { assert IndexValue(key[..0]) == 0; }
      assert AllDigits(key);
      ItoaInverse(key);
    }
    if n: nat :| n < 4294967295 && key == Itoa(n) {
      ItoaLead(n);
      TenToTen();
      ItoaLength(n, 10);
    }
  }

  lemma IndexInjective(a: Str, b: Str)
    requires IsArrayIndex(a) && IsArrayIndex(b) && Rank(a) == Rank(b)
    ensures a == b
  {
    IndicesAre(a);
    IndicesAre(b);
  }

  /** The number an index key stands for. */
  function Rank(key: Str): nat { if AllDigits(key) then IndexValue(key) else 0 }

  // ── enumeration ──────────

  function Named(ms: seq<Member>): seq<Member> {
    if ms == [] then [] else (if IsArrayIndex(ms[0].key) then [] else [ms[0]]) + Named(ms[1..])
  }

  function Indexed(ms: seq<Member>): seq<Member> {
    if ms == [] then [] else (if IsArrayIndex(ms[0].key) then [ms[0]] else []) + Indexed(ms[1..])
  }

  /** One step of sorting by rank. */
  function InsertByRank(m: Member, ms: seq<Member>): seq<Member> {
    if ms == [] || Rank(m.key) <= Rank(ms[0].key) then [m] + ms else [ms[0]] + InsertByRank(m, ms[1..])
  }

  function SortByRank(ms: seq<Member>): seq<Member> {
    if ms == [] then [] else InsertByRank(ms[0], SortByRank(ms[1..]))
  }

  /** The order Object.keys and Range visit members in. */
  function Enumerate(ms: seq<Member>): seq<Member> {
    SortByRank(Indexed(ms)) + Named(ms)
  }

  // ── nothing is lost or repeated ──────────

  lemma {:induction false} SplitKeeps(ms: seq<Member>)
    ensures multiset(Indexed(ms)) + multiset(Named(ms)) == multiset(ms)
  {
    hide IsArrayIndex;
    if ms != [] {
      SplitKeeps(ms[1..]);
      assert ms == [ms[0]] + ms[1..];
    }
  }

  lemma {:induction false} InsertKeeps(m: Member, ms: seq<Member>)
    ensures multiset(InsertByRank(m, ms)) == multiset{m} + multiset(ms)
  {
    hide Rank;
    if ms != [] && Rank(m.key) > Rank(ms[0].key) {
      InsertKeeps(m, ms[1..]);
      assert ms == [ms[0]] + ms[1..];
    }
  }

  lemma {:induction false} SortKeeps(ms: seq<Member>)
    ensures multiset(SortByRank(ms)) == multiset(ms)
  {
    if ms != [] {
      SortKeeps(ms[1..]);
      InsertKeeps(ms[0], SortByRank(ms[1..]));
      assert ms == [ms[0]] + ms[1..];
    }
  }

  /** Enumeration is a permutation. */
  lemma EnumerateKeeps(ms: seq<Member>)
    ensures multiset(Enumerate(ms)) == multiset(ms) && |Enumerate(ms)| == |ms|
    ensures forall m :: m in Enumerate(ms) <==> m in ms
  {
    SplitKeeps(ms);
    SortKeeps(Indexed(ms));
    var r := Enumerate(ms);
    assert multiset(r) == multiset(ms);
    assert |multiset(r)| == |r| && |multiset(ms)| == |ms|;
    forall m ensures m in r <==> m in ms {
      assert m in r <==> m in multiset(r);
      assert m in ms <==> m in multiset(ms);
    }
  }

  // What makes an order the JavaScript one.
  ghost predicate InJsOrder(r: seq<Member>) {
    && (forall i, j :: 0 <= i < j < |r| && IsArrayIndex(r[j].key) ==>
      IsArrayIndex(r[i].key) && Rank(r[i].key) < Rank(r[j].key))
  }

  ghost predicate Ascending(r: seq<Member>) {
    forall i, j :: 0 <= i < j < |r| ==> Rank(r[i].key) < Rank(r[j].key)
  }

  predicate NoKey(ms: seq<Member>, key: Str) { forall i :: 0 <= i < |ms| ==> ms[i].key != key }

  /** Setting a key an object lacks appends it. */
  lemma {:induction false} PutNew(ms: seq<Member>, key: Str, v: Json)
    requires NoKey(ms, key)
    ensures Put(ms, key, v) == ms + [Member(key, v)]
  {
    hide Find;
    if ms != [] {
      PutNew(ms[1..], key, v);
      assert ms == [ms[0]] + ms[1..];
    }
  }

  lemma {:induction false} SplitNoKey(ms: seq<Member>, key: Str)
    requires NoKey(ms, key)
    ensures NoKey(Indexed(ms), key) && NoKey(Named(ms), key)
  {
    hide IsArrayIndex;
    if ms != [] { SplitNoKey(ms[1..], key); }
  }

  lemma {:induction false} SplitKinds(ms: seq<Member>)
    ensures forall i :: 0 <= i < |Indexed(ms)| ==> IsArrayIndex(Indexed(ms)[i].key)
    ensures forall i :: 0 <= i < |Named(ms)| ==> !IsArrayIndex(Named(ms)[i].key)
  {
    hide IsArrayIndex;
    if ms != [] { SplitKinds(ms[1..]); }
  }

  lemma UniqueFirst(m: Member, ms: seq<Member>)
    requires UniqueKeys(ms) && NoKey(ms, m.key)
    ensures UniqueKeys([m] + ms)
  {}

  lemma UniqueRest(ms: seq<Member>)
    requires UniqueKeys(ms) && ms != []
    ensures UniqueKeys(ms[1..]) && NoKey(ms[1..], ms[0].key)
  {}

  lemma {:induction false} SplitUnique(ms: seq<Member>)
    requires UniqueKeys(ms)
    ensures UniqueKeys(Indexed(ms)) && UniqueKeys(Named(ms))
  {
    hide IsArrayIndex, UniqueKeys, NoKey;
    if ms == [] {
      NothingUnique();
    } else {
      UniqueRest(ms);
      SplitUnique(ms[1..]);
      SplitNoKey(ms[1..], ms[0].key);
      UniqueFirst(ms[0], Indexed(ms[1..]));
      UniqueFirst(ms[0], Named(ms[1..]));
      assert [] + Indexed(ms[1..]) == Indexed(ms[1..]) && [] + Named(ms[1..]) == Named(ms[1..]);
    }
  }

  lemma NothingUnique()
    ensures UniqueKeys([])
  {}

  predicate AllAbove(ms: seq<Member>, r: nat) { forall i :: 0 <= i < |ms| ==> Rank(ms[i].key) > r }

  lemma {:induction false} InsertAbove(m: Member, ms: seq<Member>, r: nat)
    requires AllAbove(ms, r) && Rank(m.key) > r
    ensures AllAbove(InsertByRank(m, ms), r)
  {
    hide Rank;
    if ms != [] && Rank(m.key) > Rank(ms[0].key) { InsertAbove(m, ms[1..], r); }
  }

  predicate NoRank(ms: seq<Member>, r: nat) { forall i :: 0 <= i < |ms| ==> Rank(ms[i].key) != r }

  lemma {:induction false} InsertAscending(m: Member, ms: seq<Member>)
    requires Ascending(ms) && NoRank(ms, Rank(m.key))
    ensures Ascending(InsertByRank(m, ms))
  {
    hide Rank;
    if ms != [] && Rank(m.key) > Rank(ms[0].key) {
      InsertAscending(m, ms[1..]);
      InsertAbove(m, ms[1..], Rank(ms[0].key));
    }
  }

  lemma {:induction false} SortAscending(ms: seq<Member>)
    requires UniqueKeys(ms) && forall i :: 0 <= i < |ms| ==> IsArrayIndex(ms[i].key)
    ensures Ascending(SortByRank(ms))
    ensures forall i :: 0 <= i < |SortByRank(ms)| ==> IsArrayIndex(SortByRank(ms)[i].key)
  {
    hide IsArrayIndex, Rank;
    if ms != [] {
      SortAscending(ms[1..]);
      var t := SortByRank(ms[1..]);
      SortKeeps(ms[1..]);
      forall i | 0 <= i < |t| ensures Rank(t[i].key) != Rank(ms[0].key) {
        assert t[i] in multiset(t);
        assert t[i] in ms[1..];
        if Rank(t[i].key) == Rank(ms[0].key) { IndexInjective(t[i].key, ms[0].key); }
      }
      InsertAscending(ms[0], t);
      InsertKeeps(ms[0], t);
      var r := SortByRank(ms);
      forall i | 0 <= i < |r| ensures IsArrayIndex(r[i].key) {
        assert r[i] in multiset(r);
        assert r[i] == ms[0] || r[i] in t;
      }
    }
  }

  /** Enumeration lists the indices ascending, then the rest as inserted. */
  lemma EnumerateOrdered(ms: seq<Member>)
    requires UniqueKeys(ms)
    ensures InJsOrder(Enumerate(ms)) && UniqueKeys(Enumerate(ms))
    ensures Named(Enumerate(ms)) == Named(ms)
  {
    hide IsArrayIndex, Named, Indexed, SortByRank, Rank;
    SplitUnique(ms);
    SplitKinds(ms);
    var a, b := SortByRank(Indexed(ms)), Named(ms);
    SortAscending(Indexed(ms));
    forall i, j | 0 <= i < j < |a| ensures a[i].key != a[j].key {
      assert Rank(a[i].key) < Rank(a[j].key);
    }
    NamedConcat(a, b);
    NamedNone(a);
    NamedAll(b);
    assert [] + b == b;
  }

  lemma NamedConcat(a: seq<Member>, b: seq<Member>)
    ensures Named(a + b) == Named(a) + Named(b)
    ensures Indexed(a + b) == Indexed(a) + Indexed(b)
  {
    hide *;
    NamedAcross(a, b);
    IndexedAcross(a, b);
  }

  lemma {:induction false} NamedAcross(a: seq<Member>, b: seq<Member>)
    ensures Named(a + b) == Named(a) + Named(b)
  {
    hide IsArrayIndex;
    var ab := a + b;
    if a == [] {
      assert ab == b;
      assert Named(a) == [];
    } else {
      assert ab[1..] == a[1..] + b && ab[0] == a[0];
      NamedAcross(a[1..], b);
    }
  }

  lemma {:induction false} IndexedAcross(a: seq<Member>, b: seq<Member>)
    ensures Indexed(a + b) == Indexed(a) + Indexed(b)
  {
    hide IsArrayIndex;
    var ab := a + b;
    if a == [] {
      assert ab == b;
      assert Indexed(a) == [];
    } else {
      var first := if IsArrayIndex(a[0].key) then [a[0]] else [];
      assert ab[1..] == a[1..] + b && ab[0] == a[0];
      assert Indexed(ab) == first + Indexed(ab[1..]) && Indexed(a) == first + Indexed(a[1..]);
      IndexedAcross(a[1..], b);
      hide Indexed;
      assert first + (Indexed(a[1..]) + Indexed(b)) == first + Indexed(a[1..]) + Indexed(b);
    }
  }

  lemma {:induction false} NamedNone(a: seq<Member>)
    requires forall i :: 0 <= i < |a| ==> IsArrayIndex(a[i].key)
    ensures Named(a) == [] && Indexed(a) == a
  {
    if a != [] { NamedNone(a[1..]); }
  }

  lemma {:induction false} NamedAll(b: seq<Member>)
    requires forall i :: 0 <= i < |b| ==> !IsArrayIndex(b[i].key)
    ensures Named(b) == b && Indexed(b) == []
  {
    if b != [] { NamedAll(b[1..]); }
  }

  lemma {:induction false} SortSorted(ms: seq<Member>)
    requires Ascending(ms)
    ensures SortByRank(ms) == ms
  {
    if ms != [] {
      SortSorted(ms[1..]);
      assert ms == [ms[0]] + ms[1..];
    }
  }

  /** An object already in JavaScript order is enumerated as it stands. */
  lemma {:induction false} EnumerateFixed(ms: seq<Member>)
    requires InJsOrder(ms)
    ensures Enumerate(ms) == ms
  {
    hide IsArrayIndex, Named, Indexed, SortByRank;
    var n := Boundary(ms);
    var a, b := ms[..n], ms[n..];
    assert ms == a + b;
    NamedConcat(a, b);
    NamedNone(a);
    NamedAll(b);
    SortSorted(a);
    assert Indexed(ms) == a + [] == a && Named(ms) == [] + b == b;
  }

  lemma {:induction false} Boundary(ms: seq<Member>) returns (n: nat)
    requires InJsOrder(ms)
    ensures n <= |ms| && (forall i :: 0 <= i < n ==> IsArrayIndex(ms[i].key))
    ensures forall i :: n <= i < |ms| ==> !IsArrayIndex(ms[i].key)
  {
    n := 0;
    while n < |ms| && IsArrayIndex(ms[n].key)
      invariant n <= |ms| && forall i :: 0 <= i < n ==> IsArrayIndex(ms[i].key)
    {
      n := n + 1;
    }
  }
}
