/** The JSON value model every other module shares. */
module JsonValue {

  datatype Option<+T> = None | Some(value: T)

  // A Go string is a sequence of bytes, not of characters.
  type byte = b: int | 0 <= b < 256
  type Str = seq<byte>
  type digit = d: int | 0 <= d < 10

  /** A double, named by its shortest decimal form: Dec(neg, d1..dk, n) is
      d1..dk * 10^(n-k).  Zero carries its sign; an out-of-range literal is Inf. */
  datatype Num =
    | Zero(neg: bool)
    | Dec(neg: bool, digits: seq<digit>, point: int)
    | Inf(neg: bool)

  /** Canonical numbers have no leading and no trailing zero digit. */
  predicate Canonical(n: Num) {
    n.Dec? ==> |n.digits| > 0 && n.digits[0] != 0 && n.digits[|n.digits| - 1] != 0
  }

  function Natural(ds: seq<digit>): nat {
    if ds == [] then 0 else 10 * Natural(ds[..|ds| - 1]) + ds[|ds| - 1]
  }

  function Pow10(e: int): real
    decreases if e >= 0 then e else -e
  {
    if e == 0 then 1.0 else if e > 0 then 10.0 * Pow10(e - 1) else Pow10(e + 1) / 10.0
  }

  /** The real number a finite double denotes. */
  function Val(n: Num): real
    requires !n.Inf?
  {
    match n
    case Zero(_) => 0.0
    case Dec(neg, ds, p) =>
      var m := Natural(ds) as real * Pow10(p - |ds|);
      if neg then -m else m
  }

  datatype Json =
    | Null
    | Bool(b: bool)
    | Number(n: Num)
    | String(s: Str)
    | Array(elems: seq<Json>)
    | Object(members: seq<Member>)

  datatype Member = Member(key: Str, value: Json)

  predicate Primitive(v: Json) {
    !v.Array? && !v.Object?
  }

  /** The value at a key, or None. */
  function Find(ms: seq<Member>, key: Str): Option<Json> {
    if ms == [] then None else if ms[0].key == key then Some(ms[0].value) else Find(ms[1..], key)
  }

  /** Object.Set: replace in place, or append. */
  function Put(ms: seq<Member>, key: Str, value: Json): (r: seq<Member>)
    ensures Find(r, key) == Some(value)
    ensures forall k | k != key :: Find(r, k) == Find(ms, k)
  {
    if ms == [] then [Member(key, value)]
    else if ms[0].key == key then
      [Member(key, value)] + ms[1..]
    else [ms[0]] + Put(ms[1..], key, value)
  }

  predicate UniqueKeys(ms: seq<Member>) {
    forall i, j :: 0 <= i < j < |ms| ==> ms[i].key != ms[j].key
  }

  /** With unique keys every member is found under its own. */
  lemma {:induction false} FindIs(ms: seq<Member>, i: nat)
    requires i < |ms| && UniqueKeys(ms)
    ensures Find(ms, ms[i].key) == Some(ms[i].value)
  {
    if i > 0 { FindIs(ms[1..], i - 1); }
  }

  function Keys(ms: seq<Member>): seq<Str> { if ms == [] then [] else [ms[0].key] + Keys(ms[1..]) }

  /** Put keeps the order: a new key goes last, a known one keeps its place. */
  lemma {:induction false} PutPlaces(ms: seq<Member>, key: Str, value: Json)
    ensures key !in Keys(ms) ==> Put(ms, key, value) == ms + [Member(key, value)]
    ensures key in Keys(ms) ==> Keys(Put(ms, key, value)) == Keys(ms)
  {
    if ms != [] && ms[0].key != key { PutPlaces(ms[1..], key, value); }
  }
}
