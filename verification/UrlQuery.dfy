/** FormEncode and ParseQuery: a query string and the values it carries. */
module UrlQuery {
  import opened JsonValue
  import opened Utf8
  import opened UrlCodec
  import S = JsonString
  import T = Text
  import W = JsonWtf8

  const AMP: byte := 38
  const EQUALS: byte := 61
  const PLUS: byte := 43
  const SPACE: byte := 32
  const MAX_PAIRS := 1000

  datatype Pair = Pair(key: Str, value: Str)

  // ── writing ──────────

  predicate KeepForm(c: byte) { IsAlnum(c) || c == 42 || c == 45 || c == 46 || c == 95 }

  function FormByte(c: byte): Str { if c == SPACE then [PLUS] else EncodeByte(c, KeepForm) }

  function FormBytes(s: Str): Str { if s == [] then [] else FormByte(s[0]) + FormBytes(s[1..]) }

  function FormText(s: Str): Str { FormBytes(S.Repaired(s)) }

  function FormPair(p: Pair): Str { FormText(p.key) + [EQUALS] + FormText(p.value) }

  function FormParts(pairs: seq<Pair>): (parts: seq<Str>)
    ensures |parts| == |pairs| && forall i :: 0 <= i < |pairs| ==> parts[i] == FormPair(pairs[i])
  {
    if pairs == [] then [] else [FormPair(pairs[0])] + FormParts(pairs[1..])
  }

  /** FormEncode: URLSearchParams.toString. */
  function FormEncode(pairs: seq<Pair>): Str { T.Join(FormParts(pairs), AMP) }

  // ── reading ──────────

  /** Valid escapes decoded, everything else literal. */
  function LooseBytes(t: Str): Str {
    if t == [] then []
    else if IsEscape(t) then [EscapeValue(t)] + LooseBytes(t[3..])
    else [t[0]] + LooseBytes(t[1..])
  }

  /** unescapeLoose */
  function Loose(t: Str): Str {
    match Decode(t)
    case Some(v) => v
    case None => S.Repaired(LooseBytes(t))
  }

  function Spaced(t: Str): (u: Str)
    ensures |u| == |t| && forall i :: 0 <= i < |t| ==> u[i] == if t[i] == PLUS then SPACE else t[i]
  {
    if t == [] then [] else [if t[0] == PLUS then SPACE else t[0]] + Spaced(t[1..])
  }

  /** One part: key and value around the first '='. */
  function ReadPart(part: Str): Pair {
    var i := T.Index(part, EQUALS);
    Pair(Loose(Spaced(part[..i])), Loose(Spaced(if i < |part| then part[i + 1..] else [])))
  }

  function ReadParts(parts: seq<Str>): seq<Pair> {
    if parts == [] then []
    else (if parts[0] == [] then [] else [ReadPart(parts[0])]) + ReadParts(parts[1..])
  }

  function FirstPairs<A>(s: seq<A>): seq<A> { if |s| > MAX_PAIRS then s[..MAX_PAIRS] else s }

  /** Values by key, each key's in order. */
  function Group(pairs: seq<Pair>): map<Str, seq<Str>> {
    if pairs == [] then map[]
    else
      var front := Group(pairs[..|pairs| - 1]);
      var p := pairs[|pairs| - 1];
      front[p.key := (if p.key in front then front[p.key] else []) + [p.value]]
  }

  function ParseQuery(raw: Str): map<Str, seq<Str>> {
    if raw == [] then map[] else Group(ReadParts(FirstPairs(T.Split(raw, AMP))))
  }

  /** The values a key is given, in order. */
  function ValuesOf(pairs: seq<Pair>, key: Str): seq<Str> {
    if pairs == [] then []
    else ValuesOf(pairs[..|pairs| - 1], key) + if pairs[|pairs| - 1].key == key then [pairs[|pairs| - 1].value] else []
  }

  /** Grouping keeps every value, under its key and in order, and nothing else. */
  lemma {:induction false} GroupHolds(pairs: seq<Pair>, key: Str)
    ensures key in Group(pairs) <==> ValuesOf(pairs, key) != []
    ensures key in Group(pairs) ==> Group(pairs)[key] == ValuesOf(pairs, key)
    decreases |pairs|
  {
    if pairs != [] { GroupHolds(pairs[..|pairs| - 1], key); }
  }

  // ── a written text read back ──────────

  predicate Bare(c: byte) { c != AMP && c != EQUALS }

  lemma FormByteBare(c: byte)
    ensures forall i :: 0 <= i < |FormByte(c)| ==> Bare(FormByte(c)[i])
  {}

  lemma {:induction false} FormBare(s: Str)
    ensures forall i :: 0 <= i < |FormBytes(s)| ==> Bare(FormBytes(s)[i])
  {
    hide FormByte;
    if s != [] {
      FormByteBare(s[0]);
      FormBare(s[1..]);
    }
  }

  predicate KeepSpaced(c: byte) { c == SPACE || KeepForm(c) }

  lemma SpacedByte(c: byte)
    ensures Spaced(FormByte(c)) == EncodeByte(c, KeepSpaced)
  {
    hide Escaped;
    if c == SPACE {
      assert Spaced([PLUS]) == [SPACE];
    } else if KeepForm(c) {
      assert Spaced([c]) == [c];
    } else {
      EscapedNoPlus(c);
      assert Spaced(Escaped(c)) == Escaped(c);
    }
  }

  lemma EscapedNoPlus(c: byte)
    ensures forall i :: 0 <= i < 3 ==> Escaped(c)[i] != PLUS
  {}

  lemma {:induction false} SpacedForm(s: Str)
    ensures Spaced(FormBytes(s)) == Percent(s, KeepSpaced)
  {
    hide FormByte, EncodeByte, Spaced;
    if s == [] {
      NothingSpaced();
    } else {
      SpacedForm(s[1..]);
      SpacedByte(s[0]);
      SpacedThen(FormByte(s[0]), FormBytes(s[1..]));
    }
  }

  lemma NothingSpaced()
    ensures Spaced([]) == []
  {}

  lemma SpacedThen(a: Str, b: Str)
    ensures Spaced(a + b) == Spaced(a) + Spaced(b)
  {
    hide Spaced;
  }

  /** Decoding undoes escaping, whatever follows. */
  lemma {:induction false} LooseBack(s: Str, keep: byte -> bool, rest: Str)
    requires KeepOk(keep)
    ensures LooseBytes(Percent(s, keep) + rest) == s + LooseBytes(rest)
  {
    hide Escaped, IsEscape, LooseBytes;
    if s == [] {
      assert Percent(s, keep) + rest == rest;
    } else {
      var more := Percent(s[1..], keep) + rest;
      LooseBack(s[1..], keep, rest);
      LooseByte(s[0], keep, more);
      assert Percent(s, keep) + rest == EncodeByte(s[0], keep) + more;
      assert [s[0]] + (s[1..] + LooseBytes(rest)) == s + LooseBytes(rest);
    }
  }

  lemma LooseByte(c: byte, keep: byte -> bool, rest: Str)
    requires KeepOk(keep)
    ensures LooseBytes(EncodeByte(c, keep) + rest) == [c] + LooseBytes(rest)
  {
    hide Escaped, EscapeValue;
    if keep(c) {
      PlainFirst([c] + rest);
      assert ([c] + rest)[1..] == rest;
    } else {
      EscapeBack(c, rest);
    }
  }

  lemma NothingLoose(v: Str, t: Str)
    ensures LooseBytes([]) == [] && v + [] == v && t + [] == t
  {}

  lemma PlainFirst(t: Str)
    requires t != [] && t[0] != PERCENT
    ensures !IsEscape(t)
  {}

  lemma SpacedKeepOk()
    ensures KeepOk(KeepSpaced)
  {}

  /** Any text comes back as its valid form: the loose path covers what strict decoding refuses. */
  lemma TextBack(s: Str)
    ensures Loose(Spaced(FormText(s))) == S.Repaired(s)
  {
    hide Decode, LooseBytes, Percent, FormBytes, Spaced, Clean;
    var v := S.Repaired(s);
    W.RepairedValid(s);
    SpacedKeepOk();
    SpacedForm(v);
    PercentReads(v, KeepSpaced);
    LooseBack(v, KeepSpaced, []);
    NothingLoose(v, Percent(v, KeepSpaced));
  }

  function Mended(p: Pair): Pair { Pair(S.Repaired(p.key), S.Repaired(p.value)) }

  lemma PairBack(p: Pair)
    ensures FormPair(p) != [] && AMP !in FormPair(p) && ReadPart(FormPair(p)) == Mended(p)
  {
    hide Loose, Spaced, FormBytes, S.Repaired;
    var k, v := FormText(p.key), FormText(p.value);
    FormBare(S.Repaired(p.key));
    FormBare(S.Repaired(p.value));
    T.IndexIs(k, EQUALS, v);
    var part := FormPair(p);
    assert part[..|k|] == k && part[|k| + 1..] == v;
    TextBack(p.key);
    TextBack(p.value);
  }

  function MendedAll(pairs: seq<Pair>): (r: seq<Pair>)
    ensures |r| == |pairs| && forall i :: 0 <= i < |pairs| ==> r[i] == Mended(pairs[i])
  {
    if pairs == [] then [] else [Mended(pairs[0])] + MendedAll(pairs[1..])
  }

  lemma {:induction false} PartsBack(pairs: seq<Pair>)
    ensures ReadParts(FormParts(pairs)) == MendedAll(pairs)
  {
    hide ReadPart, FormPair;
    if pairs != [] {
      PairBack(pairs[0]);
      PartsBack(pairs[1..]);
      assert FormParts(pairs)[1..] == FormParts(pairs[1..]);
    }
  }

  /** MAIN: parsing an encoded form gives back its first thousand pairs grouped by key in
      order, each text in its valid form. */
  lemma ParseEncoded(pairs: seq<Pair>)
    ensures ParseQuery(FormEncode(pairs)) == Group(MendedAll(FirstPairs(pairs)))
  {
    hide FormPair, ReadPart, Group, Mended;
    if pairs == [] {
      assert FormEncode(pairs) == [];
      NothingGrouped();
    } else {
      var parts := FormParts(pairs);
      forall p | p in parts ensures AMP !in p && p != [] {
        var i :| 0 <= i < |parts| && parts[i] == p;
        PairBack(pairs[i]);
      }
      T.SplitJoin(parts, AMP);
      assert parts[0] in parts;
      assert FormEncode(pairs) != [];
      FirstParts(pairs);
      PartsBack(FirstPairs(pairs));
    }
  }

  lemma NothingGrouped()
    ensures Group([]) == map[] && MendedAll([]) == []
  {}

  lemma FirstParts(pairs: seq<Pair>)
    ensures FirstPairs(FormParts(pairs)) == FormParts(FirstPairs(pairs))
  {}

  // ── the loop ──────────

  lemma GroupMore(pairs: seq<Pair>, p: Pair)
    ensures var front := Group(pairs);
      Group(pairs + [p]) == front[p.key := (if p.key in front then front[p.key] else []) + [p.value]]
  {
    assert (pairs + [p])[..|pairs|] == pairs;
  }

  lemma ReadMore(parts: seq<Str>, i: nat)
    requires i < |parts|
    ensures ReadParts(parts[i..]) == (if parts[i] == [] then [] else [ReadPart(parts[i])]) + ReadParts(parts[i + 1..])
  {
    hide ReadPart;
    assert parts[i..][0] == parts[i] && parts[i..][1..] == parts[i + 1..];
  }

  lemma Shift(read: seq<Pair>, p: Pair, rest: seq<Pair>)
    ensures read + ([p] + rest) == read + [p] + rest
  {}

  lemma Nothing(read: seq<Pair>, rest: seq<Pair>)
    ensures read + ([] + rest) == read + rest && read + [] == read
  {}

  lemma NothingRead(parts: seq<Str>)
    ensures Group([]) == map[] && ReadParts(parts[|parts|..]) == [] && ReadParts(parts) == [] + ReadParts(parts[0..])
  {
    assert parts[0..] == parts;
  }

  /** ParseQuery as it runs: a map filled part by part. */
  method ParseQueryLoop(raw: Str) returns (out: map<Str, seq<Str>>)
    ensures out == ParseQuery(raw)
  {
    out := map[];
    if raw == [] { return; }
    var parts := FirstPairs(T.Split(raw, AMP));
    ghost var read: seq<Pair> := [];
    NothingRead(parts);
    hide ReadPart, ReadParts, Group;
    for i := 0 to |parts|
      invariant out == Group(read) && ReadParts(parts) == read + ReadParts(parts[i..])
    {
      var part := parts[i];
      ghost var rest := ReadParts(parts[i + 1..]);
      ReadMore(parts, i);
      if part != [] {
        var p := ReadPart(part);
        out := out[p.key := (if p.key in out then out[p.key] else []) + [p.value]];
        GroupMore(read, p);
        Shift(read, p, rest);
        read := read + [p];
      } else {
        Nothing(read, rest);
      }
    }
    Nothing(read, []);
  }
}
