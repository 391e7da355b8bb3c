/** JavaScript string order, length and slices over UTF-8 strings. */
module Utf16 {
  import opened JsonValue
  import opened Utf8

  /** The UTF-16 code units of a code point. */
  function UnitsOf(r: int): (u: seq<Unit>)
    requires IsScalar(r)
    ensures |u| == if r >= 0x10000 then 2 else 1
  {
    if r >= 0x10000 then [0xD800 + (r - 0x10000) / 0x400, 0xDC00 + (r - 0x10000) % 0x400] else [r]
  }

  /** utf16.Encode([]rune(s)); an ill-formed byte is U+FFFD. */
  function Units(s: Str): seq<Unit>
    decreases |s|
  {
    if s == [] then [] else UnitsOf(DecodeRune(s).r) + Units(s[DecodeRune(s).size..])
  }

  /** Lexicographic order, shorter first. */
  function Lex(a: seq<Unit>, b: seq<Unit>): int {
    if a == [] then (if b == [] then 0 else -1)
    else if b == [] then 1
    else if a[0] < b[0] then -1
    else if a[0] > b[0] then 1
    else Lex(a[1..], b[1..])
  }

  function FirstUnit(r: int): int
    requires IsScalar(r)
  {
    UnitsOf(r)[0]
  }

  // ── comparing ──────────

  lemma PairBack(r: int)
    requires 0x10000 <= r <= 0x10FFFF
    ensures var u := UnitsOf(r);
      IsHigh(u[0]) && IsLow(u[1]) && r == PairRune(u[0], u[1])
  {}

  lemma LexFirst(a: seq<Unit>, b: seq<Unit>, x: seq<Unit>, y: seq<Unit>)
    requires a != [] && b != [] && a[0] != b[0]
    ensures Lex(a + x, b + y) == if a[0] < b[0] then -1 else 1
  {}

  lemma LexSecond(a: seq<Unit>, b: seq<Unit>, x: seq<Unit>, y: seq<Unit>)
    requires |a| == |b| == 2 && a[0] == b[0] && a[1] != b[1]
    ensures Lex(a + x, b + y) == if a[1] < b[1] then -1 else 1
  {
    assert (a + x)[1..] == [a[1]] + x && (b + y)[1..] == [b[1]] + y;
  }

  lemma {:induction false} LexSame(a: seq<Unit>, x: seq<Unit>, y: seq<Unit>)
    ensures Lex(a + x, a + y) == Lex(x, y)
  {
    if a == [] {
      assert a + x == x && a + y == y;
    } else {
      assert (a + x)[1..] == a[1..] + x && (a + y)[1..] == a[1..] + y;
      LexSame(a[1..], x, y);
    }
  }

  /** Different code points order as their units do, by the first unit that differs. */
  lemma RuneOrder(ra: int, rb: int, x: seq<Unit>, y: seq<Unit>)
    requires IsScalar(ra) && IsScalar(rb) && ra != rb
    ensures Lex(UnitsOf(ra) + x, UnitsOf(rb) + y) ==
      if FirstUnit(ra) != FirstUnit(rb) then (if FirstUnit(ra) < FirstUnit(rb) then -1 else 1)
      else if ra < rb then -1 else 1
  {
    var a, b := UnitsOf(ra), UnitsOf(rb);
    if a[0] != b[0] {
      LexFirst(a, b, x, y);
    } else {
      if ra >= 0x10000 { PairBack(ra); }
      if rb >= 0x10000 { PairBack(rb); }
      LexSecond(a, b, x, y);
    }
  }

  /** MAIN: Compare walks code points, and still decides the order of the UTF-16
      encodings. */
  method Compare(a0: Str, b0: Str) returns (c: int)
    ensures c == Lex(Units(a0), Units(b0))
  {
    hide UnitsOf, DecodeRune, Lex;
    var a, b := a0, b0;
    while a != [] && b != []
      invariant Lex(Units(a), Units(b)) == Lex(Units(a0), Units(b0))
      decreases |a|
    {
      var da, db := DecodeRune(a), DecodeRune(b);
      if da.r != db.r {
        RuneOrder(da.r, db.r, Units(a[da.size..]), Units(b[db.size..]));
        var ua, ub := FirstUnit(da.r), FirstUnit(db.r);
        if ua != ub { return if ua < ub then -1 else 1; }
        return if da.r < db.r then -1 else 1;
      }
      LexSame(UnitsOf(da.r), Units(a[da.size..]), Units(b[db.size..]));
      a, b := a[da.size..], b[db.size..];
    }
    UnitsEmpty(a);
    UnitsEmpty(b);
    LexEnds(Units(a), Units(b));
    c := if a == [] && b == [] then 0 else if a == [] then -1 else 1;
  }

  lemma UnitsEmpty(s: Str)
    ensures Units(s) == [] <==> s == []
  {}

  lemma LexEnds(x: seq<Unit>, y: seq<Unit>)
    requires x == [] || y == []
    ensures Lex(x, y) == if x == [] && y == [] then 0 else if x == [] then -1 else 1
  {}

  // ── the order is total ──────────

  lemma {:induction false} LexZero(a: seq<Unit>, b: seq<Unit>)
    ensures Lex(a, b) == 0 <==> a == b
    ensures Lex(a, b) == -Lex(b, a)
  {
    if a != [] && b != [] && a[0] == b[0] {
      LexZero(a[1..], b[1..]);
      assert a == [a[0]] + a[1..] && b == [b[0]] + b[1..];
    }
  }

  lemma {:induction false} LexTransitive(a: seq<Unit>, b: seq<Unit>, c: seq<Unit>)
    requires Lex(a, b) <= 0 && Lex(b, c) <= 0
    ensures Lex(a, c) <= 0
  {
    if a != [] && b != [] && c != [] && a[0] == b[0] == c[0] {
      LexTransitive(a[1..], b[1..], c[1..]);
    }
  }

  lemma UnitsOfInjective(ra: int, rb: int, x: seq<Unit>, y: seq<Unit>)
    requires IsScalar(ra) && IsScalar(rb) && UnitsOf(ra) + x == UnitsOf(rb) + y
    ensures ra == rb && x == y
  {
    var a, b := UnitsOf(ra), UnitsOf(rb);
    assert (a + x)[0] == a[0] && (b + y)[0] == b[0];
    if ra >= 0x10000 { PairBack(ra); assert (a + x)[1] == a[1]; }
    if rb >= 0x10000 { PairBack(rb); assert (b + y)[1] == b[1]; }
    assert |a| == |b|;
    assert (a + x)[|a|..] == x && (b + y)[|b|..] == y;
  }

  /** On valid UTF-8 the units determine the string, so Compare is 0 only for equal
      strings. */
  lemma {:induction false} UnitsInjective(a: Str, b: Str)
    requires Valid(a) && Valid(b) && Units(a) == Units(b)
    ensures a == b
    decreases |a|
  {
    hide DecodeRune, EncodeRune, UnitsOf, Valid;
    UnitsEmpty(a);
    UnitsEmpty(b);
    if a != [] {
      var da, db := DecodeRune(a), DecodeRune(b);
      UnitsOfInjective(da.r, db.r, Units(a[da.size..]), Units(b[db.size..]));
      ValidStep(a);
      ValidStep(b);
      UnitsInjective(a[da.size..], b[db.size..]);
      assert a == a[..da.size] + a[da.size..] && b == b[..db.size] + b[db.size..];
    }
  }

  /** MAIN: Compare is a total order on valid strings. */
  lemma TotalOrder(a: Str, b: Str, c: Str)
    requires Valid(a) && Valid(b) && Valid(c)
    ensures Lex(Units(a), Units(b)) == 0 <==> a == b
    ensures Lex(Units(a), Units(b)) == -Lex(Units(b), Units(a))
    ensures Lex(Units(a), Units(b)) <= 0 && Lex(Units(b), Units(c)) <= 0 ==> Lex(Units(a), Units(c)) <= 0
  {
    LexZero(Units(a), Units(b));
    if Units(a) == Units(b) { UnitsInjective(a, b); }
    if Lex(Units(a), Units(b)) <= 0 && Lex(Units(b), Units(c)) <= 0 { LexTransitive(Units(a), Units(b), Units(c)); }
  }

  // ── length and slices ──────────

  method Utf16Len(s: Str) returns (n: nat)
    ensures n == |Units(s)|
  {
    n := 0;
    var t := s;
    while t != []
      invariant n + |Units(t)| == |Units(s)|
      decreases |t|
    {
      var d := DecodeRune(t);
      n := n + if d.r >= 0x10000 then 2 else 1;
      t := t[d.size..];
    }
  }

  /** utf16.Decode then UTF-8: a pair is one code point, a lone surrogate U+FFFD. */
  function FromUnits(u: seq<Unit>): Str {
    if u == [] then []
    else if IsHigh(u[0]) && |u| > 1 && IsLow(u[1]) then
      EncodeRune(PairRune(u[0], u[1])) + FromUnits(u[2..])
    else EncodeRune(u[0]) + FromUnits(u[1..])
  }

  /** s.slice(start, end) with out-of-range bounds clamped. */
  function Slice(s: Str, start: int, end: int): Str {
    if start <= 0 && |s| <= end && Valid(s) then s
    else
      var u := Units(s);
      var lo := if start < 0 then 0 else start;
      var hi := if end > |u| then |u| else end;
      if lo >= hi then [] else FromUnits(u[lo..hi])
  }

  lemma RuneSize(s: Str)
    requires s != []
    ensures |UnitsOf(DecodeRune(s).r)| <= DecodeRune(s).size
  {}

  lemma {:induction false} UnitsAtMost(s: Str)
    ensures |Units(s)| <= |s|
    decreases |s|
  {
    hide DecodeRune;
    if s != [] {
      RuneSize(s);
      UnitsAtMost(s[DecodeRune(s).size..]);
    }
  }

  lemma FromRune(r: int, u: seq<Unit>)
    requires IsScalar(r)
    ensures FromUnits(UnitsOf(r) + u) == EncodeRune(r) + FromUnits(u)
  {
    if r >= 0x10000 {
      PairBack(r);
      assert (UnitsOf(r) + u)[2..] == u;
    } else {
      assert (UnitsOf(r) + u)[1..] == u;
    }
  }

  lemma ValidStep(s: Str)
    requires Valid(s) && s != []
    ensures var d := DecodeRune(s); EncodeRune(d.r) == s[..d.size] && Valid(s[d.size..])
  {
    EncodeDecode(s);
  }

  /** Encoding to units and back is the identity on valid strings. */
  lemma {:induction false} UnitsBack(s: Str)
    requires Valid(s)
    ensures FromUnits(Units(s)) == s
    decreases |s|
  {
    hide DecodeRune, EncodeRune, UnitsOf, FromUnits, Valid;
    if s == [] {
      NoUnits();
    } else {
      var d := DecodeRune(s);
      FromRune(d.r, Units(s[d.size..]));
      ValidStep(s);
      UnitsBack(s[d.size..]);
      assert s == s[..d.size] + s[d.size..];
    }
  }

  lemma NoUnits()
    ensures FromUnits([]) == [] && Units([]) == []
  {}

  /** The shortcut for a whole valid string gives what the slow path would. */
  lemma SliceShortcut(s: Str, start: int, end: int)
    requires start <= 0 && |s| <= end && Valid(s)
    ensures |Units(s)| <= end && Slice(s, start, end) == FromUnits(Units(s))
  {
    UnitsAtMost(s);
    UnitsBack(s);
  }

  // A UTF-16 code unit.
  type Unit = u: int | 0 <= u < 0x10000

  /** Lone surrogates as U+FFFD, pairs and everything else kept. */
  function Mended(u: seq<Unit>): seq<Unit> {
    if u == [] then []
    else if IsHigh(u[0]) && |u| > 1 && IsLow(u[1]) then u[..2] + Mended(u[2..])
    else [if IsScalar(u[0]) then u[0] else RUNE_ERROR] + Mended(u[1..])
  }

  lemma {:induction false} UnitsPrefix(r: int, t: Str)
    requires IsScalar(r)
    ensures Units(EncodeRune(r) + t) == UnitsOf(r) + Units(t)
  {
    DecodeEncode(r, t);
    assert (EncodeRune(r) + t)[|EncodeRune(r)|..] == t;
  }

  lemma {:induction false} FromUnitsMends(u: seq<Unit>)
    ensures Units(FromUnits(u)) == Mended(u) && Valid(FromUnits(u))
  {
    hide EncodeRune, Units, UnitsOf, Valid;
    if u == [] {
      EmptyValid();
    } else if IsHigh(u[0]) && |u| > 1 && IsLow(u[1]) {
      var r := PairRune(u[0], u[1]);
      FromUnitsMends(u[2..]);
      PairUnits(u[0], u[1]);
      UnitsPrefix(r, FromUnits(u[2..]));
      ValidEncode(r);
      ValidConcat(EncodeRune(r), FromUnits(u[2..]));
    } else {
      FromUnitsMends(u[1..]);
      OneRune(u[0]);
      UnitsPrefix(if IsScalar(u[0]) then u[0] else RUNE_ERROR, FromUnits(u[1..]));
      ValidEncode(u[0]);
      ValidConcat(EncodeRune(u[0]), FromUnits(u[1..]));
    }
  }

  lemma EmptyValid()
    ensures Units([]) == [] && Valid([])
  {}

  lemma PairUnits(h: int, l: int)
    requires IsHigh(h) && IsLow(l)
    ensures var r := PairRune(h, l); IsScalar(r) && UnitsOf(r) == [h, l]
  {}

  lemma OneRune(r: int)
    requires r < 0x10000
    ensures var m := if IsScalar(r) then r else RUNE_ERROR; EncodeRune(r) == EncodeRune(m) && UnitsOf(m) == [m]
  {}

  function Clamp(n: int, top: nat): nat { if n < 0 then 0 else if n > top then top else n }

  /** The units from start up to end, both brought into range; none when they cross. */
  function Window(u: seq<Unit>, start: int, end: int): seq<Unit> {
    var lo, hi := Clamp(start, |u|), Clamp(end, |u|);
    if lo < hi then u[lo..hi] else []
  }

  /** MAIN: a slice, whatever its bounds, is valid UTF-8 and holds exactly the units asked
      for, a surrogate the cut separates from its partner having become U+FFFD. */
  lemma SliceHolds(s: Str, start: int, end: int)
    ensures Units(Slice(s, start, end)) == Mended(Window(Units(s), start, end))
    ensures Valid(Slice(s, start, end))
  {
    var u := Units(s);
    FromUnitsMends(Window(u, start, end));
    EmptyValid();
    if start <= 0 && |s| <= end && Valid(s) {
      SliceShortcut(s, start, end);
      UnitsAtMost(s);
      assert Window(u, start, end) == u;
    }
  }
}
