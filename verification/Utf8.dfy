/** UTF-8 as Go's unicode/utf8 reads and writes it (RFC 3629 section 4). */
module Utf8 {
  import opened JsonValue

  const RUNE_ERROR := 0xFFFD
  const REPLACEMENT: Str := [0xEF, 0xBF, 0xBD]

  predicate IsSurrogate(r: int) { 0xD800 <= r <= 0xDFFF }
  predicate IsHigh(r: int) { 0xD800 <= r < 0xDC00 }
  predicate IsLow(r: int) { 0xDC00 <= r <= 0xDFFF }

  /** The code point of a surrogate pair. */
  function PairRune(h: int, l: int): int { 0x10000 + 0x400 * (h - 0xD800) + (l - 0xDC00) }

  predicate IsScalar(r: int) { 0 <= r <= 0x10FFFF && !IsSurrogate(r) }

  predicate Cont(b: byte) { 0x80 <= b <= 0xBF }

  // Bounds of the second byte, which rule out overlong forms, surrogates and
  // code points past U+10FFFF.
  predicate Second(lead: byte, b: byte) {
    && Cont(b)
    && (lead == 0xE0 ==> 0xA0 <= b)
    && (lead == 0xED ==> b <= 0x9F)
    && (lead == 0xF0 ==> 0x90 <= b)
    && (lead == 0xF4 ==> b <= 0x8F)
  }

  /** Bytes of the well-formed sequence s starts with; 0 when it starts with none. */
  function SeqLen(s: Str): (n: nat)
    ensures n <= |s| && n <= 4
  {
    if s == [] then 0
    else if s[0] < 0x80 then 1
    else if |s| < 2 || s[0] < 0xC2 || s[0] > 0xF4 || !Second(s[0], s[1]) then 0
    else if s[0] <= 0xDF then 2
    else if |s| < 3 || !Cont(s[2]) then 0
    else if s[0] <= 0xEF then 3
    else if |s| < 4 || !Cont(s[3]) then 0
    else 4
  }

  /** The code point of an n-byte sequence. */
  function Combine(s: Str, n: nat): int
    requires 1 <= n <= 4 && n <= |s|
  {
    var a: int := s[0];
    if n == 1 then a else
    var b: int := s[1];
    if n == 2 then 0x40 * (a - 0xC0) + (b - 0x80) else
    var c: int := s[2];
    if n == 3 then 0x1000 * (a - 0xE0) + 0x40 * (b - 0x80) + (c - 0x80) else
    var d: int := s[3];
    0x40000 * (a - 0xF0) + 0x1000 * (b - 0x80) + 0x40 * (c - 0x80) + (d - 0x80)
  }

  datatype Rune = Rune(r: int, size: nat)

  /** utf8.DecodeRune: an ill-formed byte is U+FFFD of width 1. */
  function DecodeRune(s: Str): (d: Rune)
    requires s != []
    ensures 1 <= d.size <= |s| && IsScalar(d.r)
  {
    var n := SeqLen(s);
    if n == 0 then Rune(RUNE_ERROR, 1) else Rune(Combine(s, n), n)
  }

  predicate Valid(s: Str) {
    s == [] || (SeqLen(s) > 0 && Valid(s[SeqLen(s)..]))
  }

  /** utf8.AppendRune: a surrogate or an out-of-range rune is written as U+FFFD. */
  function EncodeRune(r: int): (s: Str)
    ensures 1 <= |s| <= 4
  {
    if !IsScalar(r) then REPLACEMENT
    else if r < 0x80 then [r]
    else if r < 0x800 then [0xC0 + r / 0x40, 0x80 + r % 0x40]
    else if r < 0x10000 then [0xE0 + r / 0x1000, 0x80 + r / 0x40 % 0x40, 0x80 + r % 0x40]
    else [0xF0 + r / 0x40000, 0x80 + r / 0x1000 % 0x40, 0x80 + r / 0x40 % 0x40, 0x80 + r % 0x40]
  }

  lemma DecodeEncode(r: int, rest: Str)
    requires IsScalar(r)
    ensures SeqLen(EncodeRune(r) + rest) == |EncodeRune(r)|
    ensures DecodeRune(EncodeRune(r) + rest) == Rune(r, |EncodeRune(r)|)
  {
    var e := EncodeRune(r);
    var s := e + rest;
    assert forall i :: 0 <= i < |e| ==> s[i] == e[i];
    if r < 0x80 {
    } else if r < 0x800 {
      assert SeqLen(s) == 2;
    } else if r < 0x10000 {
      Digits3(r);
      assert Second(s[0], s[1]);
      assert SeqLen(s) == 3;
    } else {
      Digits4(r);
      assert Second(s[0], s[1]);
      assert SeqLen(s) == 4;
    }
  }

  lemma Digits3(r: int)
    requires 0x800 <= r < 0x10000
    ensures r == 0x1000 * (r / 0x1000) + 0x40 * (r / 0x40 % 0x40) + r % 0x40
    ensures r / 0x1000 == 0 ==> 0x20 <= r / 0x40 % 0x40
    ensures r / 0x1000 == 0xD && !IsSurrogate(r) ==> r / 0x40 % 0x40 < 0x20
  {
    assert r / 0x1000 == r / 0x40 / 0x40;
  }

  lemma Digits4(r: int)
    requires 0x10000 <= r <= 0x10FFFF
    ensures r == 0x40000 * (r / 0x40000) + 0x1000 * (r / 0x1000 % 0x40) + 0x40 * (r / 0x40 % 0x40) + r % 0x40
    ensures r / 0x40000 == 0 ==> 0x10 <= r / 0x1000 % 0x40
    ensures r / 0x40000 == 4 ==> r / 0x1000 % 0x40 < 0x10
    ensures 0 <= r / 0x40000 <= 4
  {
    assert r / 0x1000 == r / 0x40 / 0x40;
    assert r / 0x40000 == r / 0x1000 / 0x40;
  }

  lemma EncodeDecode(s: Str)
    requires SeqLen(s) > 0
    ensures EncodeRune(DecodeRune(s).r) == s[..SeqLen(s)]
  {
    hide Combine;
    match SeqLen(s)
    case 1 => OneByte(s);
    case 2 => TwoBytes(s);
    case 3 => ThreeBytes(s);
    case 4 => FourBytes(s);
  }

  lemma OneByte(s: Str)
    requires SeqLen(s) == 1
    ensures EncodeRune(Combine(s, 1)) == s[..1]
  {}

  lemma TwoBytes(s: Str)
    requires SeqLen(s) == 2
    ensures EncodeRune(Combine(s, 2)) == s[..2]
  {
    var a, b := s[0] as int - 0xC0, s[1] as int - 0x80;
    var r := 0x40 * a + b;
    assert r / 0x40 == a && r % 0x40 == b;
  }

  lemma ThreeBytes(s: Str)
    requires SeqLen(s) == 3
    ensures EncodeRune(Combine(s, 3)) == s[..3]
  {
    Unique3(s[0] as int - 0xE0, s[1] as int - 0x80, s[2] as int - 0x80);
  }

  lemma FourBytes(s: Str)
    requires SeqLen(s) == 4
    ensures EncodeRune(Combine(s, 4)) == s[..4]
  {
    Unique4(s[0] as int - 0xF0, s[1] as int - 0x80, s[2] as int - 0x80, s[3] as int - 0x80);
  }

  lemma Unique3(a: int, b: int, c: int)
    requires 0 <= a && 0 <= b < 0x40 && 0 <= c < 0x40
    ensures var r := 0x1000 * a + 0x40 * b + c;
      r / 0x1000 == a && r / 0x40 % 0x40 == b && r % 0x40 == c
  {
    var r := 0x1000 * a + 0x40 * b + c;
    assert r / 0x40 == 0x40 * a + b;
    assert r / 0x1000 == r / 0x40 / 0x40;
  }

  lemma Unique4(a: int, b: int, c: int, d: int)
    requires 0 <= a && 0 <= b < 0x40 && 0 <= c < 0x40 && 0 <= d < 0x40
    ensures var r := 0x40000 * a + 0x1000 * b + 0x40 * c + d;
      r / 0x40000 == a && r / 0x1000 % 0x40 == b && r / 0x40 % 0x40 == c && r % 0x40 == d
  {
    Unique3(0x40 * a + b, c, d);
  }

  /** Only the bytes of the sequence itself decide its length. */
  lemma SeqLenPrefix(s: Str, rest: Str)
    requires SeqLen(s) > 0
    ensures SeqLen(s + rest) == SeqLen(s)
    ensures SeqLen(s[..SeqLen(s)]) == SeqLen(s)
  {}

  lemma {:induction false} ValidConcat(a: Str, b: Str)
    requires Valid(a)
    ensures Valid(a + b) <==> Valid(b)
  {
    if a == [] {
      assert a + b == b;
    } else {
      var n := SeqLen(a);
      SeqLenPrefix(a, b);
      assert (a + b)[n..] == a[n..] + b;
      ValidConcat(a[n..], b);
    }
  }

  lemma {:induction false} AsciiValid(a: Str, b: Str)
    requires Valid(b) && forall i :: 0 <= i < |a| ==> a[i] < 0x80
    ensures Valid(a + b)
  {
    if a == [] {
      assert a + b == b;
    } else {
      assert (a + b)[1..] == a[1..] + b && (a + b)[0] == a[0];
      AsciiValid(a[1..], b);
      assert SeqLen(a + b) == 1;
    }
  }

  lemma ValidEncode(r: int)
    ensures Valid(EncodeRune(r))
  {
    var s := EncodeRune(r);
    if IsScalar(r) {
      DecodeEncode(r, []);
      assert s + [] == s;
    }
    assert SeqLen(s) == |s|;
    assert s[|s|..] == [];
  }
}
