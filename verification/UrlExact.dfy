/** Exactly which bytes the URL encoders write, and exactly which texts decode. */
module UrlExact {
  import opened JsonValue
  import opened Utf8
  import opened UrlCodec
  import opened UrlEncode
  import opened UrlQuery
  import S = JsonString
  import T = Text
  import W = JsonWtf8

  // ── hexadecimal ──────────

  const UPPER: Str := [48, 49, 50, 51, 52, 53, 54, 55, 56, 57, 65, 66, 67, 68, 69, 70]
  const LOWER: Str := [48, 49, 50, 51, 52, 53, 54, 55, 56, 57, 97, 98, 99, 100, 101, 102]

  /** The hex digits, in both cases, and their values. */
  lemma HexTable(c: byte)
    ensures IsHex(c) <==> c in UPPER || c in LOWER
    ensures forall n :: 0 <= n < 16 && (c == UPPER[n] || c == LOWER[n]) ==> Unhex(c) == n
    ensures forall n :: 0 <= n < 16 ==> UpperHex(n) == UPPER[n]
  {
    if IsHex(c) { assert UPPER[Unhex(c)] == c || LOWER[Unhex(c)] == c; }
  }

  // ── the sets ──────────

  // A-Z, a-z and 0-9.
  predicate Alnum(c: byte) { 0x41 <= c <= 0x5A || 0x61 <= c <= 0x7A || 0x30 <= c <= 0x39 }

  // Alphanumerics and - _ . ! ~ * ' ( ).
  predicate Unreserved(c: byte) { Alnum(c) || c in {0x2D, 0x5F, 0x2E, 0x21, 0x7E, 0x2A, 0x27, 0x28, 0x29} }

  // Those and ; , / ? : @ & = + $ #.
  predicate UriPlain(c: byte) {
    Unreserved(c) || c in {0x3B, 0x2C, 0x2F, 0x3F, 0x3A, 0x40, 0x26, 0x3D, 0x2B, 0x24, 0x23}
  }

  // Alphanumerics and * - . _.
  predicate FormPlain(c: byte) { Alnum(c) || c in {0x2A, 0x2D, 0x2E, 0x5F} }

  // Printable ASCII but for space " < > ` { }; the percent sign is treated apart.
  predicate UrlPlain(c: byte) { 0x21 <= c <= 0x7E && c !in {0x22, 0x3C, 0x3E, 0x60, 0x7B, 0x7D} }

  lemma SetsAre(c: byte)
    ensures KeepComponent(c) <==> Unreserved(c)
    ensures KeepUri(c) <==> UriPlain(c)
    ensures KeepForm(c) <==> FormPlain(c)
    ensures Allowed(c) <==> UrlPlain(c)
  {}

  /** Plain bytes, and escapes of two upper-case hex digits. */
  predicate Wellformed(t: Str, plain: byte -> bool)
    decreases |t|
  {
    || t == []
    || (t[0] != PERCENT && plain(t[0]) && Wellformed(t[1..], plain))
    || (|t| >= 3 && t[0] == PERCENT && t[1] in UPPER && t[2] in UPPER && Wellformed(t[3..], plain))
  }

  lemma {:induction false} WellformedThen(a: Str, b: Str, plain: byte -> bool)
    requires Wellformed(a, plain) && Wellformed(b, plain)
    ensures Wellformed(a + b, plain)
    decreases |a|
  {
    if a == [] {
      assert a + b == b;
    } else if a[0] != PERCENT {
      assert (a + b)[1..] == a[1..] + b;
      WellformedThen(a[1..], b, plain);
    } else {
      assert (a + b)[3..] == a[3..] + b;
      WellformedThen(a[3..], b, plain);
    }
  }

  lemma ByteWellformed(c: byte, keep: byte -> bool, plain: byte -> bool)
    requires keep(c) ==> plain(c) && c != PERCENT
    ensures Wellformed(EncodeByte(c, keep), plain)
  {
    var t := EncodeByte(c, keep);
    if keep(c) {
      assert t[1..] == [];
    } else {
      HexTable(t[1]);
      HexTable(t[2]);
      assert t[3..] == [];
    }
  }

  lemma {:induction false} PercentWellformed(s: Str, keep: byte -> bool, plain: byte -> bool)
    requires forall c: byte :: keep(c) ==> plain(c) && c != PERCENT
    ensures Wellformed(Percent(s, keep), plain)
  {
    hide EncodeByte, Wellformed;
    if s == [] {
      NoBytes(plain);
    } else {
      PercentWellformed(s[1..], keep, plain);
      ByteWellformed(s[0], keep, plain);
      WellformedThen(EncodeByte(s[0], keep), Percent(s[1..], keep), plain);
    }
  }

  lemma NoBytes(plain: byte -> bool)
    ensures Wellformed([], plain)
  {}

  lemma {:induction false} PercentPlain(s: Str, keep: byte -> bool)
    requires forall i :: 0 <= i < |s| ==> keep(s[i])
    ensures Percent(s, keep) == s
  {
    if s != [] {
      PercentPlain(s[1..], keep);
      assert s == [s[0]] + s[1..];
    }
  }

  // ── what is written ──────────

  /** MAIN: encodeURIComponent writes unreserved bytes and upper-case escapes, and leaves
      a text of unreserved bytes as it is. */
  lemma ComponentWritten(s: Str)
    ensures Wellformed(EncodeURIComponent(s), Unreserved)
    ensures (forall i :: 0 <= i < |s| ==> Unreserved(s[i])) ==> EncodeURIComponent(s) == s
  {
    hide S.Repaired;
    forall c: byte ensures KeepComponent(c) <==> Unreserved(c) { SetsAre(c); }
    PercentWellformed(S.Repaired(s), KeepComponent, Unreserved);
    if forall i :: 0 <= i < |s| ==> Unreserved(s[i]) {
      AsciiKept(s);
      PercentPlain(s, KeepComponent);
    }
  }

  // / ? : @ & = + $ , ; # and space.
  predicate Reserved(c: byte) { c in {0x2F, 0x3F, 0x3A, 0x40, 0x26, 0x3D, 0x2B, 0x24, 0x2C, 0x3B, 0x23, 0x20} }

  lemma Apart(c: byte)
    ensures Unreserved(c) || c == PERCENT || c in UPPER ==> !Reserved(c)
  {}

  /** So no reserved character is in it. */
  lemma {:induction false} NoneReserved(t: Str)
    requires Wellformed(t, Unreserved)
    ensures forall i :: 0 <= i < |t| ==> !Reserved(t[i])
    decreases |t|
  {
    hide Unreserved, Reserved, UPPER;
    if t != [] {
      var n := if t[0] == PERCENT then 3 else 1;
      NoneReserved(t[n..]);
      forall i | 0 <= i < |t| ensures !Reserved(t[i]) {
        Apart(t[i]);
        if i >= n { assert t[i] == t[n..][i - n]; }
      }
    }
  }

  lemma AsciiKept(s: Str)
    requires forall i :: 0 <= i < |s| ==> s[i] < 0x80
    ensures S.Repaired(s) == s
  {
    AsciiValid(s, []);
    assert s + [] == s;
  }

  // A form writes a plus for a space.
  predicate FormByteOk(c: byte) { FormPlain(c) || c == 0x2B }

  /** A form's texts are alphanumerics, * - . _, a plus for each space, and upper-case
      escapes for the rest. */
  lemma FormWritten(s: Str)
    ensures Wellformed(FormText(s), FormByteOk)
    ensures (forall i :: 0 <= i < |s| ==> FormPlain(s[i])) ==> FormText(s) == s
    ensures FormText([0x20]) == [0x2B]
  {
    hide S.Repaired, Wellformed;
    FormWellformed(S.Repaired(s));
    if forall i :: 0 <= i < |s| ==> FormPlain(s[i]) {
      AsciiKept(s);
      FormIsPlain(s);
    }
    AsciiKept([0x20]);
    assert FormBytes([0x20]) == [PLUS] + [];
  }

  lemma {:induction false} FormWellformed(s: Str)
    ensures Wellformed(FormBytes(s), FormByteOk)
  {
    hide Wellformed;
    if s == [] {
      NoBytes(FormByteOk);
    } else {
      FormWellformed(s[1..]);
      SetsAre(s[0]);
      if s[0] == SPACE { PlusWellformed(); } else { ByteWellformed(s[0], KeepForm, FormByteOk); }
      WellformedThen(FormByte(s[0]), FormBytes(s[1..]), FormByteOk);
    }
  }

  lemma PlusWellformed()
    ensures Wellformed([PLUS], FormByteOk)
  {
    assert [PLUS][1..] == [];
  }

  lemma {:induction false} FormIsPlain(s: Str)
    requires forall i :: 0 <= i < |s| ==> FormPlain(s[i])
    ensures FormBytes(s) == s
  {
    if s != [] {
      SetsAre(s[0]);
      FormIsPlain(s[1..]);
      assert s == [s[0]] + s[1..];
    }
  }

  // What a Location may hold in one byte: a percent sign may also be a stray one.
  predicate UrlByteOk(c: byte) { UrlPlain(c) || c == PERCENT }

  /** EncodeURL writes printable ASCII only, never space " < > ` { or }. */
  lemma {:induction false} UrlWritten(t: Str)
    requires Settled(t)
    ensures forall i :: 0 <= i < |t| ==> UrlByteOk(t[i])
    decreases |t|
  {
    if t != [] {
      var n := if IsEscape(t) then 3 else if t[0] != PERCENT then 1 else 2;
      if n < 3 { SetsAre(t[0]); }
      if n > 1 { HexPlain(t[1]); }
      if n > 2 { HexPlain(t[2]); }
      if n < |t| { UrlWritten(t[n..]); }
      forall i | 0 <= i < |t| ensures UrlByteOk(t[i]) {
        if i >= n { assert t[i] == t[n..][i - n]; }
      }
    }
  }

  lemma HexPlain(c: byte)
    requires IsHex(c)
    ensures UrlPlain(c)
  {}

  /** What a character the URL cannot carry becomes, and what a bad percent sign and the
      character it takes along become. */
  lemma PieceWritten(t: Str)
    requires t != [] && !IsEscape(t) && NextPiece(t).taken > 1
    ensures var p := NextPiece(t);
      p.out == Percent(t[..p.taken], KeepUri) && Wellformed(p.out, UriPlain)
  {
    hide DecodeRune, Wellformed;
    forall c: byte ensures KeepUri(c) <==> UriPlain(c) { SetsAre(c); }
    PercentWellformed(t[..NextPiece(t).taken], KeepUri, UriPlain);
  }

  /** A text of such bytes after its percent sign keeps them: only the sign is escaped. */
  lemma BadPercentWritten(c: byte)
    requires UriPlain(c)
    ensures Percent([PERCENT, c], KeepUri) == [PERCENT, 0x32, 0x35, c]
  {
    var t: Str := [PERCENT, c];
    SetsAre(c);
    SetsAre(PERCENT);
    assert t[1..] == [c] && [c][1..] == [];
    assert Percent([c], KeepUri) == [c] + [];
    assert Escaped(PERCENT) == [PERCENT, 0x32, 0x35];
  }

  // ── which texts decode ──────────

  /** A byte that is no percent sign, or the escapes of a code point other than U+FFFD. */
  datatype Piece = Literal(c: byte) | Coded(r: int, text: Str)

  predicate PieceOk(p: Piece) {
    match p
    case Literal(c) => c != PERCENT
    case Coded(r, text) =>
      var bytes := EncodeRune(r);
      && IsScalar(r) && r != 0xFFFD && |text| == 3 * |bytes|
      && forall i :: 0 <= i < |bytes| ==> IsEscape(text[3 * i..]) && EscapeValue(text[3 * i..]) == bytes[i]
  }

  function PieceText(p: Piece): Str { if p.Literal? then [p.c] else p.text }
  function PieceOut(p: Piece): Str { if p.Literal? then [p.c] else EncodeRune(p.r) }

  predicate PiecesOk(ps: seq<Piece>) { forall i :: 0 <= i < |ps| ==> PieceOk(ps[i]) }

  function PiecesText(ps: seq<Piece>): Str { if ps == [] then [] else PieceText(ps[0]) + PiecesText(ps[1..]) }
  function PiecesOut(ps: seq<Piece>): Str { if ps == [] then [] else PieceOut(ps[0]) + PiecesOut(ps[1..]) }

  lemma EscapeFirst(text: Str, rest: Str)
    requires IsEscape(text)
    ensures IsEscape(text + rest) && EscapeValue(text + rest) == EscapeValue(text)
    ensures (text + rest)[3..] == text[3..] + rest
  {
    var t := text + rest;
    assert t[0] == text[0] && t[1] == text[1] && t[2] == text[2];
  }

  // Escapes that spell these bytes.
  predicate SpellsBytes(text: Str, bytes: Str) {
    && |text| == 3 * |bytes|
    && forall i :: 0 <= i < |bytes| ==> IsEscape(text[3 * i..]) && EscapeValue(text[3 * i..]) == bytes[i]
  }

  lemma SpellsRest(text: Str, bytes: Str)
    requires SpellsBytes(text, bytes) && bytes != []
    ensures IsEscape(text) && EscapeValue(text) == bytes[0] && SpellsBytes(text[3..], bytes[1..])
  {
    assert text[3 * 0..] == text;
    forall i | 0 <= i < |bytes| - 1
      ensures IsEscape(text[3..][3 * i..]) && EscapeValue(text[3..][3 * i..]) == bytes[1..][i]
    {
      assert text[3..][3 * i..] == text[3 * (i + 1)..];
    }
  }

  lemma {:induction false} TailRead(text: Str, bytes: Str, rest: Str)
    requires SpellsBytes(text, bytes) && forall i :: 0 <= i < |bytes| ==> Cont(bytes[i])
    ensures ReadTail(text + rest, |bytes|) == Some(bytes)
    decreases |bytes|
  {
    hide EscapeValue, IsEscape, SpellsBytes;
    if bytes != [] {
      SpellsRest(text, bytes);
      EscapeFirst(text, rest);
      TailRead(text[3..], bytes[1..], rest);
      assert bytes == [bytes[0]] + bytes[1..];
    }
  }

  lemma RuneShape(r: int)
    requires IsScalar(r)
    ensures var b := EncodeRune(r);
      && SeqLen(b) == |b| && DecodeRune(b) == Rune(r, |b|)
      && (|b| == 1 <==> b[0] < 0x80) && (|b| > 1 ==> LeadLen(b[0]) == |b|)
      && forall i :: 0 <= i < |b| - 1 ==> Cont(b[1..][i])
  {
    DecodeEncode(r, []);
    assert EncodeRune(r) + [] == EncodeRune(r);
    if SeqLen(EncodeRune(r)) > 1 { ContTail(EncodeRune(r)); }
  }

  lemma CodedRead(p: Piece, rest: Str)
    requires p.Coded? && PieceOk(p)
    ensures ReadUnit(p.text + rest) == Unit(EncodeRune(p.r), |p.text|) && p.text != []
  {
    hide EncodeRune, EscapeValue, IsEscape, DecodeRune, SpellsBytes, LeadLen;
    var b := EncodeRune(p.r);
    RuneShape(p.r);
    assert SpellsBytes(p.text, b) by { Spelling(p); }
    SpellsRest(p.text, b);
    EscapeFirst(p.text, rest);
    EscapeStarts(p.text + rest);
    TailRead(p.text[3..], b[1..], rest);
    assert b == [b[0]] + b[1..];
  }

  lemma EscapeStarts(t: Str)
    requires IsEscape(t)
    ensures t != [] && t[0] == PERCENT
  {}

  lemma Spelling(p: Piece)
    requires p.Coded? && PieceOk(p)
    ensures SpellsBytes(p.text, EncodeRune(p.r))
  {}

  lemma {:induction false} PiecesDecode(ps: seq<Piece>)
    requires PiecesOk(ps)
    ensures Decode(PiecesText(ps)) == Some(PiecesOut(ps))
    decreases |ps|
  {
    hide ReadUnit, EncodeRune;
    if ps != [] {
      var more := PiecesText(ps[1..]);
      PiecesDecode(ps[1..]);
      assert PieceOk(ps[0]);
      if ps[0].Coded? { CodedRead(ps[0], more); } else { LiteralRead(ps[0].c, more); }
      var t := PieceText(ps[0]) + more;
      assert t[|PieceText(ps[0])|..] == more;
    }
  }

  lemma LiteralRead(c: byte, more: Str)
    requires c != PERCENT
    ensures ReadUnit([c] + more) == Unit([c], 1)
  {}

  lemma {:induction false} TailFrom(t: Str, k: nat)
    requires ReadTail(t, k).Some?
    ensures SpellsBytes(t[..3 * k], ReadTail(t, k).value) && forall i :: 0 <= i < k ==> Cont(ReadTail(t, k).value[i])
    decreases k
  {
    if k > 0 {
      TailRest(t, k);
      hide ReadTail, SpellsBytes, IsEscape, Cont;
      TailFrom(t[3..], k - 1);
      SpellsMore(t, k - 1, ReadTail(t[3..], k - 1).value);
    } else {
      NoTail(t);
    }
  }

  lemma NoTail(t: Str)
    ensures ReadTail(t, 0) == Some([]) && SpellsBytes(t[..0], [])
  {}

  lemma TailRest(t: Str, k: nat)
    requires k > 0 && ReadTail(t, k).Some?
    ensures 3 * k <= |t| && IsEscape(t) && Cont(EscapeValue(t)) && ReadTail(t[3..], k - 1).Some?
    ensures ReadTail(t, k).value == [EscapeValue(t)] + ReadTail(t[3..], k - 1).value
    ensures |ReadTail(t[3..], k - 1).value| == k - 1
  {}

  lemma SpellsMore(t: Str, k: nat, bytes: Str)
    requires IsEscape(t) && 3 * (k + 1) <= |t| && SpellsBytes(t[3..][..3 * k], bytes)
    ensures SpellsBytes(t[..3 * (k + 1)], [EscapeValue(t)] + bytes)
  {
    var text := t[..3 * (k + 1)];
    forall i | 0 <= i < k + 1
      ensures IsEscape(text[3 * i..]) && EscapeValue(text[3 * i..]) == ([EscapeValue(t)] + bytes)[i]
    {
      if i > 0 {
        var u := t[3..][..3 * k];
        assert u == t[3..3 * (k + 1)] && text[3 * i..] == t[3 * i..3 * (k + 1)];
        assert u[3 * (i - 1)..] == t[3 * i..3 * (k + 1)];
      }
    }
  }

  lemma UnitFrom(t: Str) returns (p: Piece)
    requires t != [] && ReadUnit(t).Unit?
    ensures PieceOk(p) && PieceText(p) == t[..ReadUnit(t).taken] && PieceOut(p) == ReadUnit(t).out
  {
    if t[0] != PERCENT {
      p := Literal(t[0]);
    } else {
      var b := EscapeValue(t);
      var n := if b < 0x80 then 1 else LeadLen(b);
      var tail := if b < 0x80 then [] else ReadTail(t[3..], n - 1).value;
      var bytes := [b] + tail;
      if b >= 0x80 { TailFrom(t[3..], n - 1); } else { assert t[3..][..0] == []; }
      SpellsMore(t, n - 1, tail);
      var d := DecodeRune(bytes);
      UnitRune(bytes, n);
      p := Coded(d.r, t[..3 * n]);
      hide IsEscape, EscapeValue, DecodeRune, EncodeRune;
    }
  }

  lemma UnitRune(bytes: Str, n: nat)
    requires |bytes| == n > 0
    requires (n == 1 && bytes[0] < 0x80) || (DecodeRune(bytes).r != RUNE_ERROR && DecodeRune(bytes).size == n)
    ensures EncodeRune(DecodeRune(bytes).r) == bytes && DecodeRune(bytes).r != 0xFFFD
  {
    if n == 1 && bytes[0] < 0x80 { assert SeqLen(bytes) == 1; }
    EncodeDecode(bytes);
    assert bytes[..n] == bytes;
  }

  lemma {:induction false} PiecesFrom(t: Str) returns (ps: seq<Piece>)
    requires Decode(t).Some?
    ensures PiecesOk(ps) && t == PiecesText(ps) && Decode(t) == Some(PiecesOut(ps))
    decreases |t|
  {
    hide ReadUnit, PieceOk;
    if t == [] {
      ps := [];
    } else {
      var n := ReadUnit(t).taken;
      var p := UnitFrom(t);
      var more := PiecesFrom(t[n..]);
      ps := [p] + more;
      assert ps[1..] == more && t == t[..n] + t[n..];
    }
  }

  /** MAIN: decodeURIComponent decodes exactly the texts made of bytes other than % and of
      whole escaped code points other than U+FFFD, each to itself. */
  lemma DecodeIff(t: Str, v: Str)
    ensures Decode(t) == Some(v) <==> exists ps :: PiecesOk(ps) && t == PiecesText(ps) && v == PiecesOut(ps)
  {
    hide Decode, PiecesOk, PiecesText, PiecesOut;
    if Decode(t) == Some(v) { var ps := PiecesFrom(t); }
    if ps :| PiecesOk(ps) && t == PiecesText(ps) && v == PiecesOut(ps) { PiecesDecode(ps); }
  }

  // ── queries ──────────

  /** One part of a query: the name ends at the first =, a part without one has no value. */
  lemma PartReads(name: Str, value: Str)
    requires EQUALS !in name
    ensures ReadPart(name + [EQUALS] + value) == Pair(Loose(Spaced(name)), Loose(Spaced(value)))
    ensures ReadPart(name) == Pair(Loose(Spaced(name)), [])
  {
    hide Loose, Spaced;
    T.IndexIs(name, EQUALS, value);
    T.IndexIs(name, EQUALS, []);
    var part := name + [EQUALS] + value;
    assert part[..|name|] == name && part[|name| + 1..] == value && name[..|name|] == name;
    assert Spaced([]) == [] by { NothingSpaced(); }
    NoText();
  }

  lemma NothingSpaced()
    ensures Spaced([]) == []
  {}

  lemma NoText()
    ensures Loose([]) == []
  {}

  /** A query's parts stand between ampersands; those without a byte are skipped, and of
      more than a thousand the rest are. */
  lemma QueryReads(parts: seq<Str>)
    requires parts != [] && T.Join(parts, AMP) != [] && forall p :: p in parts ==> AMP !in p
    ensures ParseQuery(T.Join(parts, AMP))
      == Group(ReadParts(if |parts| <= 1000 then parts else parts[..1000]))
  {
    hide Group, ReadParts;
    T.SplitJoin(parts, AMP);
  }

  /** Reading goes part by part. */
  lemma {:induction false} PartsAre(a: seq<Str>, b: seq<Str>)
    ensures ReadParts(a + b) == ReadParts(a) + ReadParts(b)
  {
    hide ReadPart;
    if a == [] {
      assert a + b == b;
    } else {
      assert (a + b)[0] == a[0] && (a + b)[1..] == a[1..] + b;
      PartsAre(a[1..], b);
    }
  }

  /** An empty part gives nothing, any other one pair. */
  lemma PartIs(p: Str)
    ensures ReadParts([p]) == if p == [] then [] else [ReadPart(p)]
  {
    hide ReadPart;
    assert [p][1..] == [];
  }
}
