/** String literals by the grammar of RFC 8259 section 7: which texts they are, and which
    UTF-16 code units they denote (section 8.2). */
module JsonChars {
  import opened JsonValue
  import opened Utf8
  import opened JsonString
  import X = Utf16

  /** char: an unescaped code point, a two-character escape, or \u and four hex digits. */
  datatype Char = Plain(r: int) | Short(b: byte) | Hex(h: Str)

  predicate CharOk(c: Char) {
    match c
    case Plain(r) => IsScalar(r) && r >= 0x20 && r != 0x22 && r != 0x5C
    case Short(b) => b in {0x22, 0x5C, 0x2F, 0x62, 0x66, 0x6E, 0x72, 0x74}
    case Hex(h) => |h| == 4 && forall i :: 0 <= i < 4 ==> HexVal(h[i]) >= 0
  }

  function CharText(c: Char): Str {
    match c
    case Plain(r) => EncodeRune(r)
    case Short(b) => [BACKSLASH, b]
    case Hex(h) => [BACKSLASH, U] + h
  }

  // The control character a letter names.
  function Named(b: byte): byte {
    if b == 0x62 then 0x08 else if b == 0x66 then 0x0C else if b == 0x6E then 0x0A
    else if b == 0x72 then 0x0D else if b == 0x74 then 0x09 else b
  }

  function CharUnits(c: Char): (us: seq<X.Unit>)
    requires CharOk(c)
    ensures |us| == if c.Plain? && c.r >= 0x10000 then 2 else 1
  {
    match c
    case Plain(r) => X.UnitsOf(r)
    case Short(b) => [Named(b)]
    case Hex(h) => [4096 * HexVal(h[0]) + 256 * HexVal(h[1]) + 16 * HexVal(h[2]) + HexVal(h[3])]
  }

  predicate CharsOk(cs: seq<Char>) { forall i :: 0 <= i < |cs| ==> CharOk(cs[i]) }

  function CharsText(cs: seq<Char>): Str { if cs == [] then [] else CharText(cs[0]) + CharsText(cs[1..]) }

  function CharsUnits(cs: seq<Char>): seq<X.Unit>
    requires CharsOk(cs)
  {
    if cs == [] then [] else CharUnits(cs[0]) + CharsUnits(cs[1..])
  }

  /** How a string of code units is held: pairs as their code point, a surrogate without its
      partner as itself in generalized UTF-8 or, lossily, as U+FFFD. */
  function FromUnits(u: seq<X.Unit>, lossless: bool): Str {
    if u == [] then []
    else if IsHigh(u[0]) && |u| > 1 && IsLow(u[1]) then
      EncodeRune(PairRune(u[0], u[1])) + FromUnits(u[2..], lossless)
    else (if lossless && IsSurrogate(u[0]) then Triple(u[0]) else EncodeRune(u[0])) + FromUnits(u[1..], lossless)
  }

  lemma {:induction false} LossyUnits(u: seq<X.Unit>)
    ensures FromUnits(u, false) == X.FromUnits(u)
  {
    hide EncodeRune;
    if u != [] {
      if IsHigh(u[0]) && |u| > 1 && IsLow(u[1]) { LossyUnits(u[2..]); } else { LossyUnits(u[1..]); }
    }
  }

  // ── every literal is read ──────────

  lemma ScalarUnits(r: int, us: seq<X.Unit>, lossless: bool)
    requires IsScalar(r)
    ensures FromUnits(X.UnitsOf(r) + us, lossless) == EncodeRune(r) + FromUnits(us, lossless)
  {
    hide EncodeRune;
    if r >= 0x10000 {
      X.PairBack(r);
      assert (X.UnitsOf(r) + us)[2..] == us;
    } else {
      assert (X.UnitsOf(r) + us)[1..] == us;
    }
  }

  lemma PlainBytes(r: int)
    requires CharOk(Plain(r))
    ensures var e := EncodeRune(r); forall i :: 0 <= i < |e| ==> e[i] != QUOTE && e[i] != BACKSLASH && e[i] >= 0x20
  {}

  lemma StepMeans(t: Str, out: Str, rest: Str, lossless: bool)
    requires StepOf(t, lossless) == Emit(out, rest)
    ensures Unescape(t, lossless) == Prefixed(out, Unescape(rest, lossless))
  {
    hide StepOf;
  }

  function Prefixed(out: Str, u: Text): Text {
    match u case NoText => NoText case Text(s, rest) => Text(out + s, rest)
  }

  lemma ShortStep(b: byte, rest: Str, lossless: bool)
    requires CharOk(Short(b))
    ensures StepOf([BACKSLASH, b] + rest, lossless) == Emit(EncodeRune(Named(b)), rest)
    ensures FromUnits([Named(b)], lossless) == EncodeRune(Named(b)) + []
  {
    assert ([BACKSLASH, b] + rest)[2..] == rest;
  }

  lemma HexValue(h: Str, rest: Str)
    requires CharOk(Hex(h))
    ensures Hex4(h + rest) == CharUnits(Hex(h))[0]
  {
    var t := h + rest;
    assert t[0] == h[0] && t[1] == h[1] && t[2] == h[2] && t[3] == h[3];
  }

  /** A low surrogate's escape comes next exactly when the next unit is one: nothing else
      gives such a unit. */
  lemma LowNext(cs: seq<Char>, rest: Str)
    requires CharsOk(cs)
    ensures LowEscape(CharsText(cs) + [QUOTE] + rest) <==> cs != [] && cs[0].Hex? && IsLow(CharUnits(cs[0])[0])
    ensures CharsUnits(cs) != [] && IsLow(CharsUnits(cs)[0]) <==> cs != [] && cs[0].Hex? && IsLow(CharUnits(cs[0])[0])
  {
    var t := CharsText(cs) + [QUOTE] + rest;
    if cs == [] {
      assert t[0] == QUOTE;
    } else {
      var tail := CharsText(cs[1..]) + [QUOTE] + rest;
      assert t == CharText(cs[0]) + tail;
      assert CharsUnits(cs)[0] == CharUnits(cs[0])[0];
      FirstChar(cs[0], tail);
    }
  }

  lemma FirstChar(c: Char, tail: Str)
    requires CharOk(c)
    ensures LowEscape(CharText(c) + tail) <==> c.Hex? && IsLow(CharUnits(c)[0])
    ensures !c.Hex? ==> !IsLow(CharUnits(c)[0])
  {
    var t := CharText(c) + tail;
    match c
    case Plain(r) =>
      PlainBytes(r);
      assert t[0] == EncodeRune(r)[0];
      if r >= 0x10000 { X.PairBack(r); }
    case Short(b) => assert t[1] == b;
    case Hex(h) =>
      HexValue(h, tail);
      assert t[2..] == h + tail;
  }

  lemma HexStep(h: Str, tail: Str, lossless: bool)
    requires CharOk(Hex(h))
    ensures var t := [BACKSLASH, U] + h + tail;
            var r := CharUnits(Hex(h))[0];
      && t[6..] == tail
      && StepOf(t, lossless) ==
           if !IsSurrogate(r) then Emit(EncodeRune(r), tail)
           else if IsHigh(r) && LowEscape(tail) then Emit(EncodeRune(PairRune(r, Hex4(tail[2..]))), tail[6..])
           else if lossless then Emit(Triple(r), tail)
           else Emit(EncodeRune(RUNE_ERROR), tail)
  {
    hide Hex4, EncodeRune, Triple;
    var t := [BACKSLASH, U] + h + tail;
    assert t[2..] == h + tail && t[6..] == tail && t[1] == U;
    assert LowEscape(tail) ==> t[8..] == tail[2..] && t[12..] == tail[6..];
    HexValue(h, tail);
  }

  /** Unescaping a literal's text gives its code units. */
  lemma {:induction false} CharsRead(cs: seq<Char>, rest: Str, lossless: bool)
    requires CharsOk(cs)
    ensures Unescape(CharsText(cs) + [QUOTE] + rest, lossless) == Text(FromUnits(CharsUnits(cs), lossless), rest)
    decreases |cs|
  {
    hide StepOf, Unescape, EncodeRune, FromUnits, CharOk;
    if cs == [] {
      NothingLeft(rest, lossless);
    } else {
      var tail := CharsText(cs[1..]) + [QUOTE] + rest;
      TextStep(cs, rest);
      if !cs[0].Hex? {
        CharsRead(cs[1..], rest, lossless);
        PlainRead(cs[0], CharsUnits(cs[1..]), tail, rest, lossless);
      } else if LowPair(cs) {
        CharsRead(cs[2..], rest, lossless);
        PairRead(cs, rest, lossless);
      } else {
        CharsRead(cs[1..], rest, lossless);
        LoneRead(cs, rest, lossless);
      }
    }
  }

  lemma NothingLeft(rest: Str, lossless: bool)
    ensures Unescape([] + [QUOTE] + rest, lossless) == Text([], rest) && FromUnits([], lossless) == []
  {
    assert ([] + [QUOTE] + rest)[1..] == rest;
  }

  predicate LowPair(cs: seq<Char>)
    requires CharsOk(cs)
  {
    && |cs| > 1 && cs[0].Hex? && cs[1].Hex?
    && IsHigh(CharUnits(cs[0])[0]) && IsLow(CharUnits(cs[1])[0])
  }

  lemma PlainRead(c: Char, us: seq<X.Unit>, tail: Str, rest: Str, lossless: bool)
    requires CharOk(c) && !c.Hex? && Unescape(tail, lossless) == Text(FromUnits(us, lossless), rest)
    ensures Unescape(CharText(c) + tail, lossless) == Text(FromUnits(CharUnits(c) + us, lossless), rest)
  {
    hide StepOf, Unescape, EncodeRune, FromUnits;
    match c
    case Plain(r) =>
      PlainBytes(r);
      PlainUnescape(EncodeRune(r), tail, lossless);
      ScalarUnits(r, us, lossless);
    case Short(b) =>
      ShortStep(b, tail, lossless);
      StepMeans([BACKSLASH, b] + tail, EncodeRune(Named(b)), tail, lossless);
      ScalarUnits(Named(b), us, lossless);
      assert X.UnitsOf(Named(b)) == [Named(b)];
  }

  lemma PairUnits(h: X.Unit, l: X.Unit, us: seq<X.Unit>, lossless: bool)
    requires IsHigh(h) && IsLow(l)
    ensures FromUnits([h] + ([l] + us), lossless) == EncodeRune(PairRune(h, l)) + FromUnits(us, lossless)
  {
    assert ([h] + ([l] + us))[2..] == us;
  }

  lemma TwoEscapes(cs: seq<Char>, rest: Str)
    requires CharsOk(cs) && LowPair(cs)
    ensures var more := CharsText(cs[2..]) + [QUOTE] + rest;
            var tail := CharsText(cs[1..]) + [QUOTE] + rest;
      && CharsText(cs) + [QUOTE] + rest == [BACKSLASH, U] + cs[0].h + tail
      && tail == [BACKSLASH, U] + cs[1].h + more && tail[6..] == more && tail[2..] == cs[1].h + more
      && CharsUnits(cs) == CharUnits(cs[0]) + (CharUnits(cs[1]) + CharsUnits(cs[2..]))
  {
    hide CharUnits;
    assert cs[1..][0] == cs[1] && cs[1..][1..] == cs[2..];
    TextStep(cs, rest);
    TextStep(cs[1..], rest);
    AfterHex(cs[1].h, CharsText(cs[2..]) + [QUOTE] + rest);
  }

  lemma TextStep(cs: seq<Char>, rest: Str)
    requires cs != []
    ensures CharsText(cs) + [QUOTE] + rest == CharText(cs[0]) + (CharsText(cs[1..]) + [QUOTE] + rest)
  {
    hide CharText;
    assert CharsText(cs) == CharText(cs[0]) + CharsText(cs[1..]);
    hide CharsText;
    var a, b := CharText(cs[0]), CharsText(cs[1..]);
    assert a + b + [QUOTE] + rest == a + (b + [QUOTE] + rest);
  }

  lemma AfterHex(h: Str, more: Str)
    requires |h| == 4
    ensures ([BACKSLASH, U] + h + more)[6..] == more && ([BACKSLASH, U] + h + more)[2..] == h + more
  {}

  lemma PairRead(cs: seq<Char>, rest: Str, lossless: bool)
    requires CharsOk(cs) && LowPair(cs)
    requires Unescape(CharsText(cs[2..]) + [QUOTE] + rest, lossless)
      == Text(FromUnits(CharsUnits(cs[2..]), lossless), rest)
    ensures Unescape(CharsText(cs) + [QUOTE] + rest, lossless) == Text(FromUnits(CharsUnits(cs), lossless), rest)
  {
    TwoEscapes(cs, rest);
    hide StepOf, Unescape, EncodeRune, FromUnits, Hex4, CharUnits, CharsText, CharsUnits;
    var h, l := CharUnits(cs[0])[0], CharUnits(cs[1])[0];
    var more := CharsText(cs[2..]) + [QUOTE] + rest;
    var tail := CharsText(cs[1..]) + [QUOTE] + rest;
    LowNext(cs[1..], rest);
    HexStep(cs[0].h, tail, lossless);
    HexValue(cs[1].h, more);
    var t := [BACKSLASH, U] + cs[0].h + tail;
    assert CharUnits(cs[0]) == [h] && CharUnits(cs[1]) == [l];
    StepMeans(t, EncodeRune(PairRune(h, l)), more, lossless);
    PairUnits(h, l, CharsUnits(cs[2..]), lossless);
  }

  lemma LoneUnits(r: X.Unit, us: seq<X.Unit>, lossless: bool)
    requires !(IsHigh(r) && us != [] && IsLow(us[0]))
    ensures FromUnits([r] + us, lossless)
      == (if lossless && IsSurrogate(r) then Triple(r) else EncodeRune(r)) + FromUnits(us, lossless)
    ensures IsSurrogate(r) ==> EncodeRune(r) == EncodeRune(RUNE_ERROR)
  {
    assert ([r] + us)[1..] == us;
  }

  lemma LoneRead(cs: seq<Char>, rest: Str, lossless: bool)
    requires CharsOk(cs) && cs != [] && cs[0].Hex? && !LowPair(cs)
    requires Unescape(CharsText(cs[1..]) + [QUOTE] + rest, lossless)
      == Text(FromUnits(CharsUnits(cs[1..]), lossless), rest)
    ensures Unescape(CharsText(cs) + [QUOTE] + rest, lossless) == Text(FromUnits(CharsUnits(cs), lossless), rest)
  {
    hide StepOf, Unescape, EncodeRune, FromUnits, Hex4, CharUnits, Triple;
    var r := CharUnits(cs[0])[0];
    var tail := CharsText(cs[1..]) + [QUOTE] + rest;
    LowNext(cs[1..], rest);
    HexStep(cs[0].h, tail, lossless);
    var t := [BACKSLASH, U] + cs[0].h + tail;
    TextStep(cs, rest);
    assert CharUnits(cs[0]) == [r];
    LoneUnits(r, CharsUnits(cs[1..]), lossless);
    var out := if lossless && IsSurrogate(r) then Triple(r) else EncodeRune(r);
    StepMeans(t, out, tail, lossless);
  }

  // ── whatever is read is a literal ──────────

  lemma {:induction false} ValidAscii(t: Str, n: nat)
    requires Valid(t) && n <= |t| && forall i :: 0 <= i < n ==> t[i] < 0x80
    ensures Valid(t[n..])
  {
    if n == 0 {
      assert t[0..] == t;
    } else {
      assert SeqLen(t) == 1;
      ValidAscii(t[1..], n - 1);
      assert t[1..][n - 1..] == t[n..];
    }
  }

  lemma CharsCons(c: Char, cs: seq<Char>, rest: Str)
    requires CharOk(c) && CharsOk(cs)
    ensures CharsOk([c] + cs)
    ensures CharsText([c] + cs) + [QUOTE] + rest == CharText(c) + (CharsText(cs) + [QUOTE] + rest)
  {
    assert ([c] + cs)[1..] == cs;
  }

  /** Every text the string loop reads, if it is UTF-8, is a literal. */
  lemma {:induction false} CharsFrom(t: Str, lossless: bool) returns (cs: seq<Char>)
    requires Valid(t) && Unescape(t, lossless).Text?
    ensures CharsOk(cs) && t == CharsText(cs) + [QUOTE] + Unescape(t, lossless).rest
    ensures Valid(Unescape(t, lossless).rest)
    decreases |t|, 1
  {
    ReadStarts(t, lossless);
    hide Valid, StepOf, Unescape, CharOk;
    if t[0] == QUOTE {
      cs := [];
      ValidAscii(t, 1);
      assert t == [QUOTE] + t[1..];
    } else if t[0] != BACKSLASH {
      cs := PlainsFrom(t, lossless);
    } else if t[1] != U {
      cs := ShortsFrom(t, lossless);
    } else {
      cs := EscapesFrom(t, lossless);
    }
  }

  lemma {:induction false} PlainsFrom(t: Str, lossless: bool) returns (cs: seq<Char>)
    requires Valid(t) && Unescape(t, lossless).Text? && t != [] && t[0] >= 0x20 && t[0] != QUOTE && t[0] != BACKSLASH
    ensures CharsOk(cs) && t == CharsText(cs) + [QUOTE] + Unescape(t, lossless).rest
    ensures Valid(Unescape(t, lossless).rest)
    decreases |t|, 0
  {
    hide Valid, CharOk, StepOf, Unescape, EncodeRune, CharsText;
    var r := PlainFrom(t);
    var n := |EncodeRune(r)|;
    PlainRest(t, n, lossless);
    var more := CharsFrom(t[n..], lossless);
    cs := [Plain(r)] + more;
    CharsCons(Plain(r), more, Unescape(t, lossless).rest);
  }

  lemma {:induction false} ShortsFrom(t: Str, lossless: bool) returns (cs: seq<Char>)
    requires Valid(t) && Unescape(t, lossless).Text? && |t| >= 2 && t[0] == BACKSLASH && t[1] != U
    requires StepOf(t, lossless).Emit?
    ensures CharsOk(cs) && t == CharsText(cs) + [QUOTE] + Unescape(t, lossless).rest
    ensures Valid(Unescape(t, lossless).rest)
    decreases |t|, 0
  {
    ShortOk(t, lossless);
    hide Valid, CharOk, StepOf, Unescape, CharsText;
    ValidAscii(t, 2);
    var more := CharsFrom(t[2..], lossless);
    cs := [Short(t[1])] + more;
    CharsCons(Short(t[1]), more, Unescape(t, lossless).rest);
  }

  lemma ShortOk(t: Str, lossless: bool)
    requires |t| >= 2 && t[0] == BACKSLASH && t[1] != U && StepOf(t, lossless).Emit?
    ensures CharOk(Short(t[1])) && t == CharText(Short(t[1])) + t[2..]
    ensures Unescape(t, lossless).Text? ==>
      Unescape(t[2..], lossless).Text? && Unescape(t[2..], lossless).rest == Unescape(t, lossless).rest
  {
    hide Unescape;
    var out := StepOf(t, lossless).out;
    StepMeans(t, out, t[2..], lossless);
  }

  lemma ReadStarts(t: Str, lossless: bool)
    requires Unescape(t, lossless).Text?
    ensures t != [] && (t[0] == QUOTE || t[0] >= 0x20)
    ensures t[0] == QUOTE ==> Unescape(t, lossless) == Text([], t[1..])
    ensures t[0] == BACKSLASH ==> |t| > 1 && StepOf(t, lossless).Emit?
  {}

  lemma PlainRest(t: Str, n: nat, lossless: bool)
    requires n <= |t| && forall i :: 0 <= i < n ==> t[i] != QUOTE && t[i] != BACKSLASH && t[i] >= 0x20
    ensures t == t[..n] + t[n..]
    ensures Unescape(t, lossless).Text? ==>
      Unescape(t[n..], lossless).Text? && Unescape(t[n..], lossless).rest == Unescape(t, lossless).rest
  {
    hide Unescape;
    PlainUnescape(t[..n], t[n..], lossless);
    assert t[..n] + t[n..] == t;
  }

  lemma PlainFrom(t: Str) returns (r: int)
    requires Valid(t) && t != [] && t[0] >= 0x20 && t[0] != QUOTE && t[0] != BACKSLASH
    ensures CharOk(Plain(r)) && |EncodeRune(r)| <= |t| && t[..|EncodeRune(r)|] == EncodeRune(r)
    ensures Valid(t[|EncodeRune(r)|..])
    ensures forall i :: 0 <= i < |EncodeRune(r)| ==> t[i] != QUOTE && t[i] != BACKSLASH && t[i] >= 0x20
  {
    r := DecodeRune(t).r;
    EncodeDecode(t);
    assert r >= 0x20 && r != 0x22 && r != 0x5C by { RuneRange(t); }
    PlainBytes(r);
  }

  lemma RuneRange(t: Str)
    requires SeqLen(t) > 0
    ensures if t[0] < 0x80 then DecodeRune(t).r == t[0] as int else DecodeRune(t).r >= 0x80
  {}

  lemma HexFrom(t: Str)
    requires UnicodeEscape(t) && Valid(t)
    ensures CharOk(Hex(t[2..6])) && t == CharText(Hex(t[2..6])) + t[6..] && Valid(t[6..])
  {
    assert forall i :: 0 <= i < 4 ==> t[2..6][i] == t[2..][i];
    assert t[0] < 0x80 && t[1] < 0x80 && t[2] < 0x80 && t[3] < 0x80 && t[4] < 0x80 && t[5] < 0x80 by {
      assert t[2..][0] == t[2] && t[2..][1] == t[3] && t[2..][2] == t[4] && t[2..][3] == t[5];
    }
    ValidAscii(t, 6);
  }

  lemma {:induction false} EscapesFrom(t: Str, lossless: bool) returns (cs: seq<Char>)
    requires Valid(t) && Unescape(t, lossless).Text? && |t| >= 2 && t[0] == BACKSLASH && t[1] == U
    ensures CharsOk(cs) && t == CharsText(cs) + [QUOTE] + Unescape(t, lossless).rest
    ensures Valid(Unescape(t, lossless).rest)
    decreases |t|, 0
  {
    hide Valid, CharOk, Hex4, EncodeRune, Triple;
    var u := t[6..];
    HexFrom(t);
    if IsHigh(Hex4(t[2..])) && LowEscape(u) {
      HexFrom(u);
      assert t[12..] == u[6..] && t[8..] == u[2..];
      var more := CharsFrom(t[12..], lossless);
      CharsCons(Hex(u[2..6]), more, Unescape(t, lossless).rest);
      cs := [Hex(u[2..6])] + more;
      CharsCons(Hex(t[2..6]), cs, Unescape(t, lossless).rest);
      cs := [Hex(t[2..6])] + cs;
    } else {
      var more := CharsFrom(u, lossless);
      CharsCons(Hex(t[2..6]), more, Unescape(t, lossless).rest);
      cs := [Hex(t[2..6])] + more;
    }
  }

  // ── the theorem ──────────

  lemma LossyValid(u: seq<X.Unit>)
    ensures Valid(FromUnits(u, false))
  {
    LossyUnits(u);
    X.FromUnitsMends(u);
  }

  lemma LiteralRead(cs: seq<Char>, rest: Str, lossless: bool)
    requires CharsOk(cs)
    ensures ParseText(CharsText(cs) + [QUOTE] + rest, lossless) == Text(FromUnits(CharsUnits(cs), lossless), rest)
  {
    hide Unescape, FromUnits, CharsUnits, CharsText;
    var t := CharsText(cs) + [QUOTE] + rest;
    CharsRead(cs, rest, lossless);
    CharsRead(cs, rest, false);
    LossyValid(CharsUnits(cs));
    var n := PlainRun(t);
    if n < |t| && t[n] == QUOTE { FastAgrees(t, lossless); FastAgrees(t, false); }
  }

  lemma FastAgrees(t: Str, lossless: bool)
    requires var n := PlainRun(t); n < |t| && t[n] == QUOTE
    ensures Unescape(t, lossless) == Text(t[..PlainRun(t)], t[PlainRun(t) + 1..])
  {
    FastPathAgrees(t, lossless);
  }

  lemma ReadIsUnescaped(t: Str, lossless: bool)
    requires ParseText(t, lossless).Text?
    ensures Unescape(t, lossless).Text? && Unescape(t, lossless).rest == ParseText(t, lossless).rest
  {
    hide Unescape, Repaired;
    var n := PlainRun(t);
    if n < |t| && t[n] == QUOTE { FastPathAgrees(t, lossless); }
  }

  // t starts with this literal's characters and its closing quote.
  predicate Spells(cs: seq<Char>, t: Str, rest: Str) { CharsOk(cs) && t == CharsText(cs) + [QUOTE] + rest }

  /** MAIN: on UTF-8, what the parser reads after an opening quote is exactly the string
      literals of RFC 8259, each held as the code units it denotes. */
  lemma StringLiterals(t: Str, lossless: bool, s: Str, rest: Str)
    requires Valid(t)
    ensures ParseText(t, lossless) == Text(s, rest) <==>
      exists cs :: Spells(cs, t, rest) && s == FromUnits(CharsUnits(cs), lossless)
  {
    hide Unescape, ParseText, FromUnits, CharsUnits, CharsText, Valid;
    if ParseText(t, lossless) == Text(s, rest) {
      ReadIsUnescaped(t, lossless);
      var cs := CharsFrom(t, lossless);
      LiteralRead(cs, rest, lossless);
      assert Spells(cs, t, rest);
    }
    if cs :| Spells(cs, t, rest) && s == FromUnits(CharsUnits(cs), lossless) {
      LiteralRead(cs, rest, lossless);
    }
  }
}
