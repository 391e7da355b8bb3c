/** What a string literal gives back: writing then reading, and the WTF-8 invariant. */
module JsonWtf8 {
  import opened JsonValue
  import opened Utf8
  import opened JsonString

  /** Valid UTF-8 in which lone surrogates may stand as triples, but never a
      high one directly before a low one. */
  predicate Wtf8(s: Str)
    decreases |s|
  {
    || s == []
    || (SeqLen(s) > 0 && Wtf8(s[SeqLen(s)..]))
    || (IsTriple(s) && !(IsHigh(TripleValue(s)) && StartsLow(s[3..])) && Wtf8(s[3..]))
  }

  /** What a parser in this mode may hold. */
  predicate Storable(s: Str, lossless: bool) { if lossless then Wtf8(s) else Valid(s) }

  lemma {:induction false} ValidIsWtf8(s: Str)
    requires Valid(s)
    ensures Wtf8(s)
    decreases |s|
  {
    if s != [] { ValidIsWtf8(s[SeqLen(s)..]); }
  }

  // ── one step over a written piece ──────────

  lemma EscapeStep(c: byte, t: Str, lossless: bool)
    requires c < 0x80
    ensures StepOf(EscapeByte(c) + t, lossless) == Emit([c], t)
  {
    var w := EscapeByte(c);
    var u := w + t;
    assert forall i :: 0 <= i < |w| ==> u[i] == w[i];
    if |w| == 2 {
      assert u[2..] == t;
    } else if |w| == 1 {
      assert u[1..] == t;
    } else {
      ControlStep(c, t, lossless);
    }
  }

  lemma ControlStep(c: byte, t: Str, lossless: bool)
    requires c < 0x20
    ensures StepOf([BACKSLASH, U, 48, 48, HexDigit(c / 16), HexDigit(c % 16)] + t, lossless) == Emit([c], t)
  {
    var u := [BACKSLASH, U, 48, 48, HexDigit(c / 16), HexDigit(c % 16)] + t;
    HexBack(c / 16);
    HexBack(c % 16);
    assert Hex4(u[2..]) == c;
    assert u[6..] == t;
    assert EncodeRune(c) == [c];
  }

  lemma HexBack(n: int)
    requires 0 <= n < 16
    ensures HexVal(HexDigit(n)) == n
  {}

  lemma SurrogateHex(r: int, t: Str)
    requires IsSurrogate(r)
    ensures var u := SurrogateEscape(r) + t; UnicodeEscape(u) && Hex4(u[2..]) == r && u[6..] == t
  {
    var u := SurrogateEscape(r) + t;
    HexBack(r / 256 % 16);
    HexBack(r / 16 % 16);
    HexBack(r % 16);
    assert HexVal(D) == 13;
    assert r / 256 == r / 16 / 16 && r / 4096 == r / 256 / 16 && r / 4096 == 13;
    assert Hex4(u[2..]) == r;
    assert u[6..] == t;
  }

  lemma TripleBack(s: Str)
    requires IsTriple(s)
    ensures Triple(TripleValue(s)) == s[..3] && SeqLen(s) == 0
  {
    var b: int := s[1];
    var c: int := s[2];
    var r := TripleValue(s);
    assert r == 0x40 * (0x340 + (b - 0x80)) + (c - 0x80);
    assert r / 0x40 == 0x340 + (b - 0x80) && r % 0x40 == c - 0x80;
  }

  lemma EscapeNotLow(c: byte, t: Str)
    requires c < 0x80
    ensures !LowEscape(EscapeByte(c) + t)
  {
    var w := EscapeByte(c);
    var u := w + t;
    assert u[0] == w[0];
    if |w| == 2 {
      assert u[1] == w[1];
    } else if |w| == 6 {
      assert u[2..][0] == 48 && u[2..][1] == 48;
    }
  }

  /** A written string shows a low escape first exactly when it starts with a low triple. */
  lemma FirstEscape(s: Str, rest: Str)
    requires Wtf8(s)
    ensures LowEscape(WriteSlow(s) + [QUOTE] + rest) <==> StartsLow(s)
  {
    hide Hex4, EscapeByte, SurrogateEscape, SeqLen, TripleValue;
    var t := WriteSlow(s) + [QUOTE] + rest;
    if s == [] {
      assert t[0] == QUOTE;
    } else if s[0] < 0x80 {
      var tail := WriteSlow(s[1..]) + [QUOTE] + rest;
      EscapeNotLow(s[0], tail);
      assert t == EscapeByte(s[0]) + tail;
    } else if IsTriple(s) {
      var tail := WriteSlow(s[3..]) + [QUOTE] + rest;
      assert t == SurrogateEscape(TripleValue(s)) + tail;
      SurrogateHex(TripleValue(s), tail);
    } else {
      assert t[0] == s[0];
    }
  }

  /** What is written is read back, up to the closing quote. */
  lemma {:induction false} WrittenReads(s: Str, rest: Str, lossless: bool)
    requires Wtf8(s) && (lossless || Valid(s))
    ensures Unescape(WriteSlow(s) + [QUOTE] + rest, lossless) == Text(s, rest)
    decreases |s|
  {
    hide StartsLow, WriteSlow, Unescape, TripleValue;
    if s == [] {
      NothingReads(rest, lossless);
    } else if s[0] < 0x80 {
      WrittenReads(s[1..], rest, lossless);
      AsciiReads(s, rest, lossless);
    } else if IsTriple(s) {
      TripleBack(s);
      WrittenReads(s[3..], rest, lossless);
      TripleReads(s, rest);
    } else {
      WrittenReads(s[SeqLen(s)..], rest, lossless);
      HighReads(s, rest, lossless);
    }
  }

  lemma NothingReads(rest: Str, lossless: bool)
    ensures Unescape(WriteSlow([]) + [QUOTE] + rest, lossless) == Text([], rest)
  {
    assert WriteSlow([]) + [QUOTE] + rest == [QUOTE] + rest;
    assert ([QUOTE] + rest)[1..] == rest;
  }

  lemma AsciiReads(s: Str, rest: Str, lossless: bool)
    requires s != [] && s[0] < 0x80
    requires Unescape(WriteSlow(s[1..]) + [QUOTE] + rest, lossless) == Text(s[1..], rest)
    ensures Unescape(WriteSlow(s) + [QUOTE] + rest, lossless) == Text(s, rest)
  {
    hide EscapeByte, StepOf;
    var tail := WriteSlow(s[1..]) + [QUOTE] + rest;
    assert WriteSlow(s) + [QUOTE] + rest == EscapeByte(s[0]) + tail;
    EscapeStep(s[0], tail, lossless);
    assert [s[0]] + s[1..] == s;
  }

  lemma HighReads(s: Str, rest: Str, lossless: bool)
    requires s != [] && s[0] >= 0x80 && !IsTriple(s) && SeqLen(s) > 0
    requires Unescape(WriteSlow(s[SeqLen(s)..]) + [QUOTE] + rest, lossless) == Text(s[SeqLen(s)..], rest)
    ensures Unescape(WriteSlow(s) + [QUOTE] + rest, lossless) == Text(s, rest)
  {
    HighBytes(s);
    HighWrites(s, rest);
    hide Unescape, StepOf, WriteSlow, SeqLen, IsTriple;
    RunReads(s, SeqLen(s), WriteSlow(s[SeqLen(s)..]) + [QUOTE] + rest, rest, lossless);
  }

  /** A run of plain bytes before what is read from t. */
  lemma RunReads(s: Str, n: nat, t: Str, rest: Str, lossless: bool)
    requires n <= |s| && forall i :: 0 <= i < n ==> s[i] != QUOTE && s[i] != BACKSLASH && s[i] >= 0x20
    requires Unescape(t, lossless) == Text(s[n..], rest)
    ensures Unescape(s[..n] + t, lossless) == Text(s, rest)
  {
    hide Unescape, StepOf;
    PlainUnescape(s[..n], t, lossless);
    assert s[..n] + s[n..] == s;
  }

  lemma HighWrites(s: Str, rest: Str)
    requires s != [] && s[0] >= 0x80 && !IsTriple(s) && SeqLen(s) > 0
    ensures WriteSlow(s) + [QUOTE] + rest == s[..SeqLen(s)] + (WriteSlow(s[SeqLen(s)..]) + [QUOTE] + rest)
  {
    var a, b := s[..SeqLen(s)], WriteSlow(s[SeqLen(s)..]);
    assert WriteSlow(s) == a + b;
    hide WriteSlow, SeqLen, IsTriple;
    assert a + b + [QUOTE] + rest == a + (b + [QUOTE] + rest);
  }

  lemma TripleReads(s: Str, rest: Str)
    requires Wtf8(s) && IsTriple(s) && SeqLen(s) == 0
    requires Unescape(WriteSlow(s[3..]) + [QUOTE] + rest, true) == Text(s[3..], rest)
    ensures Unescape(WriteSlow(s) + [QUOTE] + rest, true) == Text(s, rest)
  {
    hide SeqLen, Hex4, HexVal, HexDigit, EncodeRune, SurrogateEscape;
    var r := TripleValue(s);
    var tail := WriteSlow(s[3..]) + [QUOTE] + rest;
    var t := SurrogateEscape(r) + tail;
    assert WriteSlow(s) + [QUOTE] + rest == t;
    SurrogateHex(r, tail);
    TripleBack(s);
    if IsHigh(r) && LowEscape(tail) { FirstEscape(s[3..], rest); }
    assert StepOf(t, true) == Emit(Triple(r), tail);
    assert s[..3] + s[3..] == s;
  }

  lemma {:induction false} EscapesShow(s: Str)
    requires Wtf8(s) && !Valid(s)
    ensures BACKSLASH in WriteSlow(s)
    decreases |s|
  {
    hide EscapeByte;
    if s[0] < 0x80 {
      EscapesShow(s[1..]);
    } else if IsTriple(s) {
      assert WriteSlow(s)[0] == BACKSLASH;
    } else {
      EscapesShow(s[SeqLen(s)..]);
    }
  }

  /** MAIN: a written string is read back whole, in the mode that can hold it. */
  lemma WriteThenRead(s: Str, rest: Str, lossless: bool)
    requires Storable(s, lossless)
    ensures WriteString(s) != [] && WriteString(s)[0] == QUOTE
    ensures ParseText(WriteString(s)[1..] + rest, lossless) == Text(s, rest)
  {
    hide WriteSlow, WriteFast, Unescape;
    if Valid(s) {
      ValidIsWtf8(s);
      FastIsSlow(s);
    }
    var t := WriteSlow(s) + [QUOTE] + rest;
    assert WriteString(s)[1..] + rest == t;
    WrittenReads(s, rest, lossless);
    var n := PlainRun(t);
    if n < |t| && t[n] == QUOTE {
      FastPathAgrees(t, lossless);
      assert n == |WriteSlow(s)|;
      assert forall i :: 0 <= i < n ==> WriteSlow(s)[i] == t[i] != BACKSLASH;
      if !Valid(s) { EscapesShow(s); }
    }
  }

  // ── what reading can give ──────────

  lemma {:induction false} DropAscii(t: Str, k: nat)
    requires Valid(t) && k <= |t| && forall i :: 0 <= i < k ==> t[i] < 0x80
    ensures Valid(t[k..])
  {
    if k == 0 {
      assert t[0..] == t;
    } else {
      assert SeqLen(t) == 1;
      DropAscii(t[1..], k - 1);
      assert t[1..][k - 1..] == t[k..];
    }
  }

  lemma HexAscii(t: Str)
    requires UnicodeEscape(t)
    ensures forall i :: 0 <= i < 6 ==> t[i] < 0x80
  {
    var u := t[2..];
    assert t[2] == u[0] && t[3] == u[1] && t[4] == u[2] && t[5] == u[3];
    assert HexVal(u[0]) >= 0 && HexVal(u[1]) >= 0 && HexVal(u[2]) >= 0 && HexVal(u[3]) >= 0;
  }

  lemma SeqWtf8(e: Str, s: Str)
    requires SeqLen(e) == |e| > 0 && Wtf8(s)
    ensures Wtf8(e + s) && !StartsLow(e + s)
  {
    SeqLenPrefix(e, s);
    assert (e + s)[|e|..] == s;
    if IsTriple(e + s) { TripleBack(e + s); }
  }

  lemma RuneWtf8(r: int, s: Str)
    requires !IsSurrogate(r) && 0 <= r <= 0x10FFFF && Wtf8(s)
    ensures Wtf8(EncodeRune(r) + s) && !StartsLow(EncodeRune(r) + s)
  {
    DecodeEncode(r, []);
    assert EncodeRune(r) + [] == EncodeRune(r);
    SeqWtf8(EncodeRune(r), s);
  }

  lemma TripleWtf8(r: int, s: Str)
    requires IsSurrogate(r) && Wtf8(s) && !(IsHigh(r) && StartsLow(s))
    ensures Wtf8(Triple(r) + s) && (StartsLow(Triple(r) + s) <==> IsLow(r))
  {
    var t := Triple(r) + s;
    assert t[0] == Triple(r)[0] && t[1] == Triple(r)[1] && t[2] == Triple(r)[2];
    assert t[3..] == s;
    assert r / 0x1000 == r / 0x40 / 0x40 == 13;
    assert TripleValue(t) == r;
  }

  /** The invariant of the lossless loop: WTF-8 out, and a low surrogate comes
      first only from an escape that stood first. */
  lemma {:induction false} LosslessLoop(t: Str)
    requires Valid(t) && Unescape(t, true).Text?
    ensures var u := Unescape(t, true);
      Wtf8(u.s) && Valid(u.rest) && (StartsLow(u.s) ==> LowEscape(t))
    decreases |t|
  {
    hide Hex4, EncodeRune, HexVal, SeqLen, TripleValue, UnicodeStep;
    if t[0] == QUOTE {
      DropAscii(t, 1);
    } else if t[0] == BACKSLASH {
      if t[1] == U {
        UnicodeAt(t);
      } else {
        SimpleAt(t);
      }
    } else if t[0] < 0x80 {
      DropAscii(t, 1);
      LosslessLoop(t[1..]);
      AsciiSeq(t[0]);
      SeqWtf8([t[0]], Unescape(t[1..], true).s);
    } else {
      HighAt(t);
    }
  }

  lemma AsciiSeq(c: byte)
    requires c < 0x80
    ensures SeqLen([c]) == 1
  {}

  lemma SimpleStep(t: Str)
    requires |t| >= 2 && t[0] == BACKSLASH && t[1] != U && !StepOf(t, true).Bad?
    ensures var step := StepOf(t, true);
      step.Emit? && |step.out| == 1 && step.out[0] < 0x80 && step.rest == t[2..] && t[1] < 0x80
  {}

  lemma SimpleAt(t: Str)
    requires Valid(t) && |t| >= 2 && t[0] == BACKSLASH && t[1] != U && Unescape(t, true).Text?
    ensures var u := Unescape(t, true);
      Wtf8(u.s) && Valid(u.rest) && (StartsLow(u.s) ==> LowEscape(t))
    decreases |t|, 0
  {
    hide SeqLen, StartsLow, LowEscape, Valid, Wtf8, StepOf;
    var step := StepOf(t, true);
    SimpleStep(t);
    DropAscii(t, 2);
    LosslessLoop(t[2..]);
    assert step.out == [step.out[0]];
    AsciiSeq(step.out[0]);
    SeqWtf8(step.out, Unescape(t[2..], true).s);
  }

  lemma HighAt(t: Str)
    requires Valid(t) && t != [] && t[0] >= 0x80 && Unescape(t, true).Text?
    ensures var u := Unescape(t, true);
      Wtf8(u.s) && Valid(u.rest) && (StartsLow(u.s) ==> LowEscape(t))
    decreases |t|, 0
  {
    hide StartsLow, LowEscape, Wtf8, StepOf, Unescape;
    var n := SeqLen(t);
    HighBytes(t);
    assert t == t[..n] + t[n..];
    PlainUnescape(t[..n], t[n..], true);
    LosslessLoop(t[n..]);
    SeqLenPrefix(t, []);
    SeqWtf8(t[..n], Unescape(t[n..], true).s);
  }

  /** What the loop gives after an escape, given what it gives after the rest. */
  ghost predicate Looped(t: Str, u: Text) { u.Text? && Wtf8(u.s) && Valid(u.rest) && (StartsLow(u.s) ==> LowEscape(t)) }

  lemma AfterStep(t: Str)
    requires StepOf(t, true).Emit? && Unescape(t, true).Text?
    ensures var e := StepOf(t, true);
            var u := Unescape(e.rest, true);
      u.Text? && Unescape(t, true) == Text(e.out + u.s, u.rest)
  {
    hide UnicodeStep, StepOf;
  }

  lemma UnicodeAt(t: Str)
    requires Valid(t) && |t| >= 2 && t[0] == BACKSLASH && t[1] == U && Unescape(t, true).Text?
    ensures Looped(t, Unescape(t, true))
    decreases |t|, 1
  {
    hide SeqLen, StartsLow, Valid, Wtf8, Hex4, HexVal, EncodeRune, Unescape, LowEscape;
    assert StepOf(t, true).Emit? by { StepGoesOn(t); }
    AfterStep(t);
    HexAscii(t);
    DropAscii(t, 6);
    var r := Hex4(t[2..]);
    if IsHigh(r) && LowEscape(t[6..]) {
      PairAt(t);
    } else {
      LosslessLoop(t[6..]);
      if IsSurrogate(r) {
        LoneAt(t);
      } else {
        RuneWtf8(r, Unescape(t[6..], true).s);
      }
    }
  }

  lemma StepGoesOn(t: Str)
    requires |t| >= 2 && t[0] == BACKSLASH && Unescape(t, true).Text?
    ensures StepOf(t, true).Emit?
  {
    hide UnicodeStep;
  }

  lemma LoneAt(t: Str)
    requires UnicodeEscape(t) && StepOf(t, true).Emit? && Unescape(t, true).Text?
    requires var r := Hex4(t[2..]); IsSurrogate(r) && !(IsHigh(r) && LowEscape(t[6..]))
    requires Looped(t[6..], Unescape(t[6..], true))
    ensures Looped(t, Unescape(t, true))
  {
    hide Hex4, Unescape, StartsLow, Wtf8, Valid, Triple;
    AfterStep(t);
    TripleWtf8(Hex4(t[2..]), Unescape(t[6..], true).s);
  }

  lemma PairAt(t: Str)
    requires UnicodeEscape(t) && Valid(t[6..]) && StepOf(t, true).Emit? && Unescape(t, true).Text?
    requires IsHigh(Hex4(t[2..])) && LowEscape(t[6..])
    ensures Looped(t, Unescape(t, true))
    decreases |t|, 0
  {
    hide Hex4, Unescape, StartsLow, Wtf8, Valid, EncodeRune;
    AfterStep(t);
    HexAscii(t[6..]);
    DropAscii(t[6..], 6);
    assert t[6..][6..] == t[12..] && t[6..][2..] == t[8..];
    LosslessLoop(t[12..]);
    RuneWtf8(PairRune(Hex4(t[2..]), Hex4(t[8..])), Unescape(t[12..], true).s);
  }

  lemma {:induction false} ToValidIsValid(s: Str, inRun: bool)
    ensures Valid(ToValid(s, inRun))
    decreases |s|
  {
    if s != [] {
      var n := SeqLen(s);
      if n > 0 {
        ToValidIsValid(s[n..], false);
        SeqLenPrefix(s, []);
        assert s[..n][n..] == [];
        ValidConcat(s[..n], ToValid(s[n..], false));
      } else {
        ToValidIsValid(s[1..], true);
        ReplacementValid();
        ValidConcat(REPLACEMENT, ToValid(s[1..], true));
        assert [] + ToValid(s[1..], true) == ToValid(s[1..], true);
      }
    }
  }

  lemma ReplacementValid()
    ensures Valid(REPLACEMENT)
  {
    assert REPLACEMENT[3..] == [];
  }

  /** MAIN: whatever the text, the string read is one its mode can hold. */
  lemma ReadIsStorable(t: Str, lossless: bool)
    requires lossless ==> Valid(t)
    ensures var u := ParseText(t, lossless);
      u.Text? ==> Storable(u.s, lossless) && (lossless ==> Valid(u.rest))
  {
    hide Unescape, Valid, Wtf8;
    var u := ParseText(t, lossless);
    if u.Text? {
      var n := PlainRun(t);
      if n < |t| && t[n] == QUOTE { FastPathAgrees(t, lossless); }
      if lossless {
        LosslessLoop(t);
        RepairedWhole(t);
      } else {
        RepairedValid(if n < |t| && t[n] == QUOTE then t[..n] else Unescape(t, lossless).s);
      }
    }
  }

  lemma RepairedValid(s: Str)
    ensures Valid(Repaired(s))
  {
    ToValidIsValid(s, false);
  }

  // A plain run of valid text up to a quote is itself valid.
  lemma {:induction false} RunValid(t: Str, n: nat)
    requires Valid(t) && n < |t| && t[n] == QUOTE
    requires forall i :: 0 <= i < n ==> t[i] != QUOTE
    ensures Valid(t[..n])
    decreases n
  {
    if n > 0 {
      var k := SeqLen(t);
      if t[0] >= 0x80 { HighBytes(t); }
      assert k <= n;
      assert t[k..][n - k] == t[n];
      RunValid(t[k..], n - k);
      assert t[..n] == t[..k] + t[k..][..n - k];
      SeqLenPrefix(t, []);
      assert t[..k][k..] == [];
      assert Valid(t[..k]);
      ValidConcat(t[..k], t[k..][..n - k]);
    }
  }

  lemma RepairedWhole(t: Str)
    requires Valid(t) && ParseText(t, true).Text? && Unescape(t, true).Text?
    ensures ParseText(t, true) == Unescape(t, true)
  {
    hide Unescape, Valid;
    var n := PlainRun(t);
    if n < |t| && t[n] == QUOTE {
      FastPathAgrees(t, true);
      RunValid(t, n);
    }
  }
}
