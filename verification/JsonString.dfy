/** String literals: WriteString and its slow form, the parser's escapes, WTF-8. */
module JsonString {
  import opened JsonValue
  import opened Utf8

  const QUOTE: byte := 34
  const BACKSLASH: byte := 92
  const U: byte := 117
  const D: byte := 100

  function HexDigit(n: int): byte
    requires 0 <= n < 16
  {
    if n < 10 then 48 + n else 87 + n
  }

  function HexVal(b: byte): int {
    var c: int := b;
    if 48 <= c <= 57 then c - 48
    else if 97 <= c <= 102 then c - 87
    else if 65 <= c <= 70 then c - 55
    else -1
  }

  // ── writing ──────────

  /** How one byte below 0x80 is written; a higher byte stands for itself. */
  function EscapeByte(c: byte): Str {
    if c == QUOTE then [BACKSLASH, QUOTE]
    else if c == BACKSLASH then [BACKSLASH, BACKSLASH]
    else if c == 8 then [BACKSLASH, 98]
    else if c == 12 then [BACKSLASH, 102]
    else if c == 10 then [BACKSLASH, 110]
    else if c == 13 then [BACKSLASH, 114]
    else if c == 9 then [BACKSLASH, 116]
    else if c < 0x20 then [BACKSLASH, U, 48, 48, HexDigit(c / 16), HexDigit(c % 16)]
    else [c]
  }

  function WriteFast(s: Str): Str {
    if s == [] then [] else EscapeByte(s[0]) + WriteFast(s[1..])
  }

  /** ED A0..BF 80..BF: a surrogate code point in generalized UTF-8. */
  predicate IsTriple(s: Str) { |s| >= 3 && s[0] == 0xED && 0xA0 <= s[1] <= 0xBF && Cont(s[2]) }

  function TripleValue(s: Str): (r: int)
    requires IsTriple(s)
    ensures IsSurrogate(r)
  {
    var b: int := s[1];
    var c: int := s[2];
    0xD000 + 0x40 * (b - 0x80) + (c - 0x80)
  }

  function Triple(r: int): (s: Str)
    requires IsSurrogate(r)
    ensures IsTriple(s) && |s| == 3
  {
    [0xED, 0x80 + r / 0x40 % 0x40, 0x80 + r % 0x40]
  }


  predicate StartsLow(s: Str) { IsTriple(s) && IsLow(TripleValue(s)) }

  function SurrogateEscape(r: int): Str
    requires IsSurrogate(r)
  {
    [BACKSLASH, U, D, HexDigit(r / 256 % 16), HexDigit(r / 16 % 16), HexDigit(r % 16)]
  }

  function WriteSlow(s: Str): Str
    decreases |s|
  {
    if s == [] then []
    else if s[0] < 0x80 then EscapeByte(s[0]) + WriteSlow(s[1..])
    else if IsTriple(s) then SurrogateEscape(TripleValue(s)) + WriteSlow(s[3..])
    else
      var n := SeqLen(s);
      if n == 0 then REPLACEMENT + WriteSlow(s[1..]) else s[..n] + WriteSlow(s[n..])
  }

  function WriteString(s: Str): Str {
    [QUOTE] + (if Valid(s) then WriteFast(s) else WriteSlow(s)) + [QUOTE]
  }

  predicate Verbatim(c: byte) { c >= 0x20 && c != QUOTE && c != BACKSLASH }

  lemma WrittenAsIs(c: byte)
    ensures Verbatim(c) <==> EscapeByte(c) == [c]
  {}

  lemma {:induction false} VerbatimRun(a: Str, b: Str)
    requires forall i :: 0 <= i < |a| ==> Verbatim(a[i])
    ensures WriteFast(a + b) == a + WriteFast(b)
  {
    hide EscapeByte;
    if a == [] {
      assert a + b == b;
    } else {
      assert (a + b)[1..] == a[1..] + b && (a + b)[0] == a[0];
      WrittenAsIs(a[0]);
      VerbatimRun(a[1..], b);
      assert a == [a[0]] + a[1..];
    }
  }

  lemma HighBytes(s: Str)
    requires SeqLen(s) > 0 && s[0] >= 0x80
    ensures forall i :: 0 <= i < SeqLen(s) ==> s[i] >= 0x80
    ensures !IsTriple(s)
  {}

  /** On valid UTF-8 the fast form writes what the slow form does. */
  lemma {:induction false} FastIsSlow(s: Str)
    requires Valid(s)
    ensures WriteFast(s) == WriteSlow(s)
    decreases |s|
  {
    if s != [] {
      var n := SeqLen(s);
      FastIsSlow(s[n..]);
      if s[0] >= 0x80 {
        HighBytes(s);
        assert s == s[..n] + s[n..];
        VerbatimRun(s[..n], s[n..]);
      }
    }
  }

  // ── reading ──────────

  function Hex4(t: Str): (r: int)
    ensures r < 0 || (0 <= r < 0x10000 && |t| >= 4)
  {
    if |t| < 4 || HexVal(t[0]) < 0 || HexVal(t[1]) < 0 || HexVal(t[2]) < 0 || HexVal(t[3]) < 0 then -1
    else 4096 * HexVal(t[0]) + 256 * HexVal(t[1]) + 16 * HexVal(t[2]) + HexVal(t[3])
  }

  predicate UnicodeEscape(t: Str) { |t| >= 6 && t[0] == BACKSLASH && t[1] == U && Hex4(t[2..]) >= 0 }

  predicate LowEscape(t: Str) { UnicodeEscape(t) && IsLow(Hex4(t[2..])) }

  datatype Step = Close(rest: Str) | Bad | Emit(out: Str, rest: Str)

  /** One turn of the slow string loop. */
  function StepOf(t: Str, lossless: bool): (s: Step)
    ensures s.Emit? ==> |s.rest| < |t|
    ensures s.Close? ==> |s.rest| < |t|
  {
    if t == [] then Bad
    else if t[0] == QUOTE then Close(t[1..])
    else if t[0] < 0x20 then Bad
    else if t[0] != BACKSLASH then Emit([t[0]], t[1..])
    else if |t| < 2 then Bad
    else
      var e := t[1];
      if e == QUOTE || e == BACKSLASH || e == 47 then Emit([e], t[2..])
      else if e == 98 then Emit([8], t[2..])
      else if e == 102 then Emit([12], t[2..])
      else if e == 110 then Emit([10], t[2..])
      else if e == 114 then Emit([13], t[2..])
      else if e == 116 then Emit([9], t[2..])
      else if e == U then UnicodeStep(t, lossless)
      else Bad
  }

  function UnicodeStep(t: Str, lossless: bool): (s: Step)
    requires |t| >= 2
    ensures s.Emit? ==> |s.rest| < |t|
    ensures !s.Close?
  {
    var r := Hex4(t[2..]);
    if r < 0 then Bad
    else if !IsSurrogate(r) then Emit(EncodeRune(r), t[6..])
    else if IsHigh(r) && LowEscape(t[6..]) then
      Emit(EncodeRune(PairRune(r, Hex4(t[8..]))), t[12..])
    else if lossless then Emit(Triple(r), t[6..])
    else Emit(EncodeRune(RUNE_ERROR), t[6..])
  }

  datatype Text = NoText | Text(s: Str, rest: Str)

  /** The slow loop: everything up to the closing quote. */
  function Unescape(t: Str, lossless: bool): (r: Text)
    ensures r.Text? ==> |r.rest| < |t|
    decreases |t|
  {
    match StepOf(t, lossless)
    case Bad => NoText
    case Close(rest) => Text([], rest)
    case Emit(out, rest) =>
      match Unescape(rest, lossless)
      case NoText => NoText
      case Text(s, r) => Text(out + s, r)
  }

  /** strings.ToValidUTF8 with U+FFFD: each run of ill-formed bytes becomes one. */
  function ToValid(s: Str, inRun: bool): Str
    decreases |s|
  {
    if s == [] then []
    else
      var n := SeqLen(s);
      if n > 0 then s[..n] + ToValid(s[n..], false)
      else (if inRun then [] else REPLACEMENT) + ToValid(s[1..], true)
  }

  /** Bytes before the first quote, backslash or control. */
  function PlainRun(t: Str): (n: nat)
    ensures n <= |t| && forall i :: 0 <= i < n ==> t[i] != QUOTE && t[i] != BACKSLASH && t[i] >= 0x20
    ensures n < |t| ==> t[n] == QUOTE || t[n] == BACKSLASH || t[n] < 0x20
  {
    if t == [] || t[0] == QUOTE || t[0] == BACKSLASH || t[0] < 0x20 then 0 else 1 + PlainRun(t[1..])
  }

  function Repaired(s: Str): Str { if Valid(s) then s else ToValid(s, false) }

  /** parser.str after the opening quote: the fast path when no escape comes first. */
  function ParseText(t: Str, lossless: bool): (r: Text)
    ensures r.Text? ==> |r.rest| < |t|
  {
    var n := PlainRun(t);
    if n < |t| && t[n] == QUOTE then Text(Repaired(t[..n]), t[n + 1..])
    else match Unescape(t, lossless)
      case NoText => NoText
      case Text(s, rest) => Text(if lossless then s else Repaired(s), rest)
  }

  lemma {:induction false} PlainUnescape(a: Str, t: Str, lossless: bool)
    requires forall i :: 0 <= i < |a| ==> a[i] != QUOTE && a[i] != BACKSLASH && a[i] >= 0x20
    ensures Unescape(a + t, lossless) ==
      match Unescape(t, lossless) case NoText => NoText case Text(s, r) => Text(a + s, r)
  {
    if a == [] {
      assert a + t == t;
      assert forall s: Str :: a + s == s;
    } else {
      assert (a + t)[1..] == a[1..] + t && (a + t)[0] == a[0];
      PlainUnescape(a[1..], t, lossless);
      assert forall s: Str :: [a[0]] + (a[1..] + s) == a + s;
    }
  }

  /** The fast path reads what the loop would. */
  lemma FastPathAgrees(t: Str, lossless: bool)
    requires var n := PlainRun(t); n < |t| && t[n] == QUOTE
    ensures Unescape(t, lossless) == Text(t[..PlainRun(t)], t[PlainRun(t) + 1..])
  {
    var n := PlainRun(t);
    assert t == t[..n] + t[n..] && t[n..][1..] == t[n + 1..];
    PlainUnescape(t[..n], t[n..], lossless);
    assert t[..n] + [] == t[..n];
  }
}
