/** Escaped for a script element, a JSON text still means the same value. */
module ScriptParse {
  import opened JsonValue
  import opened Utf8
  import opened JsOrder
  import opened JsonText
  import opened ScriptEscape
  import N = JsonNumber
  import S = JsonString
  import W = JsonWtf8
  import F = JsonFixed
  import R = JsonRoundTrip

  // ── strings ──────────

  lemma {:induction false} LoopEscaped(t: Str, lossless: bool)
    requires S.Unescape(t, lossless).Text?
    ensures S.Unescape(Escape(t), lossless) == Moved(S.Unescape(t, lossless))
    decreases |t|
  {
    hide Escape, S.UnicodeStep, IsSeparator;
    if t[0] == S.QUOTE {
      CopiedFirst(t);
    } else if IsMarkup(t[0]) {
      LoopEscaped(t[1..], lossless);
      MarkupFirst(t);
      MarkupStep(t[0], Escape(t[1..]), lossless);
    } else if t[0] == S.BACKSLASH {
      var e := S.StepOf(t, lossless);
      LoopEscaped(e.rest, lossless);
      EscapeCopied(t, lossless);
    } else if IsSeparator(t) {
      SeparatorLoop(t, lossless);
    } else {
      LoopEscaped(t[1..], lossless);
      OtherFirst(t);
    }
  }

  lemma SeparatorLoop(t: Str, lossless: bool)
    requires IsSeparator(t) && S.Unescape(t, lossless).Text?
    ensures S.Unescape(Escape(t), lossless) == Moved(S.Unescape(t, lossless))
    decreases |t|, 0
  {
    hide Escape, S.UnicodeStep;
    assert t == t[..3] + t[3..];
    S.PlainUnescape(t[..3], t[3..], lossless);
    LoopEscaped(t[3..], lossless);
    SeparatorFirst(t);
    SeparatorStep(t, Escape(t[3..]), lossless);
  }

  lemma {:induction false} HighCopied(t: Str, k: nat, n: nat)
    requires k <= n <= |t| && forall i :: k <= i < n ==> Cont(t[i])
    ensures Escape(t[k..]) == t[k..n] + Escape(t[n..])
    decreases n - k
  {
    hide Escape;
    if k == n {
      assert t[k..n] == [];
    } else {
      var u := t[k..];
      assert u[0] == t[k] && u[1..] == t[k + 1..];
      OtherFirst(u);
      HighCopied(t, k + 1, n);
      assert t[k..n] == [t[k]] + t[k + 1..n];
    }
  }

  lemma {:induction false} EscapeValid(t: Str)
    requires Valid(t)
    ensures Valid(Escape(t))
    decreases |t|
  {
    hide Escape, IsSeparator, SeqLen, Valid;
    if t == [] {
      NothingEscaped();
    } else {
      ValidTail(t);
      var n := SeqLen(t);
      EscapeValid(t[n..]);
      if IsMarkup(t[0]) {
        OneByteSequence(t);
        MarkupFirst(t);
        AsciiValid(MarkupEscape(t[0]), Escape(t[1..]));
      } else if IsSeparator(t) {
        ThreeByteSequence(t);
        SeparatorFirst(t);
        AsciiValid(if t[2] == 0xA8 then HEX_2028 else HEX_2029, Escape(t[3..]));
      } else {
        SequenceCopied(t);
        SequenceValid(t, Escape(t[n..]));
      }
    }
  }

  lemma NothingEscaped()
    ensures Escape([]) == [] && Valid([])
  {}

  lemma ValidTail(t: Str)
    requires Valid(t) && t != []
    ensures SeqLen(t) > 0 && Valid(t[SeqLen(t)..])
  {}

  lemma OneByteSequence(t: Str)
    requires t != [] && IsMarkup(t[0])
    ensures SeqLen(t) == 1
  {}

  lemma ThreeByteSequence(t: Str)
    requires IsSeparator(t)
    ensures SeqLen(t) == 3 && |t| >= 3
  {}

  lemma Continuations(t: Str)
    requires SeqLen(t) > 0
    ensures forall i :: 1 <= i < SeqLen(t) ==> Cont(t[i])
  {}

  lemma SequenceCopied(t: Str)
    requires SeqLen(t) > 0 && !IsMarkup(t[0]) && !IsSeparator(t)
    ensures Escape(t) == t[..SeqLen(t)] + Escape(t[SeqLen(t)..])
  {
    hide *;
    var n := SeqLen(t);
    Continuations(t);
    assert 1 <= n <= |t|;
    HighCopied(t, 1, n);
    OtherFirst(t);
    assert t[..n] == [t[0]] + t[1..n];
  }

  lemma SequenceValid(t: Str, b: Str)
    requires SeqLen(t) > 0 && Valid(b)
    ensures Valid(t[..SeqLen(t)] + b)
  {
    SeqLenPrefix(t, []);
    SeqLenPrefix(t[..SeqLen(t)], b);
    assert (t[..SeqLen(t)] + b)[SeqLen(t)..] == b;
  }

  function Kept(s: Str, lossless: bool): Str { if lossless then s else S.Repaired(s) }

  lemma TextIs(t: Str, lossless: bool)
    requires lossless ==> Valid(t)
    ensures S.ParseText(t, lossless).Text? <==> S.Unescape(t, lossless).Text?
    ensures S.Unescape(t, lossless).Text? ==>
      var u := S.Unescape(t, lossless); S.ParseText(t, lossless) == S.Text(Kept(u.s, lossless), u.rest)
  {
    hide S.Unescape, Valid;
    var n := S.PlainRun(t);
    if n < |t| && t[n] == S.QUOTE { S.FastPathAgrees(t, lossless); }
    if lossless && S.Unescape(t, lossless).Text? { W.RepairedWhole(t); }
  }

  lemma TextEscaped(t: Str, lossless: bool)
    requires (lossless ==> Valid(t)) && S.ParseText(t, lossless).Text?
    ensures S.ParseText(Escape(t), lossless) == Moved(S.ParseText(t, lossless))
  {
    hide S.Unescape, S.ParseText, Escape, Valid;
    TextIs(t, lossless);
    LoopEscaped(t, lossless);
    if lossless { EscapeValid(t); }
    TextIs(Escape(t), lossless);
  }

  // ── values ──────────

  lemma StartsKept(u: Str, c: byte)
    requires Copied(c) && c != 92
    ensures StartsWith(Escape(u), c) <==> StartsWith(u, c)
    ensures StartsWith(u, c) ==> Escape(u)[1..] == Escape(u[1..])
  {
    FirstKept(u);
    if StartsWith(u, c) { CopiedFirst(u); }
  }

  lemma WordEscaped(t: Str, word: Str, v: Json)
    requires word != [] && (forall i :: 0 <= i < |word| ==> Copied(word[i])) && word <= t
    ensures Word(Escape(t), word, v) == N.Scanned(v, Escape(t[|word|..]))
  {
    assert t == word + t[|word|..];
    CopiedPrefix(word, t[|word|..]);
    assert (word + Escape(t[|word|..]))[|word|..] == Escape(t[|word|..]);
  }

  ghost predicate Same<T>(t: Parsed<T>, u: Parsed<T>) { t.Scanned? ==> u == N.Scanned(t.value, Escape(t.rest)) }

  lemma {:induction false} ValueEscaped(t: Str, d: nat, mode: Mode)
    requires F.Readable(t, mode) && F.Rounding(mode)
    ensures Same(ParseValue(t, d, mode), ParseValue(Escape(t), d, mode))
    decreases |t|, 1
  {
    hide F.Readable, F.Rounding, Escape, Word, Ws, ParseElems, ParseMembers, N.ScanNumber, N.Denote, S.ParseText;
    if d <= MAX_DEPTH && t != [] {
      if t[0] == OPEN_BRACE {
        ObjectEscaped(t, d, mode);
      } else if t[0] == OPEN_BRACKET {
        ArrayEscaped(t, d, mode);
      } else if t[0] == S.QUOTE {
        StringEscaped(t, d, mode);
      } else if t[0] == N.MINUS || IsDigitByte(t[0]) {
        NumberEscaped(t, d, mode);
      } else {
        LiteralEscaped(t, d, mode);
      }
    }
  }

  lemma StringEscaped(t: Str, d: nat, mode: Mode)
    requires F.Readable(t, mode) && StartsWith(t, S.QUOTE)
    ensures Same(ParseValue(t, d, mode), ParseValue(Escape(t), d, mode))
  {
    F.Dropped(t, t[1..], 1, mode);
    CopiedFirst(t);
    if S.ParseText(t[1..], mode.lossless).Text? { TextEscaped(t[1..], mode.lossless); }
    hide Escape, S.ParseText;
  }

  lemma NumberEscaped(t: Str, d: nat, mode: Mode)
    requires t != [] && (t[0] == N.MINUS || IsDigitByte(t[0]))
    ensures Same(ParseValue(t, d, mode), ParseValue(Escape(t), d, mode))
  {
    hide Escape, N.ScanNumber, N.Denote;
    CopiedFirst(t);
    if N.ScanNumber(t).Scanned? { NumberEscape(t); }
  }

  lemma LiteralEscaped(t: Str, d: nat, mode: Mode)
    requires t != [] && t[0] != OPEN_BRACE && t[0] != OPEN_BRACKET && t[0] != S.QUOTE && t[0] != N.MINUS &&
      !IsDigitByte(t[0])
    ensures Same(ParseValue(t, d, mode), ParseValue(Escape(t), d, mode))
  {
    FirstKept(t);
    if TRUE_TEXT <= t { WordEscaped(t, TRUE_TEXT, Bool(true)); CopiedFirst(t); }
    if FALSE_TEXT <= t { WordEscaped(t, FALSE_TEXT, Bool(false)); CopiedFirst(t); }
    if NULL_TEXT <= t { WordEscaped(t, NULL_TEXT, Null); CopiedFirst(t); }
    hide Escape;
  }

  lemma {:induction false} ArrayEscaped(t: Str, d: nat, mode: Mode)
    requires F.Readable(t, mode) && F.Rounding(mode) && d <= MAX_DEPTH && StartsWith(t, OPEN_BRACKET)
    ensures Same(ParseValue(t, d, mode), ParseValue(Escape(t), d, mode))
    decreases |t|, 0
  {
    hide F.Readable, F.Rounding, Escape, Ws, ParseElems;
    F.Dropped(t, t[1..], 1, mode);
    F.WsReadable(t[1..], mode);
    StartsKept(t, OPEN_BRACKET);
    WsEscape(t[1..]);
    var u := Ws(t[1..]);
    StartsKept(u, CLOSE_BRACKET);
    if !StartsWith(u, CLOSE_BRACKET) { ElemsEscaped(u, d, mode, []); }
  }

  lemma {:induction false} ElemsEscaped(t: Str, d: nat, mode: Mode, es: seq<Json>)
    requires F.Readable(t, mode) && F.Rounding(mode) && d <= MAX_DEPTH
    ensures Same(ParseElems(t, d, mode, es), ParseElems(Escape(t), d, mode, es))
    decreases |t|, 2
  {
    hide F.Readable, F.Rounding, Escape, Ws, ParseValue, R.Held, R.Fits;
    F.WsReadable(t, mode);
    F.ValueSound(Ws(t), d + 1, mode);
    WsEscape(t);
    ValueEscaped(Ws(t), d + 1, mode);
    var r := ParseValue(Ws(t), d + 1, mode);
    if r.Scanned? {
      F.WsReadable(r.rest, mode);
      WsEscape(r.rest);
      var u := Ws(r.rest);
      StartsKept(u, COMMA);
      StartsKept(u, CLOSE_BRACKET);
      if StartsWith(u, COMMA) {
        F.Dropped(u, u[1..], 1, mode);
        ElemsEscaped(u[1..], d, mode, es + [r.value]);
      }
    }
  }

  lemma {:induction false} ObjectEscaped(t: Str, d: nat, mode: Mode)
    requires F.Readable(t, mode) && F.Rounding(mode) && d <= MAX_DEPTH && StartsWith(t, OPEN_BRACE)
    ensures Same(ParseValue(t, d, mode), ParseValue(Escape(t), d, mode))
    decreases |t|, 0
  {
    hide F.Readable, F.Rounding, Escape, Ws, ParseMembers;
    F.Dropped(t, t[1..], 1, mode);
    F.WsReadable(t[1..], mode);
    StartsKept(t, OPEN_BRACE);
    WsEscape(t[1..]);
    var u := Ws(t[1..]);
    StartsKept(u, CLOSE_BRACE);
    if !StartsWith(u, CLOSE_BRACE) { MembersEscaped(u, d, mode, []); }
  }

  lemma KeyEscaped(t: Str, mode: Mode)
    requires F.Readable(t, mode)
    ensures Same(ParseKey(t, mode), ParseKey(Escape(t), mode))
  {
    hide Escape, Ws, S.ParseText, Valid;
    if ParseKey(t, mode).Scanned? {
      F.Dropped(t, t[1..], 1, mode);
      StartsKept(t, S.QUOTE);
      TextEscaped(t[1..], mode.lossless);
      var rest := S.ParseText(t[1..], mode.lossless).rest;
      WsEscape(rest);
      StartsKept(Ws(rest), COLON);
      WsEscape(Ws(rest)[1..]);
    }
  }

  lemma {:induction false} MembersEscaped(t: Str, d: nat, mode: Mode, ms: seq<Member>)
    requires F.Readable(t, mode) && F.Rounding(mode) && d <= MAX_DEPTH
    ensures Same(ParseMembers(t, d, mode, ms), ParseMembers(Escape(t), d, mode, ms))
    decreases |t|, 2
  {
    hide F.Readable, F.Rounding, Escape, Ws, ParseValue, ParseKey, Put, R.Held, R.Fits, W.Storable;
    F.WsReadable(t, mode);
    F.KeySound(Ws(t), mode);
    WsEscape(t);
    KeyEscaped(Ws(t), mode);
    var key := ParseKey(Ws(t), mode);
    if key.Scanned? {
      F.ValueSound(key.rest, d + 1, mode);
      ValueEscaped(key.rest, d + 1, mode);
      var r := ParseValue(key.rest, d + 1, mode);
      if r.Scanned? {
        F.WsReadable(r.rest, mode);
        WsEscape(r.rest);
        var u := Ws(r.rest);
        StartsKept(u, COMMA);
        StartsKept(u, CLOSE_BRACE);
        if StartsWith(u, COMMA) {
          F.Dropped(u, u[1..], 1, mode);
          MembersEscaped(u[1..], d, mode, Put(ms, key.value, r.value));
        }
      }
    }
  }

  /** MAIN: any JSON text that parses, parses to the same value once escaped. */
  lemma EscapedMeansTheSame(t: Str, mode: Mode)
    requires F.Readable(t, mode) && F.Rounding(mode) && ParseDoc(t, mode).Some?
    ensures ParseDoc(Escape(t), mode) == ParseDoc(t, mode)
  {
    hide F.Readable, F.Rounding, Escape, Ws, ParseValue, R.Held, R.Fits;
    F.WsReadable(t, mode);
    F.ValueSound(Ws(t), 0, mode);
    WsEscape(t);
    ValueEscaped(Ws(t), 0, mode);
    var rest := ParseValue(Ws(t), 0, mode).rest;
    WsEscape(rest);
    FirstKept([]);
  }
}
