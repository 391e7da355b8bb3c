/** JSON made safe inside a script element: the escape, and what it leaves unchanged. */
module ScriptEscape {
  import opened JsonValue
  import opened Utf8
  import opened JsOrder
  import opened JsonText
  import N = JsonNumber
  import S = JsonString
  import W = JsonWtf8

  /** U+2028 or U+2029 in UTF-8. */
  predicate IsSeparator(t: Str) { |t| >= 3 && t[0] == 0xE2 && t[1] == 0x80 && (t[2] == 0xA8 || t[2] == 0xA9) }

  predicate IsMarkup(c: byte) { c == 60 || c == 62 || c == 38 }

  const HEX_3C: Str := [92, 117, 48, 48, 51, 99]
  const HEX_3E: Str := [92, 117, 48, 48, 51, 101]
  const HEX_26: Str := [92, 117, 48, 48, 50, 54]
  const HEX_2028: Str := [92, 117, 50, 48, 50, 56]
  const HEX_2029: Str := [92, 117, 50, 48, 50, 57]

  function MarkupEscape(c: byte): Str { if c == 60 then HEX_3C else if c == 62 then HEX_3E else HEX_26 }

  /** escape: the replacer, left to right. */
  function Escape(t: Str): Str {
    if t == [] then []
    else if IsMarkup(t[0]) then MarkupEscape(t[0]) + Escape(t[1..])
    else if IsSeparator(t) then (if t[2] == 0xA8 then HEX_2028 else HEX_2029) + Escape(t[3..])
    else [t[0]] + Escape(t[1..])
  }

  lemma MarkupFirst(t: Str)
    requires t != [] && IsMarkup(t[0])
    ensures Escape(t) == MarkupEscape(t[0]) + Escape(t[1..])
  {}

  lemma OtherFirst(t: Str)
    requires t != [] && !IsMarkup(t[0]) && !IsSeparator(t)
    ensures Escape(t) == [t[0]] + Escape(t[1..]) && Escape(t)[1..] == Escape(t[1..])
  {}

  lemma SeparatorFirst(t: Str)
    requires IsSeparator(t)
    ensures Escape(t) == (if t[2] == 0xA8 then HEX_2028 else HEX_2029) + Escape(t[3..])
  {}

  // ── nothing unsafe is left ──────────

  predicate SafeAt(t: Str, i: nat)
    requires i < |t|
  {
    !IsMarkup(t[i]) && !IsSeparator(t[i..])
  }

  /** No markup byte and no line separator anywhere. */
  ghost predicate Safe(t: Str) { forall i: nat :: i < |t| ==> SafeAt(t, i) }

  lemma PrependSafe(a: Str, b: Str)
    requires Safe(b) && forall i :: 0 <= i < |a| ==> a[i] < 0x80 && !IsMarkup(a[i])
    ensures Safe(a + b)
  {
    var t := a + b;
    forall i: nat | i < |t| ensures SafeAt(t, i) {
      if i >= |a| {
        assert SafeAt(b, i - |a|);
        assert t[i..] == b[i - |a|..];
      } else {
        assert t[i] == a[i];
      }
    }
  }

  lemma ByteSafe(c: byte, b: Str)
    requires Safe(b) && !IsMarkup(c) && !IsSeparator([c] + b)
    ensures Safe([c] + b)
  {
    var t := [c] + b;
    forall i: nat | i < |t| ensures SafeAt(t, i) {
      if i > 0 {
        assert SafeAt(b, i - 1);
        assert t[i..] == b[i - 1..];
      } else {
        assert t[0..] == t;
      }
    }
  }

  /** The first byte is copied, or becomes a backslash in place of a byte that no
      token outside a string starts with. */
  lemma FirstKept(t: Str)
    ensures t == [] <==> Escape(t) == []
    ensures t != [] && Escape(t)[0] != t[0] ==> Escape(t)[0] == 92 && (IsMarkup(t[0]) || t[0] == 0xE2)
  {}

  /** Escaping makes no separator that was not there. */
  lemma NoNewSeparator(t: Str)
    requires t != [] && !IsMarkup(t[0]) && !IsSeparator(t)
    ensures !IsSeparator([t[0]] + Escape(t[1..]))
  {
    FirstKept(t[1..]);
    if |t| >= 2 && t[1] == 0x80 {
      assert t[1..][1..] == t[2..];
      assert Escape(t[1..]) == [t[1]] + Escape(t[2..]);
      FirstKept(t[2..]);
    }
  }

  /** MAIN: the stored form holds no <, >, & and neither line separator. */
  lemma {:induction false} EscapeIsSafe(t: Str)
    ensures Safe(Escape(t))
  {
    hide IsSeparator, Safe;
    if t == [] {
      NothingSafe();
    } else if IsMarkup(t[0]) {
      EscapeIsSafe(t[1..]);
      PrependSafe(MarkupEscape(t[0]), Escape(t[1..]));
    } else if IsSeparator(t) {
      SeparatorLong(t);
      EscapeIsSafe(t[3..]);
      PrependSafe(if t[2] == 0xA8 then HEX_2028 else HEX_2029, Escape(t[3..]));
    } else {
      EscapeIsSafe(t[1..]);
      NoNewSeparator(t);
      ByteSafe(t[0], Escape(t[1..]));
    }
  }

  lemma NothingSafe()
    ensures Safe([])
  {}

  lemma SeparatorLong(t: Str)
    requires IsSeparator(t)
    ensures |t| >= 3
  {}

  // What is escaped, and the escape: <, >, &, U+2028 and U+2029.
  const ESCAPES: seq<(Str, Str)> := [
    ([0x3C], [92, 117, 48, 48, 51, 99]),
    ([0x3E], [92, 117, 48, 48, 51, 101]),
    ([0x26], [92, 117, 48, 48, 50, 54]),
    ([0xE2, 0x80, 0xA8], [92, 117, 50, 48, 50, 56]),
    ([0xE2, 0x80, 0xA9], [92, 117, 50, 48, 50, 57])]

  /** Safe text is kept, and each unsafe character after it becomes its escape. */
  lemma EscapeIs(a: Str, k: nat, b: Str)
    requires Safe(a) && k < |ESCAPES|
    ensures Escape(a + ESCAPES[k].0 + b) == a + ESCAPES[k].1 + Escape(b)
    ensures Escape(a) == a
  {
    UnsafeFirst(k, b);
    assert ESCAPES[k].0[0] < 0x80 || ESCAPES[k].0[0] == 0xE2;
    hide Escape, Safe;
    EscapeAfter(a, ESCAPES[k].0, ESCAPES[k].1, b);
  }

  lemma {:induction false} EscapeAfter(a: Str, x: Str, e: Str, b: Str)
    requires Safe(a) && x != [] && (x[0] < 0x80 || x[0] == 0xE2) && Escape(x + b) == e + Escape(b)
    ensures Escape(a + x + b) == a + e + Escape(b)
    ensures Escape(a) == a
  {
    hide Escape, Safe, IsSeparator;
    if a == [] {
      assert a + x + b == x + b;
      NothingEscaped();
    } else {
      SafeRest(a);
      EscapeAfter(a[1..], x, e, b);
      NoneAcross(a, x, b);
      var t := a + x + b;
      assert t[0] == a[0] && t[1..] == a[1..] + x + b;
      OtherFirst(t);
      OtherFirst(a);
      assert a == [a[0]] + a[1..];
    }
  }

  predicate SafeFirst(a: Str) { a == [] || (!IsMarkup(a[0]) && !IsSeparator(a)) }

  lemma SafeRest(a: Str)
    requires Safe(a) && a != []
    ensures Safe(a[1..]) && SafeFirst(a)
  {
    assert SafeAt(a, 0) && a[0..] == a;
    forall i: nat | i < |a[1..]| ensures SafeAt(a[1..], i) {
      assert SafeAt(a, i + 1) && a[1..][i..] == a[i + 1..];
    }
  }

  lemma NoneAcross(a: Str, x: Str, b: Str)
    requires SafeFirst(a) && a != [] && x != [] && (x[0] < 0x80 || x[0] == 0xE2)
    ensures !IsSeparator(a + x + b)
  {
    var t := a + x + b;
    assert forall i :: 0 <= i < |a| ==> t[i] == a[i];
    assert t[|a|] == x[0];
  }

  lemma UnsafeFirst(k: nat, b: Str)
    requires k < |ESCAPES|
    ensures Escape(ESCAPES[k].0 + b) == ESCAPES[k].1 + Escape(b)
  {
    var x := ESCAPES[k].0;
    var t := x + b;
    assert forall i :: 0 <= i < |x| ==> t[i] == x[i];
    assert t[|x|..] == b;
  }

  lemma NothingEscaped()
    ensures Escape([]) == []
  {}

  // ── the same JSON ──────────

  /** A byte the escape copies, whatever follows it. */
  predicate Copied(c: byte) { c < 0x80 && !IsMarkup(c) }

  lemma {:induction false} CopiedPrefix(a: Str, b: Str)
    requires forall i :: 0 <= i < |a| ==> Copied(a[i])
    ensures Escape(a + b) == a + Escape(b)
  {
    if a == [] {
      assert a + b == b;
    } else {
      assert (a + b)[1..] == a[1..] + b && (a + b)[0] == a[0];
      CopiedPrefix(a[1..], b);
      assert a == [a[0]] + a[1..];
    }
  }

  lemma CopiedFirst(t: Str)
    requires t != [] && Copied(t[0])
    ensures Escape(t) == [t[0]] + Escape(t[1..]) && Escape(t)[1..] == Escape(t[1..])
  {}

  lemma {:induction false} WsEscape(t: Str)
    ensures Ws(Escape(t)) == Escape(Ws(t))
  {
    FirstKept(t);
    if t != [] && IsWs(t[0]) {
      CopiedFirst(t);
      WsEscape(t[1..]);
    }
  }

  lemma {:induction false} RunEscape(t: Str)
    ensures N.Run(Escape(t)) == N.Run(t)
    ensures Escape(t)[..N.Run(t)] == t[..N.Run(t)] && Escape(t)[N.Run(t)..] == Escape(t[N.Run(t)..])
  {
    FirstKept(t);
    if t != [] && IsDigitByte(t[0]) {
      hide Escape;
      CopiedFirst(t);
      RunEscape(t[1..]);
      OneMore(t, Escape(t), N.Run(t[1..]));
    }
  }

  lemma OneMore(t: Str, w: Str, n: nat)
    requires t != [] && w != [] && t[0] == w[0] && n <= |t[1..]| && n <= |w[1..]| && w[1..][..n] == t[1..][..n]
    ensures w[..1 + n] == t[..1 + n] && w[1..][n..] == w[1 + n..] && t[1..][n..] == t[1 + n..]
  {
    assert t[..1 + n] == [t[0]] + t[1..][..n] && w[..1 + n] == [w[0]] + w[1..][..n];
  }

  lemma WholeEscape(t: Str)
    ensures N.ScanWhole(Escape(t)) ==
      match N.ScanWhole(t) case NoScan => N.NoScan case Scanned(v, rest) => N.Scanned(v, Escape(rest))
  {
    FirstKept(t);
    RunEscape(t);
    if t != [] && IsDigitByte(t[0]) { CopiedFirst(t); }
  }

  lemma FracEscape(t: Str)
    ensures N.ScanFrac(Escape(t)) ==
      match N.ScanFrac(t) case NoScan => N.NoScan case Scanned(v, rest) => N.Scanned(v, Escape(rest))
  {
    FirstKept(t);
    if t != [] && t[0] == N.DOT {
      CopiedFirst(t);
      RunEscape(t[1..]);
    }
  }

  lemma ExpEscape(t: Str)
    ensures N.ScanExp(Escape(t)) ==
      match N.ScanExp(t) case NoScan => N.NoScan case Scanned(v, rest) => N.Scanned(v, Escape(rest))
  {
    FirstKept(t);
    if t != [] && (t[0] == N.LOWER_E || t[0] == N.UPPER_E) {
      CopiedFirst(t);
      var u := t[1..];
      FirstKept(u);
      if u != [] && (u[0] == N.PLUS || u[0] == N.MINUS) {
        CopiedFirst(u);
        SignedExp(t, Escape(t));
      } else {
        UnsignedExp(t, Escape(t));
      }
    }
  }

  predicate IsE(t: Str) { t != [] && (t[0] == N.LOWER_E || t[0] == N.UPPER_E) }

  predicate Signed(u: Str) { u != [] && (u[0] == N.PLUS || u[0] == N.MINUS) }

  lemma SignedExp(t: Str, w: Str)
    requires IsE(t) && IsE(w) && Signed(t[1..]) && Signed(w[1..]) && t[1] == w[1] && w[1..][1..] == Escape(t[1..][1..])
    ensures N.ScanExp(w) ==
      match N.ScanExp(t) case NoScan => N.NoScan case Scanned(v, rest) => N.Scanned(v, Escape(rest))
  {
    RunEscape(t[1..][1..]);
    hide N.Run, IndexValue, Escape;
  }

  lemma UnsignedExp(t: Str, w: Str)
    requires IsE(t) && IsE(w) && !Signed(t[1..]) && !Signed(w[1..]) && w[1..] == Escape(t[1..])
    ensures N.ScanExp(w) ==
      match N.ScanExp(t) case NoScan => N.NoScan case Scanned(v, rest) => N.Scanned(v, Escape(rest))
  {
    RunEscape(t[1..]);
    hide N.Run, IndexValue, Escape;
  }

  lemma NumberEscape(t: Str)
    requires N.ScanNumber(t).Scanned?
    ensures N.ScanNumber(Escape(t)) == N.Scanned(N.ScanNumber(t).value, Escape(N.ScanNumber(t).rest))
  {
    hide N.ScanWhole, N.ScanFrac, N.ScanExp;
    FirstKept(t);
    if t != [] && t[0] == N.MINUS { CopiedFirst(t); }
    var t0 := if t != [] && t[0] == N.MINUS then t[1..] else t;
    WholeEscape(t0);
    var t1 := N.ScanWhole(t0).rest;
    FracEscape(t1);
    ExpEscape(N.ScanFrac(t1).rest);
  }

  // ── strings ──────────

  lemma MarkupStep(c: byte, t: Str, lossless: bool)
    requires IsMarkup(c)
    ensures S.StepOf(MarkupEscape(c) + t, lossless) == S.Emit([c], t)
  {
    var u := MarkupEscape(c) + t;
    assert u[0] == 92 && u[1] == S.U && u[2] == 48 && u[3] == 48;
    assert u[2..][0] == u[2] && u[2..][1] == u[3] && u[2..][2] == u[4] && u[2..][3] == u[5];
    assert S.Hex4(u[2..]) == c;
    assert u[6..] == t;
    assert EncodeRune(c) == [c];
  }

  lemma SeparatorStep(t: Str, rest: Str, lossless: bool)
    requires IsSeparator(t)
    ensures S.StepOf((if t[2] == 0xA8 then HEX_2028 else HEX_2029) + rest, lossless) == S.Emit(t[..3], rest)
  {
    var u := (if t[2] == 0xA8 then HEX_2028 else HEX_2029) + rest;
    assert u[2..][0] == u[2] && u[2..][1] == u[3] && u[2..][2] == u[4] && u[2..][3] == u[5];
    assert S.Hex4(u[2..]) == (if t[2] == 0xA8 then 0x2028 else 0x2029);
    assert u[6..] == rest;
    assert EncodeRune(0x2028) == [0xE2, 0x80, 0xA8] && EncodeRune(0x2029) == [0xE2, 0x80, 0xA9];
    assert t[..3] == [t[0], t[1], t[2]];
  }

  function Moved(u: S.Text): S.Text {
    match u
    case NoText => S.NoText
    case Text(s, rest) => S.Text(s, Escape(rest))
  }

  /** An escape sequence of the text is copied whole. */
  lemma EscapeCopied(t: Str, lossless: bool)
    requires t != [] && t[0] == 92 && S.StepOf(t, lossless).Emit?
    ensures var e := S.StepOf(t, lossless);
      S.StepOf(Escape(t), lossless) == S.Emit(e.out, Escape(e.rest))
  {
    hide Escape, S.UnicodeStep;
    if t[1] == S.U {
      UnicodeCopied(t, lossless);
      StepIsUnicode(t, lossless);
    } else {
      SimpleCopied(t, lossless);
    }
  }

  lemma SimpleCopied(t: Str, lossless: bool)
    requires |t| >= 2 && t[0] == 92 && t[1] != S.U && S.StepOf(t, lossless).Emit?
    ensures var e := S.StepOf(t, lossless);
      S.StepOf(Escape(t), lossless) == S.Emit(e.out, Escape(e.rest))
  {
    CopiedTwo(t, lossless);
    SimpleAlike(t, t, lossless);
    hide Escape, S.StepOf;
    assert t == t[..2] + t[2..];
    CopiedPrefix(t[..2], t[2..]);
    var u := t[..2] + Escape(t[2..]);
    assert u[0] == t[0] && u[1] == t[1] && u[2..] == Escape(t[2..]);
    SimpleAlike(t, u, lossless);
  }

  lemma CopiedTwo(t: Str, lossless: bool)
    requires |t| >= 2 && t[0] == 92 && t[1] != S.U && S.StepOf(t, lossless).Emit?
    ensures Copied(t[0]) && Copied(t[1])
  {
    hide S.UnicodeStep;
  }

  lemma SimpleAlike(t: Str, u: Str, lossless: bool)
    requires |t| >= 2 && |u| >= 2 && t[0] == 92 == u[0] && t[1] == u[1] != S.U && S.StepOf(t, lossless).Emit?
    ensures S.StepOf(u, lossless) == S.Emit(S.StepOf(t, lossless).out, u[2..])
  {
    hide S.UnicodeStep;
  }

  lemma HexCopied(t: Str)
    requires S.UnicodeEscape(t)
    ensures |t| >= 6 && |Escape(t)| >= 6
    ensures Escape(t) == t[..6] + Escape(t[6..])
    ensures S.UnicodeEscape(Escape(t)) && S.Hex4(Escape(t)[2..]) == S.Hex4(t[2..]) && Escape(t)[6..] == Escape(t[6..])
  {
    W.HexAscii(t);
    var h := t[2..];
    assert t[2] == h[0] && t[3] == h[1] && t[4] == h[2] && t[5] == h[3];
    assert S.HexVal(h[0]) >= 0 && S.HexVal(h[1]) >= 0 && S.HexVal(h[2]) >= 0 && S.HexVal(h[3]) >= 0;
    assert forall i :: 0 <= i < 6 ==> Copied(t[..6][i]);
    assert t == t[..6] + t[6..];
    CopiedPrefix(t[..6], t[6..]);
    var g := Escape(t)[2..];
    assert g[0] == h[0] && g[1] == h[1] && g[2] == h[2] && g[3] == h[3];
  }

  lemma MarkupNotLow(t: Str)
    requires t != [] && IsMarkup(t[0])
    ensures !S.LowEscape(Escape(t))
  {
    MarkupStep(t[0], Escape(t[1..]), false);
    assert Escape(t)[2..][0] == 48 && Escape(t)[2..][1] == 48;
  }

  lemma SeparatorNotLow(t: Str)
    requires IsSeparator(t)
    ensures !S.LowEscape(Escape(t))
  {
    assert Escape(t)[2..][0] == 50 && Escape(t)[2..][1] == 48;
  }

  /** A low escape stands first before escaping exactly when one does after. */
  lemma LowKept(t: Str)
    ensures S.LowEscape(Escape(t)) <==> S.LowEscape(t)
  {
    hide S.Hex4;
    if t == [] {
    } else if IsMarkup(t[0]) {
      MarkupNotLow(t);
    } else if IsSeparator(t) {
      SeparatorNotLow(t);
    } else if S.LowEscape(t) {
      HexCopied(t);
    } else if S.LowEscape(Escape(t)) {
      W.HexAscii(Escape(t));
      HexPlain(Escape(t));
      TailBack(t, 6);
      SameHex(t, Escape(t));
    }
  }

  lemma HexPlain(u: Str)
    requires S.UnicodeEscape(u)
    ensures forall i :: 0 < i < 6 ==> u[i] != 92
  {
    var h := u[2..];
    assert u[2] == h[0] && u[3] == h[1] && u[4] == h[2] && u[5] == h[3];
  }

  lemma SameHex(t: Str, u: Str)
    requires |t| >= 6 && |u| >= 6 && t[..6] == u[..6]
    ensures t[0] == u[0] && t[1] == u[1] && S.Hex4(t[2..]) == S.Hex4(u[2..])
  {
    assert forall i :: 0 <= i < 6 ==> t[i] == t[..6][i] && u[i] == u[..6][i];
    var g, h := t[2..], u[2..];
    assert g[0] == h[0] && g[1] == h[1] && g[2] == h[2] && g[3] == h[3];
  }

  /** Plain bytes at the front of the escaped text are the text's own. */
  lemma {:induction false} TailBack(t: Str, k: nat)
    requires k <= |Escape(t)| && forall i :: 0 < i < k ==> Escape(t)[i] != 92
    requires t != [] && !IsMarkup(t[0]) && !IsSeparator(t)
    ensures k <= |t| && Escape(t)[..k] == t[..k]
  {
    if k > 1 {
      assert Escape(t) == [t[0]] + Escape(t[1..]);
      var u := t[1..];
      FirstKept(u);
      assert Escape(u)[0] == Escape(t)[1] != 92;
      assert forall i :: 0 < i < k - 1 ==> Escape(u)[i] == Escape(t)[i + 1];
      assert !IsMarkup(u[0]) && !IsSeparator(u);
      TailBack(u, k - 1);
      assert Escape(t)[..k] == [t[0]] + Escape(u)[..k - 1] && t[..k] == [t[0]] + u[..k - 1];
    }
  }

  lemma EmittedEscape(t: Str, lossless: bool)
    requires |t| >= 2 && t[0] == 92 && t[1] == S.U && S.UnicodeStep(t, lossless).Emit?
    ensures S.UnicodeEscape(t)
  {
    hide S.Hex4, EncodeRune, S.Triple, S.LowEscape;
  }

  lemma StepIsUnicode(u: Str, lossless: bool)
    requires |u| >= 2 && u[0] == 92 && u[1] == S.U
    ensures S.StepOf(u, lossless) == S.UnicodeStep(u, lossless)
  {
    hide S.UnicodeStep;
  }

  lemma StepsAlike(t: Str, u: Str, lossless: bool)
    requires S.UnicodeEscape(t) && S.UnicodeEscape(u) && S.Hex4(t[2..]) == S.Hex4(u[2..])
    requires u[6..] == Escape(t[6..]) && (S.LowEscape(u[6..]) <==> S.LowEscape(t[6..]))
    requires S.LowEscape(t[6..]) ==> |t| >= 12 && |u| >= 12
    requires S.LowEscape(t[6..]) ==> S.Hex4(u[8..]) == S.Hex4(t[8..]) && u[12..] == Escape(t[12..])
    ensures var e := S.UnicodeStep(t, lossless);
      e.Emit? && S.UnicodeStep(u, lossless) == S.Emit(e.out, Escape(e.rest))
  {
    hide S.Hex4, EncodeRune, S.Triple, S.LowEscape, Escape;
  }

  lemma UnicodeCopied(t: Str, lossless: bool)
    requires |t| >= 2 && t[0] == 92 && t[1] == S.U && S.UnicodeStep(t, lossless).Emit?
    ensures var e := S.UnicodeStep(t, lossless);
      S.StepOf(Escape(t), lossless) == S.Emit(e.out, Escape(e.rest))
  {
    hide *;
    EmittedEscape(t, lossless);
    HexCopied(t);
    LowKept(t[6..]);
    if S.LowEscape(t[6..]) { PairCopied(t); }
    var u := Escape(t);
    StepsAlike(t, u, lossless);
    UnicodeStart(u);
    StepIsUnicode(u, lossless);
  }

  lemma UnicodeStart(u: Str)
    requires S.UnicodeEscape(u)
    ensures |u| >= 6 && u[0] == 92 && u[1] == S.U
  {}

  lemma PairCopied(t: Str)
    requires S.UnicodeEscape(t) && |t| >= 6 && S.LowEscape(t[6..])
    ensures |t| >= 12
    ensures |Escape(t)| >= 12 && S.Hex4(Escape(t)[8..]) == S.Hex4(t[8..]) && Escape(t)[12..] == Escape(t[12..])
  {
    hide S.Hex4, Escape;
    HexCopied(t);
    HexCopied(t[6..]);
    var u := Escape(t);
    assert u[6..][2..] == u[8..] && u[6..][6..] == u[12..];
    assert t[6..][2..] == t[8..] && t[6..][6..] == t[12..];
  }
}
