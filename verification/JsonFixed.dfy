/** Parsed values, printed bytes and canonical forms: the fixed points of the codec. */
module JsonFixed {
  import opened JsonValue
  import opened Utf8
  import opened JsOrder
  import opened JsonText
  import opened JsonWtf8
  import opened JsonRoundTrip
  import N = JsonNumber
  import S = JsonString

  /** strconv's contract: the shortest digits of a double read as that double again. */
  ghost predicate Rounding(mode: Mode) {
    && Zeroes(mode)
    && forall n {:trigger mode.round(n)} :: Canonical(n) ==>
      Canonical(mode.round(n)) && (mode.round(n).Dec? ==> mode.round(mode.round(n)) == mode.round(n))
  }

  // ── what parsing can give ──────────

  /** Lossless input is decoded first, so it is valid UTF-8. */
  predicate Readable(t: Str, mode: Mode) { mode.lossless ==> Valid(t) }

  lemma Dropped(t: Str, rest: Str, k: nat, mode: Mode)
    requires Readable(t, mode) && k <= |t| && rest == t[k..] && forall i :: 0 <= i < k ==> t[i] < 0x80
    ensures Readable(rest, mode)
  {
    if mode.lossless { DropAscii(t, k); }
  }

  lemma {:induction false} WsReadable(t: Str, mode: Mode)
    requires Readable(t, mode)
    ensures Readable(Ws(t), mode)
  {
    if t != [] && IsWs(t[0]) {
      Dropped(t, t[1..], 1, mode);
      WsReadable(t[1..], mode);
    }
  }

  lemma DigitRun(t: Str, mode: Mode)
    requires Readable(t, mode)
    ensures Readable(t[N.Run(t)..], mode)
  {
    var n := N.Run(t);
    assert forall i :: 0 <= i < n ==> t[i] == t[..n][i] && IsDigitByte(t[..n][i]);
    Dropped(t, t[n..], n, mode);
  }

  lemma NumberReadable(t: Str, mode: Mode)
    requires Readable(t, mode) && N.ScanNumber(t).Scanned?
    ensures Readable(N.ScanNumber(t).rest, mode)
  {
    hide Readable, N.Run;
    var t0 := if t != [] && t[0] == N.MINUS then t[1..] else t;
    if t0 != t { Dropped(t, t0, 1, mode); }
    var w := N.ScanWhole(t0);
    DigitRun(t0, mode);
    if t0[0] == ZERO { Dropped(t0, t0[1..], 1, mode); }
    FracReadable(w.rest, mode);
    ExpReadable(N.ScanFrac(w.rest).rest, mode);
  }

  lemma FracReadable(t: Str, mode: Mode)
    requires Readable(t, mode) && N.ScanFrac(t).Scanned?
    ensures Readable(N.ScanFrac(t).rest, mode)
  {
    hide Readable, N.Run;
    if t != [] && t[0] == N.DOT {
      Dropped(t, t[1..], 1, mode);
      DigitRun(t[1..], mode);
    }
  }

  lemma ExpReadable(t: Str, mode: Mode)
    requires Readable(t, mode) && N.ScanExp(t).Scanned?
    ensures Readable(N.ScanExp(t).rest, mode)
  {
    hide Readable, N.Run;
    if t != [] && (t[0] == N.LOWER_E || t[0] == N.UPPER_E) {
      Dropped(t, t[1..], 1, mode);
      var u := t[1..];
      if u != [] && (u[0] == N.PLUS || u[0] == N.MINUS) {
        Dropped(u, u[1..], 1, mode);
        DigitRun(u[1..], mode);
      } else {
        DigitRun(u, mode);
      }
    }
  }

  lemma TextReadable(t: Str, mode: Mode)
    requires Readable(t, mode) && StartsWith(t, S.QUOTE) && S.ParseText(t[1..], mode.lossless).Text?
    ensures var u := S.ParseText(t[1..], mode.lossless); Storable(u.s, mode.lossless) && Readable(u.rest, mode)
  {
    Dropped(t, t[1..], 1, mode);
    ReadIsStorable(t[1..], mode.lossless);
  }

  lemma WordReadable(t: Str, mode: Mode)
    requires Readable(t, mode)
    ensures TRUE_TEXT <= t ==> Readable(t[4..], mode)
    ensures FALSE_TEXT <= t ==> Readable(t[5..], mode)
    ensures NULL_TEXT <= t ==> Readable(t[4..], mode)
  {
    if TRUE_TEXT <= t { Dropped(t, t[4..], 4, mode); }
    if FALSE_TEXT <= t { Dropped(t, t[5..], 5, mode); }
    if NULL_TEXT <= t { Dropped(t, t[4..], 4, mode); }
  }

  /** v is a value the mode can hold, standing at depth d; what is left is readable. */
  ghost predicate Sound(r: Parsed<Json>, d: nat, mode: Mode) {
    r.Scanned? ==> Held(r.value, mode) && Fits(r.value, d) && Readable(r.rest, mode)
  }

  lemma {:induction false} ValueSound(t: Str, d: nat, mode: Mode)
    requires Readable(t, mode) && Rounding(mode)
    ensures Sound(ParseValue(t, d, mode), d, mode)
    decreases |t|, 1
  {
    hide Readable, Rounding, Storable, N.ScanNumber, N.Denote, S.ParseText, ParseElems, ParseMembers, Ws;
    if d <= MAX_DEPTH && t != [] {
      if t[0] == OPEN_BRACE {
        ObjectSound(t, d, mode);
      } else if t[0] == OPEN_BRACKET {
        ArraySound(t, d, mode);
      } else if t[0] == S.QUOTE {
        if S.ParseText(t[1..], mode.lossless).Text? { TextReadable(t, mode); }
      } else if t[0] == N.MINUS || IsDigitByte(t[0]) {
        NumberSound(t, d, mode);
      } else {
        WordReadable(t, mode);
      }
    }
  }

  lemma NumberSound(t: Str, d: nat, mode: Mode)
    requires Readable(t, mode) && Rounding(mode) && d <= MAX_DEPTH && t != [] && (t[0] == N.MINUS || IsDigitByte(t[0]))
    ensures Sound(ParseValue(t, d, mode), d, mode)
  {
    hide Readable, N.ScanNumber;
    if N.ScanNumber(t).Scanned? { NumberReadable(t, mode); }
  }

  lemma {:induction false} ArraySound(t: Str, d: nat, mode: Mode)
    requires Readable(t, mode) && Rounding(mode) && d <= MAX_DEPTH && StartsWith(t, OPEN_BRACKET)
    ensures Sound(ParseValue(t, d, mode), d, mode)
    decreases |t|, 0
  {
    hide Readable, Rounding, ParseElems, Ws;
    Dropped(t, t[1..], 1, mode);
    WsReadable(t[1..], mode);
    var u := Ws(t[1..]);
    if StartsWith(u, CLOSE_BRACKET) {
      Dropped(u, u[1..], 1, mode);
    } else {
      ElemsSound(u, d, mode, []);
    }
  }

  ghost predicate GoodElems(es: seq<Json>, d: nat, mode: Mode) {
    forall e :: e in es ==> Held(e, mode) && Fits(e, d)
  }

  lemma {:induction false} ElemsSound(t: Str, d: nat, mode: Mode, es: seq<Json>)
    requires Readable(t, mode) && Rounding(mode) && d <= MAX_DEPTH && GoodElems(es, d + 1, mode)
    ensures Sound(ParseElems(t, d, mode, es), d, mode)
    decreases |t|, 2
  {
    hide Readable, Rounding, Ws, ParseValue;
    WsReadable(t, mode);
    ValueSound(Ws(t), d + 1, mode);
    var r := ParseValue(Ws(t), d + 1, mode);
    if r.Scanned? {
      WsReadable(r.rest, mode);
      var u := Ws(r.rest);
      if u != [] && (u[0] == COMMA || u[0] == CLOSE_BRACKET) {
        Dropped(u, u[1..], 1, mode);
        assert GoodElems(es + [r.value], d + 1, mode);
        if u[0] == COMMA { ElemsSound(u[1..], d, mode, es + [r.value]); }
      }
    }
  }

  ghost predicate GoodMembers(ms: seq<Member>, d: nat, mode: Mode) {
    UniqueKeys(ms) && forall m :: m in ms ==> Storable(m.key, mode.lossless) && Held(m.value, mode) && Fits(m.value, d)
  }

  lemma {:induction false} ObjectSound(t: Str, d: nat, mode: Mode)
    requires Readable(t, mode) && Rounding(mode) && d <= MAX_DEPTH && StartsWith(t, OPEN_BRACE)
    ensures Sound(ParseValue(t, d, mode), d, mode)
    decreases |t|, 0
  {
    hide Readable, Rounding, ParseMembers, Ws;
    Dropped(t, t[1..], 1, mode);
    WsReadable(t[1..], mode);
    var u := Ws(t[1..]);
    if StartsWith(u, CLOSE_BRACE) {
      Dropped(u, u[1..], 1, mode);
    } else {
      MembersSound(u, d, mode, []);
    }
  }

  lemma KeySound(t: Str, mode: Mode)
    requires Readable(t, mode)
    ensures var r := ParseKey(t, mode); r.Scanned? ==> Storable(r.value, mode.lossless) && Readable(r.rest, mode)
  {
    hide Readable, Ws, S.ParseText, Storable;
    if ParseKey(t, mode).Scanned? {
      TextReadable(t, mode);
      var rest := S.ParseText(t[1..], mode.lossless).rest;
      WsReadable(rest, mode);
      Dropped(Ws(rest), Ws(rest)[1..], 1, mode);
      WsReadable(Ws(rest)[1..], mode);
    }
  }

  /** Object.Set keeps keys distinct and values good. */
  lemma {:induction false} PutKeeps(ms: seq<Member>, k: Str, v: Json)
    requires UniqueKeys(ms)
    ensures UniqueKeys(Put(ms, k, v))
    ensures forall m :: m in Put(ms, k, v) ==> m == Member(k, v) || m in ms
    ensures forall o :: o != k && NoKey(ms, o) ==> NoKey(Put(ms, k, v), o)
  {
    if ms != [] && ms[0].key != k {
      PutKeeps(ms[1..], k, v);
      assert NoKey(ms[1..], ms[0].key);
      assert NoKey(Put(ms[1..], k, v), ms[0].key);
      forall o | o != k && NoKey(ms, o) ensures NoKey(Put(ms, k, v), o) {
        assert ms[0].key != o;
        assert NoKey(ms[1..], o);
      }
    }
  }

  lemma GoodPut(ms: seq<Member>, k: Str, v: Json, d: nat, mode: Mode)
    requires GoodMembers(ms, d, mode) && Storable(k, mode.lossless) && Held(v, mode) && Fits(v, d)
    ensures GoodMembers(Put(ms, k, v), d, mode)
  {
    hide Storable, Held, Fits, Put;
    PutKeeps(ms, k, v);
  }

  lemma {:induction false} MembersSound(t: Str, d: nat, mode: Mode, ms: seq<Member>)
    requires Readable(t, mode) && Rounding(mode) && d <= MAX_DEPTH && GoodMembers(ms, d + 1, mode)
    ensures Sound(ParseMembers(t, d, mode, ms), d, mode)
    decreases |t|, 2
  {
    hide Readable, Rounding, Ws, ParseValue, ParseKey, Put, Storable;
    WsReadable(t, mode);
    KeySound(Ws(t), mode);
    var key := ParseKey(Ws(t), mode);
    if key.Scanned? {
      ValueSound(key.rest, d + 1, mode);
      var r := ParseValue(key.rest, d + 1, mode);
      if r.Scanned? {
        WsReadable(r.rest, mode);
        var u := Ws(r.rest);
        if u != [] && (u[0] == COMMA || u[0] == CLOSE_BRACE) {
          Dropped(u, u[1..], 1, mode);
          GoodPut(ms, key.value, r.value, d + 1, mode);
          if u[0] == COMMA { MembersSound(u[1..], d, mode, Put(ms, key.value, r.value)); }
        }
      }
    }
  }

  /** MAIN: whatever the text, a parsed value is one its mode can hold: unique keys,
      storable strings (no lone high surrogate before a lone low one), and depth within bounds. */
  lemma ParseGives(t: Str, mode: Mode)
    requires Readable(t, mode) && Rounding(mode)
    ensures var r := ParseDoc(t, mode);
      r.Some? ==> Held(r.value, mode) && Fits(r.value, 0)
  {
    hide Readable, Rounding, ParseValue, Held, Fits;
    WsReadable(t, mode);
    ValueSound(Ws(t), 0, mode);
  }

  // ── canonical form is a fixed point ──────────

  ghost predicate Settled(v: Json)
    requires CanonicalNumbers(v)
  {
    && CanonicalNumbers(Canon(v))
    && Print(Canon(v)) == Print(v)
    && Canon(Canon(v)) == Canon(v)
  }

  lemma {:induction false} CanonSettles(v: Json, mode: Mode)
    requires CanonicalNumbers(v) && Held(v, mode)
    ensures Settled(v)
    decreases v
  {
    hide S.WriteString, Storable, Enumerate, PrintElems, PrintMembers, CanonElems, CanonMembers;
    match v
    case Array(es) => ElemsSettle(es, mode);
    case Object(ms) => ObjectSettles(v, mode);
    case Number(n) => NegativeZeroText();
    case _ =>
  }

  lemma {:induction false} ElemsSettle(es: seq<Json>, mode: Mode)
    requires forall e :: e in es ==> CanonicalNumbers(e) && Held(e, mode)
    ensures forall e :: e in CanonElems(es) ==> CanonicalNumbers(e)
    ensures PrintElems(CanonElems(es)) == PrintElems(es) && CanonElems(CanonElems(es)) == CanonElems(es)
    decreases es
  {
    hide Print, Canon, CanonicalNumbers, Held;
    if es != [] {
      CanonSettles(es[0], mode);
      ElemsSettle(es[1..], mode);
      var r := CanonElems(es);
      assert r[0] == Canon(es[0]) && r[1..] == CanonElems(es[1..]);
      assert forall e :: e in r ==> e == r[0] || e in r[1..];
    }
  }

  lemma {:induction false} MembersCanonical(v: Json, ms: seq<Member>, mode: Mode)
    requires PartsOf(ms, v) && forall m :: m in ms ==> Held(m.value, mode)
    ensures forall m :: m in CanonMembers(v, ms) ==> CanonicalNumbers(m.value)
    decreases v, 1, |ms|
  {
    hide Print, Canon, CanonicalNumbers, Held;
    if ms != [] {
      assert ms[0] in ms;
      CanonSettles(ms[0].value, mode);
      MembersCanonical(v, ms[1..], mode);
    }
  }

  lemma PrintFirst(v: Json, ms: seq<Member>)
    requires ms != [] && PartsOf(ms, v)
    ensures CanonicalNumbers(ms[0].value) && PartsOf(ms[1..], v)
    ensures var w := S.WriteString(ms[0].key) + [COLON] + Print(ms[0].value);
      PrintMembers(v, ms) == if |ms| == 1 then w else w + [COMMA] + PrintMembers(v, ms[1..])
  {
    hide Print, S.WriteString, CanonicalNumbers;
    assert ms[0] in ms;
  }

  lemma {:induction false} MembersSettle(v: Json, c: Json, ms: seq<Member>, mode: Mode)
    requires PartsOf(ms, v) && forall m :: m in ms ==> Held(m.value, mode)
    requires PartsOf(CanonMembers(v, ms), c)
    ensures PrintMembers(c, CanonMembers(v, ms)) == PrintMembers(v, ms)
    ensures CanonMembers(c, CanonMembers(v, ms)) == CanonMembers(v, ms)
    decreases v, 1, |ms|
  {
    hide Print, Canon, CanonicalNumbers, Held, S.WriteString, PrintMembers, CanonMembers, PartsOf;
    if ms == [] {
      EmptyTexts(v);
      EmptyTexts(c);
    } else {
      var r := CanonMembers(v, ms);
      CanonFirst(v, ms);
      assert r[1..] == CanonMembers(v, ms[1..]);
      CanonFirst(c, r);
      PrintFirst(v, ms);
      PrintFirst(c, r);
      assert ms[0] in ms && forall m :: m in ms[1..] ==> m in ms;
      HeadSmaller(v, ms);
      CanonSettles(ms[0].value, mode);
      MembersSettle(v, c, ms[1..], mode);
    }
  }

  lemma HeadSmaller(v: Json, ms: seq<Member>)
    requires ms != [] && PartsOf(ms, v)
    ensures ms[0].value < v
  {
    assert ms[0] in ms;
  }

  lemma SameOrder(r: seq<Member>, ms: seq<Member>)
    requires |r| == |ms| && (forall i :: 0 <= i < |ms| ==> r[i].key == ms[i].key) && InJsOrder(ms)
    ensures InJsOrder(r)
  {
    hide IsArrayIndex, Rank;
  }

  lemma {:induction false} ObjectSettles(v: Json, mode: Mode)
    requires v.Object? && CanonicalNumbers(v) && Held(v, mode)
    ensures Settled(v)
    decreases v, 2
  {
    hide Enumerate, Storable, IsArrayIndex, CanonMembers, PrintMembers, Held, InJsOrder;
    MembersArePartsOf(v);
    HeldMembers(v, mode);
    EnumerateKeeps(v.members);
    EnumerateOrdered(v.members);
    var ms := Enumerate(v.members);
    var r := CanonMembers(v, ms);
    var c := Object(r);
    assert Canon(v) == c;
    MembersCanonical(v, ms, mode);
    assert CanonicalNumbers(c);
    SameOrder(r, ms);
    EnumerateFixed(r);
    MembersArePartsOf(c);
    MembersSettle(v, c, ms, mode);
  }

  lemma HeldMembers(v: Json, mode: Mode)
    requires v.Object? && Held(v, mode)
    ensures UniqueKeys(v.members) && forall m :: m in v.members ==> Held(m.value, mode)
  {}

  /** MAIN: canonical form prints the same bytes and is its own canonical form, so
      printed bytes are a fixed point of parse-then-print. */
  lemma PrintedIsFixed(v: Json, mode: Mode)
    requires Held(v, mode) && Fits(v, 0) && Zeroes(mode)
    ensures CanonicalNumbers(v) && CanonicalNumbers(Canon(v))
    ensures ParseDoc(Print(v), mode) == Some(Canon(v))
    ensures Print(Canon(v)) == Print(v) && Canon(Canon(v)) == Canon(v)
  {
    hide Held, Fits, Zeroes, Print, Canon, ParseDoc;
    HeldCanonical(v, mode);
    ParsePrint(v, mode);
    CanonSettles(v, mode);
  }

  /** MAIN: any text that parses can be printed and parsed again to the same value,
      up to what printing forgets. */
  lemma ReparsePrinted(t: Str, mode: Mode)
    requires Readable(t, mode) && Rounding(mode) && ParseDoc(t, mode).Some?
    ensures var v := ParseDoc(t, mode).value;
      && CanonicalNumbers(v) && CanonicalNumbers(Canon(v))
      && ParseDoc(Print(v), mode) == Some(Canon(v))
      && Print(Canon(v)) == Print(v)
  {
    hide Readable, Held, Fits, Print, Canon, ParseDoc;
    ParseGives(t, mode);
    PrintedIsFixed(ParseDoc(t, mode).value, mode);
  }
}
