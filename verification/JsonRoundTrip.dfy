/** JSON.parse of JSON.stringify: what comes back, and exactly when. */
module JsonRoundTrip {
  import opened JsonValue
  import opened Utf8
  import opened JsOrder
  import opened JsonText
  import opened JsonWtf8
  import N = JsonNumber
  import S = JsonString

  /** A value the parser's mode can hold: doubles, storable strings, no repeated key. */
  ghost predicate Held(v: Json, mode: Mode) {
    match v
    case Number(n) => Canonical(n) && (n.Dec? ==> mode.round(n) == n)
    case String(s) => Storable(s, mode.lossless)
    case Array(es) => forall e :: e in es ==> Held(e, mode)
    case Object(ms) => UniqueKeys(ms) && forall m :: m in ms ==> Storable(m.key, mode.lossless) && Held(m.value, mode)
    case _ => true
  }

  /** No part of v, standing at depth d, lies deeper than the parser goes. */
  ghost predicate Fits(v: Json, d: nat) {
    && d <= MAX_DEPTH
    && (v.Array? ==> forall e :: e in v.elems ==> Fits(e, d + 1))
    && (v.Object? ==> forall m :: m in v.members ==> Fits(m.value, d + 1))
  }

  /** What printing forgets: the sign of zero, infinities, and insertion order
      among and around array-index keys. */
  function Canon(v: Json): Json
    requires CanonicalNumbers(v)
    decreases v
  {
    match v
    case Number(n) => if n.Inf? then Null else if n.Zero? then Number(Zero(false)) else v
    case Array(es) => Array(CanonElems(es))
    case Object(ms) =>
      MembersArePartsOf(v);
      Object(CanonMembers(v, Enumerate(ms)))
    case _ => v
  }

  function CanonElems(es: seq<Json>): (r: seq<Json>)
    requires forall e :: e in es ==> CanonicalNumbers(e)
    ensures |r| == |es|
    decreases es
  {
    if es == [] then [] else [Canon(es[0])] + CanonElems(es[1..])
  }

  function CanonMembers(ghost v: Json, ms: seq<Member>): (r: seq<Member>)
    requires PartsOf(ms, v)
    ensures |r| == |ms| && forall i :: 0 <= i < |ms| ==> r[i].key == ms[i].key
    decreases v, 1, |ms|
  {
    if ms == [] then []
    else
      assert ms[0] in ms;
      [Member(ms[0].key, Canon(ms[0].value))] + CanonMembers(v, ms[1..])
  }

  ghost predicate Zeroes(mode: Mode) { mode.round(Zero(false)) == Zero(false) }

  lemma {:induction false} HeldCanonical(v: Json, mode: Mode)
    requires Held(v, mode)
    ensures CanonicalNumbers(v)
  {
    match v
    case Array(es) => forall e | e in es ensures CanonicalNumbers(e) { HeldCanonical(e, mode); }
    case Object(ms) => forall m | m in ms ensures CanonicalNumbers(m.value) { HeldCanonical(m.value, mode); }
    case _ =>
  }

  // ── first bytes ──────────

  predicate Plain(t: Str) { t != [] && !IsWs(t[0]) && t[0] != CLOSE_BRACKET && t[0] != CLOSE_BRACE }

  lemma NumberFirst(n: Num)
    requires Canonical(n) && !n.Inf?
    ensures Plain(N.FormatNumber(n))
  {
    hide N.FormatNumber, N.ScanNumber, N.Denote;
    NegativeZeroText();
    N.FormatScans(if n.Zero? then Zero(false) else n, []);
  }

  lemma Quoted(s: Str)
    ensures S.WriteString(s) != [] && S.WriteString(s)[0] == S.QUOTE
  {}

  lemma FirstByte(v: Json)
    requires CanonicalNumbers(v)
    ensures Plain(Print(v))
  {
    hide N.FormatNumber, S.WriteString, PrintElems, PrintMembers, Enumerate;
    match v
    case Number(n) => if !n.Inf? { NumberFirst(n); }
    case String(s) => Quoted(s);
    case Array(_) => assert Print(v)[0] == OPEN_BRACKET;
    case Object(_) => assert Print(v)[0] == OPEN_BRACE;
    case _ =>
  }

  lemma NegativeZeroText()
    ensures N.FormatNumber(Zero(true)) == N.FormatNumber(Zero(false)) == [ZERO]
  {}

  // ── one turn of each loop ──────────

  lemma ElemMore(t: Str, v: Json, rest: Str, d: nat, mode: Mode, es: seq<Json>)
    requires Plain(t) && ParseValue(t, d + 1, mode) == N.Scanned(v, [COMMA] + rest)
    ensures ParseElems(t, d, mode, es) == ParseElems(rest, d, mode, es + [v])
  {
    assert ([COMMA] + rest)[1..] == rest;
  }

  lemma ElemLast(t: Str, v: Json, rest: Str, d: nat, mode: Mode, es: seq<Json>)
    requires Plain(t) && ParseValue(t, d + 1, mode) == N.Scanned(v, [CLOSE_BRACKET] + rest)
    ensures ParseElems(t, d, mode, es) == N.Scanned(Array(es + [v]), rest)
  {
    assert ([CLOSE_BRACKET] + rest)[1..] == rest;
  }

  lemma KeyReads(k: Str, rest: Str, mode: Mode)
    requires Storable(k, mode.lossless) && Plain(rest)
    ensures ParseKey(S.WriteString(k) + ([COLON] + rest), mode) == N.Scanned(k, rest)
  {
    hide S.WriteString, S.ParseText;
    var w, tail := S.WriteString(k), [COLON] + rest;
    WriteThenRead(k, tail, mode.lossless);
    assert (w + tail)[1..] == w[1..] + tail;
    assert tail[1..] == rest;
  }

  lemma MemberMore(t: Str, k: Str, t1: Str, v: Json, rest: Str, d: nat, mode: Mode, ms: seq<Member>)
    requires Plain(t) && ParseKey(t, mode) == N.Scanned(k, t1)
    requires ParseValue(t1, d + 1, mode) == N.Scanned(v, [COMMA] + rest)
    ensures ParseMembers(t, d, mode, ms) == ParseMembers(rest, d, mode, Put(ms, k, v))
  {
    hide ParseKey;
    assert ([COMMA] + rest)[1..] == rest;
  }

  lemma MemberLast(t: Str, k: Str, t1: Str, v: Json, rest: Str, d: nat, mode: Mode, ms: seq<Member>)
    requires Plain(t) && ParseKey(t, mode) == N.Scanned(k, t1)
    requires ParseValue(t1, d + 1, mode) == N.Scanned(v, [CLOSE_BRACE] + rest)
    ensures ParseMembers(t, d, mode, ms) == N.Scanned(Object(Put(ms, k, v)), rest)
  {
    hide ParseKey;
    assert ([CLOSE_BRACE] + rest)[1..] == rest;
  }

  lemma MemberFails(t: Str, k: Str, t1: Str, d: nat, mode: Mode, ms: seq<Member>)
    requires Plain(t) && ParseKey(t, mode) == N.Scanned(k, t1)
    requires ParseValue(t1, d + 1, mode) == N.NoScan
    ensures ParseMembers(t, d, mode, ms) == N.NoScan
  {
    hide ParseKey;
  }

  // ── leaves ──────────

  lemma NumberReads(n: Num, rest: Str, d: nat, mode: Mode)
    requires Held(Number(n), mode) && Zeroes(mode) && N.EndsNumber(rest) && d <= MAX_DEPTH && !n.Inf?
    ensures ParseValue(N.FormatNumber(n) + rest, d, mode) == N.Scanned(Canon(Number(n)), rest)
  {
    hide N.FormatNumber, N.ScanNumber, N.Denote;
    var m := if n.Zero? then Zero(false) else n;
    NegativeZeroText();
    N.FormatScans(m, rest);
    assert (N.FormatNumber(m) + rest)[0] == N.FormatNumber(m)[0];
  }

  lemma StringReads(s: Str, rest: Str, d: nat, mode: Mode)
    requires Storable(s, mode.lossless) && d <= MAX_DEPTH
    ensures ParseValue(S.WriteString(s) + rest, d, mode) == N.Scanned(String(s), rest)
  {
    hide S.WriteString, S.ParseText;
    WriteThenRead(s, rest, mode.lossless);
    assert (S.WriteString(s) + rest)[1..] == S.WriteString(s)[1..] + rest;
  }

  lemma WordReads(rest: Str, d: nat, mode: Mode)
    requires d <= MAX_DEPTH
    ensures ParseValue(NULL_TEXT + rest, d, mode) == N.Scanned(Null, rest)
    ensures ParseValue(TRUE_TEXT + rest, d, mode) == N.Scanned(Bool(true), rest)
    ensures ParseValue(FALSE_TEXT + rest, d, mode) == N.Scanned(Bool(false), rest)
  {
    assert (NULL_TEXT + rest)[4..] == rest && (TRUE_TEXT + rest)[4..] == rest && (FALSE_TEXT + rest)[5..] == rest;
  }

  // ── the round trip ──────────

  ghost predicate AllFit(es: seq<Json>, d: nat) { forall e :: e in es ==> Fits(e, d) }

  ghost predicate MembersFit(ms: seq<Member>, d: nat) { forall m :: m in ms ==> Fits(m.value, d) }

  /** A printed value followed by anything that ends a number is read back in
      canonical form, or refused exactly when it nests too deeply. */
  lemma {:induction false} PrintReads(v: Json, rest: Str, d: nat, mode: Mode)
    requires CanonicalNumbers(v) && Held(v, mode) && Zeroes(mode) && N.EndsNumber(rest)
    ensures ParseValue(Print(v) + rest, d, mode) == if Fits(v, d) then N.Scanned(Canon(v), rest) else N.NoScan
    decreases v
  {
    hide N.EndsNumber, N.FormatNumber, S.WriteString, Storable, Zeroes, ParseElems, ParseMembers, PrintElems;
    hide PrintMembers;
    if d <= MAX_DEPTH {
      match v
      case Null => WordReads(rest, d, mode);
      case Bool(_) => WordReads(rest, d, mode);
      case Number(n) => if n.Inf? { WordReads(rest, d, mode); } else { NumberReads(n, rest, d, mode); }
      case String(s) => StringReads(s, rest, d, mode);
      case Array(es) => ArrayReads(v, rest, d, mode);
      case Object(ms) => ObjectReads(v, rest, d, mode);
    }
  }

  lemma {:induction false} ArrayReads(v: Json, rest: Str, d: nat, mode: Mode)
    requires v.Array? && CanonicalNumbers(v) && Held(v, mode) && Zeroes(mode) && d <= MAX_DEPTH
    ensures ParseValue(Print(v) + rest, d, mode) == if Fits(v, d) then N.Scanned(Canon(v), rest) else N.NoScan
    decreases v, 0
  {
    hide ParseElems, PrintElems, Zeroes, CanonElems;
    var body := PrintElems(v.elems) + [CLOSE_BRACKET] + rest;
    var t := Print(v) + rest;
    assert t[0] == OPEN_BRACKET && t[1..] == body;
    if v.elems == [] {
      EmptyTexts(v);
      assert body[0] == CLOSE_BRACKET && body[1..] == rest;
    } else {
      ElemsFirst(v.elems);
      assert body[0] == PrintElems(v.elems)[0];
      ElemsRead(v.elems, [], rest, d, mode);
      assert [] + CanonElems(v.elems) == CanonElems(v.elems);
      assert AllFit(v.elems, d + 1) <==> Fits(v, d);
    }
  }

  lemma EmptyTexts(v: Json)
    ensures PrintElems([]) == [] && CanonElems([]) == [] && PrintMembers(v, []) == [] && CanonMembers(v, []) == []
  {}

  lemma ElemsFirst(es: seq<Json>)
    requires es != [] && forall e :: e in es ==> CanonicalNumbers(e)
    ensures Plain(PrintElems(es))
  {
    hide Print;
    FirstByte(es[0]);
  }

  lemma {:induction false} ElemsRead(es: seq<Json>, acc: seq<Json>, rest: Str, d: nat, mode: Mode)
    requires es != [] && (forall e :: e in es ==> CanonicalNumbers(e) && Held(e, mode)) && Zeroes(mode)
    ensures ParseElems(PrintElems(es) + [CLOSE_BRACKET] + rest, d, mode, acc)
         == if AllFit(es, d + 1) then N.Scanned(Array(acc + CanonElems(es)), rest) else N.NoScan
    decreases es
  {
    hide Print, Canon, ParseValue, Fits, Held, CanonicalNumbers, Zeroes;
    var e, more := es[0], es[1..];
    assert e in es && forall x :: x in es <==> x == e || x in more;
    var t := PrintElems(es) + [CLOSE_BRACKET] + rest;
    FirstByte(e);
    if more == [] {
      var tail := [CLOSE_BRACKET] + rest;
      PrintReads(e, tail, d + 1, mode);
      assert t == Print(e) + tail;
      if Fits(e, d + 1) { ElemLast(t, Canon(e), rest, d, mode, acc); }
      assert CanonElems(es) == [Canon(e)];
    } else {
      var next := PrintElems(more) + [CLOSE_BRACKET] + rest;
      var tail := [COMMA] + next;
      PrintReads(e, tail, d + 1, mode);
      assert t == Print(e) + tail;
      if Fits(e, d + 1) {
        ElemMore(t, Canon(e), next, d, mode, acc);
        ElemsRead(more, acc + [Canon(e)], rest, d, mode);
        assert acc + [Canon(e)] + CanonElems(more) == acc + CanonElems(es);
      }
    }
  }

  lemma {:induction false} ObjectReads(v: Json, rest: Str, d: nat, mode: Mode)
    requires v.Object? && CanonicalNumbers(v) && Held(v, mode) && Zeroes(mode) && d <= MAX_DEPTH
    ensures ParseValue(Print(v) + rest, d, mode) == if Fits(v, d) then N.Scanned(Canon(v), rest) else N.NoScan
    decreases v, 2
  {
    hide ParseMembers, PrintMembers, Zeroes, CanonMembers, Enumerate, Storable, IsArrayIndex;
    MembersArePartsOf(v);
    EnumerateKeeps(v.members);
    EnumerateOrdered(v.members);
    var ms := Enumerate(v.members);
    if ms == [] {
      EmptyObjectReads(v, rest, d, mode);
    } else {
      var body := PrintMembers(v, ms) + [CLOSE_BRACE] + rest;
      var t := Print(v) + rest;
      assert t[0] == OPEN_BRACE && t[1..] == body;
      MembersFirst(v, ms);
      assert body[0] == PrintMembers(v, ms)[0];
      MembersRead(v, ms, [], rest, d, mode);
      assert [] + CanonMembers(v, ms) == CanonMembers(v, ms);
      assert MembersFit(ms, d + 1) <==> Fits(v, d);
    }
  }

  lemma EmptyObjectReads(v: Json, rest: Str, d: nat, mode: Mode)
    requires v.Object? && Enumerate(v.members) == [] && d <= MAX_DEPTH
    ensures ParseValue(Print(v) + rest, d, mode) == if Fits(v, d) then N.Scanned(Canon(v), rest) else N.NoScan
  {
    hide ParseMembers, Zeroes, Storable, IsArrayIndex;
    EnumerateKeeps(v.members);
    EmptyTexts(v);
    assert v.members == [];
    var t := Print(v) + rest;
    assert t[0] == OPEN_BRACE && t[1..][0] == CLOSE_BRACE && t[1..][1..] == rest;
  }

  lemma MembersFirst(v: Json, ms: seq<Member>)
    requires ms != [] && PartsOf(ms, v)
    ensures Plain(PrintMembers(v, ms)) && PrintMembers(v, ms)[0] == S.QUOTE
  {
    assert ms[0] in ms;
  }

  ghost predicate Readable(ms: seq<Member>, mode: Mode) {
    UniqueKeys(ms) && forall m :: m in ms ==> Storable(m.key, mode.lossless) && Held(m.value, mode)
  }

  ghost predicate Apart(acc: seq<Member>, ms: seq<Member>) { forall m :: m in ms ==> NoKey(acc, m.key) }

  lemma Regroup(w: Str, p: Str, x: Str, rest: Str)
    ensures (w + [COLON] + p) + [COMMA] + x + [CLOSE_BRACE] + rest ==
      w + ([COLON] + (p + ([COMMA] + (x + [CLOSE_BRACE] + rest))))
    ensures (w + [COLON] + p) + [CLOSE_BRACE] + rest == w + ([COLON] + (p + ([CLOSE_BRACE] + rest)))
  {}

  /** The text of the first member, and what follows it. */
  lemma MembersText(v: Json, ms: seq<Member>, rest: Str)
    requires ms != [] && PartsOf(ms, v)
    ensures ms[0].value < v && CanonicalNumbers(ms[0].value)
    ensures PrintMembers(v, ms) + [CLOSE_BRACE] + rest ==
      S.WriteString(ms[0].key) + ([COLON] + (Print(ms[0].value) + AfterFirst(v, ms, rest)))
  {
    hide Print, S.WriteString, CanonicalNumbers;
    assert ms[0] in ms;
    var x := if |ms| == 1 then [] else PrintMembers(v, ms[1..]);
    Regroup(S.WriteString(ms[0].key), Print(ms[0].value), x, rest);
  }

  lemma CanonFirst(v: Json, ms: seq<Member>)
    requires ms != [] && PartsOf(ms, v)
    ensures PartsOf(ms[1..], v) && CanonicalNumbers(ms[0].value)
    ensures CanonMembers(v, ms) == [Member(ms[0].key, Canon(ms[0].value))] + CanonMembers(v, ms[1..])
  {
    hide Canon, CanonicalNumbers;
    assert ms[0] in ms;
  }

  function AfterFirst(v: Json, ms: seq<Member>, rest: Str): Str
    requires ms != [] && PartsOf(ms, v)
  {
    if |ms| == 1 then [CLOSE_BRACE] + rest
    else [COMMA] + (PrintMembers(v, ms[1..]) + [CLOSE_BRACE] + rest)
  }

  lemma HeadOf(acc: seq<Member>, ms: seq<Member>, d: nat, mode: Mode)
    requires ms != [] && Readable(ms, mode) && Apart(acc, ms)
    ensures Storable(ms[0].key, mode.lossless) && Held(ms[0].value, mode) && NoKey(acc, ms[0].key)
    ensures Readable(ms[1..], mode)
    ensures MembersFit(ms, d) <==> Fits(ms[0].value, d) && MembersFit(ms[1..], d)
  {
    hide Storable, Held, Fits, NoKey;
    assert ms[0] in ms && forall x :: x in ms <==> x == ms[0] || x in ms[1..];
  }

  lemma {:induction false} MembersRead(v: Json, ms: seq<Member>, acc: seq<Member>, rest: Str, d: nat, mode: Mode)
    requires ms != [] && PartsOf(ms, v) && Readable(ms, mode) && Apart(acc, ms) && Zeroes(mode)
    ensures ParseMembers(PrintMembers(v, ms) + [CLOSE_BRACE] + rest, d, mode, acc)
         == if MembersFit(ms, d + 1) then N.Scanned(Object(acc + CanonMembers(v, ms)), rest) else N.NoScan
    decreases v, 1, |ms|
  {
    hide Print, Canon, ParseValue, ParseMembers, ParseKey, Fits, Held, CanonicalNumbers, Zeroes, Storable;
    hide S.WriteString, Put, PrintMembers, PartsOf, CanonMembers, Readable, Apart, MembersFit, NoKey;
    var m, more := ms[0], ms[1..];
    var t := PrintMembers(v, ms) + [CLOSE_BRACE] + rest;
    var tail := AfterFirst(v, ms, rest);
    MembersText(v, ms, rest);
    CanonFirst(v, ms);
    HeadOf(acc, ms, d + 1, mode);
    HeadReads(v, m, tail, d, mode);
    var t1 := Print(m.value) + tail;
    if !Fits(m.value, d + 1) {
      MemberFails(t, m.key, t1, d, mode, acc);
    } else {
      var c := Member(m.key, Canon(m.value));
      PutNew(acc, m.key, c.value);
      if more == [] {
        MemberLast(t, m.key, t1, c.value, rest, d, mode, acc);
        LastFits(v, more, d + 1);
        assert CanonMembers(v, ms) == [c];
      } else {
        MemberMore(t, m.key, t1, c.value, PrintMembers(v, more) + [CLOSE_BRACE] + rest, d, mode, acc);
        StillApart(acc, ms, c, mode);
        MembersRead(v, more, acc + [c], rest, d, mode);
        assert acc + [c] + CanonMembers(v, more) == acc + CanonMembers(v, ms);
      }
    }
  }

  lemma LastFits(v: Json, ms: seq<Member>, d: nat)
    requires ms == []
    ensures MembersFit(ms, d) && CanonMembers(v, ms) == []
  {}

  /** A printed member's key and value are read off the front. */
  lemma HeadReads(v: Json, m: Member, tail: Str, d: nat, mode: Mode)
    requires m.value < v && CanonicalNumbers(m.value) && Held(m.value, mode) && Storable(m.key, mode.lossless) &&
      Zeroes(mode)
    requires tail != [] && N.EndsNumber(tail)
    ensures var t1 := Print(m.value) + tail;
            var t := S.WriteString(m.key) + ([COLON] + t1);
      && Plain(t) && ParseKey(t, mode) == N.Scanned(m.key, t1)
      && ParseValue(t1, d + 1, mode) == if Fits(m.value, d + 1) then N.Scanned(Canon(m.value), tail) else N.NoScan
    decreases v, 0
  {
    hide Print, Canon, ParseValue, ParseKey, Fits, Held, CanonicalNumbers, Zeroes, Storable, N.EndsNumber;
    var t1 := Print(m.value) + tail;
    FirstByte(m.value);
    KeyReads(m.key, t1, mode);
    PrintReads(m.value, tail, d + 1, mode);
    var t := S.WriteString(m.key) + ([COLON] + t1);
    assert t[0] == S.QUOTE;
  }

  lemma StillApart(acc: seq<Member>, ms: seq<Member>, c: Member, mode: Mode)
    requires ms != [] && Readable(ms, mode) && Apart(acc, ms) && c.key == ms[0].key
    ensures Apart(acc + [c], ms[1..])
  {
    hide Storable, Held;
    forall m | m in ms[1..] ensures NoKey(acc + [c], m.key) {
      var i :| 0 <= i < |ms[1..]| && ms[1..][i] == m;
      assert ms[i + 1] == m && m in ms;
    }
  }

  /** MAIN: parsing what was printed gives the value back in canonical form when it
      nests no deeper than the parser goes, and fails otherwise. */
  lemma ParsePrint(v: Json, mode: Mode)
    requires CanonicalNumbers(v) && Held(v, mode) && Zeroes(mode)
    ensures ParseDoc(Print(v), mode) == if Fits(v, 0) then Some(Canon(v)) else None
  {
    hide Print, Canon, ParseValue, Fits, Held, CanonicalNumbers, Zeroes;
    FirstByte(v);
    PrintReads(v, [], 0, mode);
    assert Print(v) + [] == Print(v);
  }
}
