/** JSON by the grammar of RFC 8259: derivations, and that the parser reads them all. */
module JsonGrammar {
  import opened JsonValue
  import opened JsOrder
  import opened JsonText
  import opened JsonChars
  import opened JsonNumerals
  import N = JsonNumber
  import S = JsonString

  // ── values (sections 2 to 5) ──────────

  /** A derivation of a value.  `inside` is the white space of an empty array or object. */
  datatype Tree =
    | NullWord | TrueWord | FalseWord
    | Number(n: Numeral)
    | String(chars: seq<Char>)
    | Array(inside: Str, elems: seq<Elem>)
    | Object(inside: Str, members: seq<Pair>)

  // White space, a value, white space.
  datatype Elem = Elem(before: Str, value: Tree, after: Str)

  // The same around a name, a colon and a value.
  datatype Pair = Pair(before: Str, name: seq<Char>, gap: Str, space: Str, value: Tree, after: Str)

  predicate Blank(s: Str) { forall i :: 0 <= i < |s| ==> IsWs(s[i]) }

  predicate Ok(g: Tree)
    decreases g
  {
    match g
    case Number(n) => NumeralOk(n)
    case String(cs) => CharsOk(cs)
    case Array(inside, es) =>
      Blank(inside) && forall i :: 0 <= i < |es| ==> Blank(es[i].before) && Ok(es[i].value) && Blank(es[i].after)
    case Object(inside, ms) => Blank(inside) && forall i :: 0 <= i < |ms| ==> Framed(ms[i]) && Ok(ms[i].value)
    case _ => true
  }

  predicate Framed(m: Pair) {
    Blank(m.before) && CharsOk(m.name) && Blank(m.gap) && Blank(m.space) && Blank(m.after)
  }

  predicate ElemsOk(es: seq<Elem>) {
    forall i :: 0 <= i < |es| ==> Blank(es[i].before) && Ok(es[i].value) && Blank(es[i].after)
  }

  predicate PairsOk(ms: seq<Pair>) { forall i :: 0 <= i < |ms| ==> Framed(ms[i]) && Ok(ms[i].value) }

  function StringText(cs: seq<Char>): Str { [S.QUOTE] + CharsText(cs) + [S.QUOTE] }

  /** The text a derivation derives. */
  function Yield(g: Tree): Str
    decreases g, 0
  {
    match g
    case NullWord => NULL_TEXT
    case TrueWord => TRUE_TEXT
    case FalseWord => FALSE_TEXT
    case Number(n) => NumeralText(n)
    case String(cs) => StringText(cs)
    case Array(inside, es) => [OPEN_BRACKET] + (if es == [] then inside else ElemsText(es)) + [CLOSE_BRACKET]
    case Object(inside, ms) => [OPEN_BRACE] + (if ms == [] then inside else PairsText(ms)) + [CLOSE_BRACE]
  }

  function ElemsText(es: seq<Elem>): Str
    decreases es, 1
  {
    if es == [] then []
    else es[0].before + (Yield(es[0].value) + (es[0].after + if |es| == 1 then [] else [COMMA] + ElemsText(es[1..])))
  }

  // A name up to its colon.
  function NameText(m: Pair): Str { m.before + (StringText(m.name) + (m.gap + [COLON])) }

  function PairsText(ms: seq<Pair>): Str
    decreases ms, 1
  {
    if ms == [] then []
    else
      var more := if |ms| == 1 then [] else [COMMA] + PairsText(ms[1..]);
      NameText(ms[0]) + (ms[0].space + (Yield(ms[0].value) + (ms[0].after + more)))
  }

  /** Arrays and objects nest at most so deep, g itself at depth d. */
  predicate Nested(g: Tree, d: nat)
    decreases g
  {
    d <= MAX_DEPTH &&
    match g
    case Array(_, es) => forall i :: 0 <= i < |es| ==> Nested(es[i].value, d + 1)
    case Object(_, ms) => forall i :: 0 <= i < |ms| ==> Nested(ms[i].value, d + 1)
    case _ => true
  }

  /** The value it stands for: later members of one name replace earlier ones in place. */
  function Value(g: Tree, mode: Mode): Json
    requires Ok(g)
    decreases g, 0
  {
    match g
    case NullWord => Json.Null
    case TrueWord => Bool(true)
    case FalseWord => Bool(false)
    case Number(n) => Json.Number(mode.round(N.Denote(LiteralOf(n))))
    case String(cs) => Json.String(FromUnits(CharsUnits(cs), mode.lossless))
    case Array(_, es) => Json.Array(ElemValues(es, mode))
    case Object(_, ms) => Json.Object(PairValues(ms, mode, []))
  }

  function ElemValues(es: seq<Elem>, mode: Mode): seq<Json>
    requires ElemsOk(es)
    decreases es, 1
  {
    if es == [] then [] else [Value(es[0].value, mode)] + ElemValues(es[1..], mode)
  }

  function PairValues(ms: seq<Pair>, mode: Mode, out: seq<Member>): seq<Member>
    requires PairsOk(ms)
    decreases ms, 1
  {
    if ms == [] then out
    else
      var key := FromUnits(CharsUnits(ms[0].name), mode.lossless);
      PairValues(ms[1..], mode, Put(out, key, Value(ms[0].value, mode)))
  }

  // ── every derivation is read ──────────

  lemma {:induction false} WsBlank(b: Str, t: Str)
    requires Blank(b)
    ensures Ws(b + t) == Ws(t)
  {
    if b == [] {
      assert b + t == t;
    } else {
      assert (b + t)[1..] == b[1..] + t;
      WsBlank(b[1..], t);
    }
  }

  lemma WsNone(t: Str)
    ensures t == [] || !IsWs(t[0]) ==> Ws(t) == t
    ensures Ws(Ws(t)) == Ws(t)
  {}

  lemma YieldStarts(g: Tree)
    requires Ok(g)
    ensures Yield(g) != [] && !IsWs(Yield(g)[0]) && Yield(g)[0] != CLOSE_BRACKET && Yield(g)[0] != CLOSE_BRACE
  {
    hide N.Text;
    if g.Number? { NumeralStarts(g.n); }
  }

  lemma NumeralStarts(n: Numeral)
    requires NumeralOk(n)
    ensures NumeralText(n) != [] && (NumeralText(n)[0] == N.MINUS || IsDigitByte(NumeralText(n)[0]))
  {
    assert n.neg || NumeralText(n)[0] == N.Text(n.whole)[0];
  }

  lemma BlankEnds(b: Str, c: byte, rest: Str)
    requires Blank(b) && !IsDigitByte(c) && c != N.DOT && c != N.LOWER_E && c != N.UPPER_E
    ensures N.EndsNumber(b + ([c] + rest))
  {
    assert (b + ([c] + rest))[0] == if b == [] then c else b[0];
  }

  // What follows the first element, and the first member, in a sequence and its bracket.
  function AfterElem(es: seq<Elem>, rest: Str): Str
    requires es != []
  {
    if |es| == 1 then [CLOSE_BRACKET] + rest else [COMMA] + (ElemsText(es[1..]) + ([CLOSE_BRACKET] + rest))
  }

  function AfterPair(ms: seq<Pair>, rest: Str): Str
    requires ms != []
  {
    if |ms| == 1 then [CLOSE_BRACE] + rest else [COMMA] + (PairsText(ms[1..]) + ([CLOSE_BRACE] + rest))
  }

  lemma ElemShape(es: seq<Elem>, rest: Str)
    requires es != []
    ensures ElemsText(es) + ([CLOSE_BRACKET] + rest)
      == es[0].before + (Yield(es[0].value) + (es[0].after + AfterElem(es, rest)))
  {
    hide Yield;
    var z := [CLOSE_BRACKET] + rest;
    var more := if |es| == 1 then [] else [COMMA] + ElemsText(es[1..]);
    assert ElemsText(es) == es[0].before + (Yield(es[0].value) + (es[0].after + more));
    hide ElemsText;
    assert more + z == AfterElem(es, rest) by { Push([COMMA], ElemsText(es[1..]), z); assert [] + z == z; }
    Push(es[0].after, more, z);
    Push(Yield(es[0].value), es[0].after + more, z);
    Push(es[0].before, Yield(es[0].value) + (es[0].after + more), z);
  }

  lemma PairShape(ms: seq<Pair>, rest: Str)
    requires ms != []
    ensures var m := ms[0];
      PairsText(ms) + ([CLOSE_BRACE] + rest)
      == NameText(m) + (m.space + (Yield(m.value) + (m.after + AfterPair(ms, rest))))
  {
    hide Yield, NameText;
    var m, z := ms[0], [CLOSE_BRACE] + rest;
    var more := if |ms| == 1 then [] else [COMMA] + PairsText(ms[1..]);
    assert PairsText(ms) == NameText(m) + (m.space + (Yield(m.value) + (m.after + more)));
    hide PairsText;
    assert more + z == AfterPair(ms, rest) by { Push([COMMA], PairsText(ms[1..]), z); assert [] + z == z; }
    Push(m.after, more, z);
    Push(Yield(m.value), m.after + more, z);
    Push(m.space, Yield(m.value) + (m.after + more), z);
    Push(NameText(m), m.space + (Yield(m.value) + (m.after + more)), z);
  }

  lemma NameShape(m: Pair, tail: Str)
    ensures NameText(m) + tail == m.before + (StringText(m.name) + (m.gap + ([COLON] + tail)))
  {
    hide StringText;
    Push(m.gap, [COLON], tail);
    Push(StringText(m.name), m.gap + [COLON], tail);
    Push(m.before, StringText(m.name) + (m.gap + [COLON]), tail);
  }

  lemma WordRead(word: Str, rest: Str, v: Json)
    requires word != []
    ensures Word(word + rest, word, v) == N.Scanned(v, rest)
  {}

  lemma StringRead(cs: seq<Char>, rest: Str, lossless: bool)
    requires CharsOk(cs)
    ensures var t := StringText(cs) + rest;
      && t[0] == S.QUOTE
      && S.ParseText(t[1..], lossless) == S.Text(FromUnits(CharsUnits(cs), lossless), rest)
  {
    hide S.ParseText;
    var t := StringText(cs) + rest;
    assert t[1..] == CharsText(cs) + [S.QUOTE] + rest;
    LiteralRead(cs, rest, lossless);
  }

  /** Completeness: the parser reads every derivable text to its value. */
  lemma {:induction false} ValueRead(g: Tree, rest: Str, d: nat, mode: Mode)
    requires Ok(g) && Nested(g, d) && N.EndsNumber(rest)
    ensures ParseValue(Yield(g) + rest, d, mode) == N.Scanned(Value(g, mode), rest)
    decreases g, 2
  {
    hide ParseElems, ParseMembers, N.ScanNumber, S.ParseText, N.Denote, NumeralText, Word;
    var t := Yield(g) + rest;
    match g
    case NullWord => WordRead(NULL_TEXT, rest, Json.Null);
    case TrueWord => WordRead(TRUE_TEXT, rest, Bool(true));
    case FalseWord => WordRead(FALSE_TEXT, rest, Bool(false));
    case Number(n) =>
      NumeralStarts(n);
      NumeralRead(n, rest);
      assert t[0] == NumeralText(n)[0];
    case String(cs) => StringRead(cs, rest, mode.lossless);
    case Array(_, _) => ArrayRead(g, rest, d, mode);
    case Object(_, _) => ObjectRead(g, rest, d, mode);
  }

  lemma {:induction false} ArrayRead(g: Tree, rest: Str, d: nat, mode: Mode)
    requires g.Array? && Ok(g) && Nested(g, d)
    ensures ParseValue(Yield(g) + rest, d, mode) == N.Scanned(Value(g, mode), rest)
    decreases g, 1
  {
    hide ParseElems, ParseMembers, ElemsText, Value, Ws;
    var t := Yield(g) + rest;
    if g.elems == [] {
      assert t[1..] == g.inside + ([CLOSE_BRACKET] + rest);
      WsBlank(g.inside, [CLOSE_BRACKET] + rest);
      WsNone([CLOSE_BRACKET] + rest);
      NoElems(g, mode);
    } else {
      var body := ElemsText(g.elems) + ([CLOSE_BRACKET] + rest);
      Push(ElemsText(g.elems), [CLOSE_BRACKET], rest);
      assert t[1..] == body;
      ElemsStart(g.elems, rest);
      ElemsRead(g.elems, rest, d, mode, []);
      ElemsAfterWs(body, d, mode, []);
      SomeElems(g, mode);
    }
  }

  lemma NoElems(g: Tree, mode: Mode)
    requires g.Array? && Ok(g) && g.elems == []
    ensures Value(g, mode) == Json.Array([])
  {}

  lemma SomeElems(g: Tree, mode: Mode)
    requires g.Array? && Ok(g)
    ensures ElemsOk(g.elems) && Value(g, mode) == Json.Array([] + ElemValues(g.elems, mode))
  {}

  lemma ElemsAfterWs(t: Str, d: nat, mode: Mode, es: seq<Json>)
    ensures ParseElems(Ws(t), d, mode, es) == ParseElems(t, d, mode, es)
  {
    hide Ws, ParseValue;
    WsNone(t);
  }

  lemma ElemsStart(es: seq<Elem>, rest: Str)
    requires ElemsOk(es) && es != []
    ensures var u := Ws(ElemsText(es) + ([CLOSE_BRACKET] + rest)); u != [] && u[0] != CLOSE_BRACKET
  {
    hide Yield, ElemsText, Ws;
    ElemShape(es, rest);
    YieldStarts(es[0].value);
    var tail := Yield(es[0].value) + (es[0].after + AfterElem(es, rest));
    WsBlank(es[0].before, tail);
    WsNone(tail);
  }

  lemma {:induction false} ElemsRead(es: seq<Elem>, rest: Str, d: nat, mode: Mode, out: seq<Json>)
    requires es != [] && ElemsOk(es) && forall i :: 0 <= i < |es| ==> Nested(es[i].value, d + 1)
    ensures ParseElems(ElemsText(es) + ([CLOSE_BRACKET] + rest), d, mode, out)
      == N.Scanned(Json.Array(out + ElemValues(es, mode)), rest)
    decreases es, 3
  {
    hide ParseValue, Yield, ElemsText, Value, Ws, Nested, Ok;
    var v := Value(es[0].value, mode);
    ElemTurn(es, rest, d, mode);
    ElemsOnce(ElemsText(es) + ([CLOSE_BRACKET] + rest), d, mode, out, v, es[0].after + AfterElem(es, rest));
    if |es| == 1 {
      assert ([CLOSE_BRACKET] + rest)[1..] == rest;
      assert es[1..] == [] && out + [v] == out + ElemValues(es, mode);
    } else {
      var more := ElemsText(es[1..]) + ([CLOSE_BRACKET] + rest);
      assert ([COMMA] + more)[1..] == more;
      ElemsRead(es[1..], rest, d, mode, out + [v]);
      assert out + [v] + ElemValues(es[1..], mode) == out + ElemValues(es, mode);
    }
  }

  /** One turn of the element loop, v and u being what it reads. */
  lemma ElemsOnce(t: Str, d: nat, mode: Mode, out: seq<Json>, v: Json, u: Str)
    requires ParseValue(Ws(t), d + 1, mode) == N.Scanned(v, u)
    ensures StartsWith(Ws(u), COMMA) ==> ParseElems(t, d, mode, out) == ParseElems(Ws(u)[1..], d, mode, out + [v])
    ensures StartsWith(Ws(u), CLOSE_BRACKET) ==>
      ParseElems(t, d, mode, out) == N.Scanned(Json.Array(out + [v]), Ws(u)[1..])
  {
    hide ParseValue, Ws;
  }

  lemma {:induction false} ElemTurn(es: seq<Elem>, rest: Str, d: nat, mode: Mode)
    requires es != [] && ElemsOk(es) && Nested(es[0].value, d + 1)
    ensures var u := es[0].after + AfterElem(es, rest);
      && ParseValue(Ws(ElemsText(es) + ([CLOSE_BRACKET] + rest)), d + 1, mode) == N.Scanned(Value(es[0].value, mode), u)
      && Ws(u) == AfterElem(es, rest)
    decreases es, 2
  {
    hide ParseValue, Yield, ElemsText, Value, Ws, Nested, Ok;
    var u := es[0].after + AfterElem(es, rest);
    ElemShape(es, rest);
    WsBlank(es[0].before, Yield(es[0].value) + u);
    YieldStarts(es[0].value);
    WsNone(Yield(es[0].value) + u);
    WsBlank(es[0].after, AfterElem(es, rest));
    WsNone(AfterElem(es, rest));
    BlankEnds(es[0].after, AfterElem(es, rest)[0], AfterElem(es, rest)[1..]);
    assert AfterElem(es, rest) == [AfterElem(es, rest)[0]] + AfterElem(es, rest)[1..];
    ValueRead(es[0].value, u, d + 1, mode);
  }

  lemma {:induction false} ObjectRead(g: Tree, rest: Str, d: nat, mode: Mode)
    requires g.Object? && Ok(g) && Nested(g, d)
    ensures ParseValue(Yield(g) + rest, d, mode) == N.Scanned(Value(g, mode), rest)
    decreases g, 1
  {
    hide ParseElems, ParseMembers, PairsText, Value, Ws;
    var t := Yield(g) + rest;
    if g.members == [] {
      assert t[1..] == g.inside + ([CLOSE_BRACE] + rest);
      WsBlank(g.inside, [CLOSE_BRACE] + rest);
      WsNone([CLOSE_BRACE] + rest);
      NoPairs(g, mode);
    } else {
      var body := PairsText(g.members) + ([CLOSE_BRACE] + rest);
      Push(PairsText(g.members), [CLOSE_BRACE], rest);
      assert t[1..] == body;
      PairsStart(g.members, rest);
      PairsRead(g.members, rest, d, mode, []);
      MembersAfterWs(body, d, mode, []);
      SomePairs(g, mode);
    }
  }

  lemma NoPairs(g: Tree, mode: Mode)
    requires g.Object? && Ok(g) && g.members == []
    ensures Value(g, mode) == Json.Object([])
  {}

  lemma SomePairs(g: Tree, mode: Mode)
    requires g.Object? && Ok(g)
    ensures PairsOk(g.members) && Value(g, mode) == Json.Object(PairValues(g.members, mode, []))
  {}

  lemma MembersAfterWs(t: Str, d: nat, mode: Mode, ms: seq<Member>)
    ensures ParseMembers(Ws(t), d, mode, ms) == ParseMembers(t, d, mode, ms)
  {
    hide Ws, ParseKey, ParseValue;
    WsNone(t);
  }

  lemma PairsStart(ms: seq<Pair>, rest: Str)
    requires PairsOk(ms) && ms != []
    ensures var u := Ws(PairsText(ms) + ([CLOSE_BRACE] + rest)); u != [] && u[0] != CLOSE_BRACE
  {
    hide Yield, PairsText, Ws;
    PairShape(ms, rest);
    var after := ms[0].space + (Yield(ms[0].value) + (ms[0].after + AfterPair(ms, rest)));
    NameShape(ms[0], after);
    var tail := StringText(ms[0].name) + (ms[0].gap + ([COLON] + after));
    assert tail[0] == S.QUOTE;
    WsBlank(ms[0].before, tail);
    WsNone(tail);
  }

  lemma {:induction false} PairsRead(ms: seq<Pair>, rest: Str, d: nat, mode: Mode, out: seq<Member>)
    requires ms != [] && PairsOk(ms) && forall i :: 0 <= i < |ms| ==> Nested(ms[i].value, d + 1)
    ensures ParseMembers(PairsText(ms) + ([CLOSE_BRACE] + rest), d, mode, out)
      == N.Scanned(Json.Object(PairValues(ms, mode, out)), rest)
    decreases ms, 3
  {
    hide ParseValue, Yield, PairsText, Value, Ws, Nested, Ok, ParseKey, Put, FromUnits, CharsUnits;
    var v := Value(ms[0].value, mode);
    var key := FromUnits(CharsUnits(ms[0].name), mode.lossless);
    var u := ms[0].after + AfterPair(ms, rest);
    PairTurn(ms, rest, d, mode);
    MembersOnce(PairsText(ms) + ([CLOSE_BRACE] + rest), d, mode, out, key, Yield(ms[0].value) + u, v, u);
    if |ms| == 1 {
      assert ([CLOSE_BRACE] + rest)[1..] == rest;
      assert ms[1..] == [];
    } else {
      var more := PairsText(ms[1..]) + ([CLOSE_BRACE] + rest);
      assert ([COMMA] + more)[1..] == more;
      PairsRead(ms[1..], rest, d, mode, Put(out, key, v));
    }
  }

  lemma MembersOnce(t: Str, d: nat, mode: Mode, out: seq<Member>, k: Str, t1: Str, v: Json, u: Str)
    requires ParseKey(Ws(t), mode) == N.Scanned(k, t1) && ParseValue(t1, d + 1, mode) == N.Scanned(v, u)
    ensures StartsWith(Ws(u), COMMA) ==>
      ParseMembers(t, d, mode, out) == ParseMembers(Ws(u)[1..], d, mode, Put(out, k, v))
    ensures StartsWith(Ws(u), CLOSE_BRACE) ==>
      ParseMembers(t, d, mode, out) == N.Scanned(Json.Object(Put(out, k, v)), Ws(u)[1..])
  {
    hide ParseKey, ParseValue, Ws, Put;
  }

  lemma KeyRead(m: Pair, tail: Str, mode: Mode)
    requires Framed(m) && (tail == [] || !IsWs(tail[0]))
    ensures ParseKey(Ws(NameText(m) + (m.space + tail)), mode)
      == N.Scanned(FromUnits(CharsUnits(m.name), mode.lossless), tail)
  {
    NameShape(m, m.space + tail);
    hide S.ParseText, FromUnits, CharsUnits, StringText, NameText, Ws;
    var t2 := [COLON] + (m.space + tail);
    var t1 := StringText(m.name) + (m.gap + t2);
    WsBlank(m.before, t1);
    StringRead(m.name, m.gap + t2, mode.lossless);
    WsNone(t1);
    WsBlank(m.gap, t2);
    WsNone(t2);
    assert t2[1..] == m.space + tail;
    WsBlank(m.space, tail);
    WsNone(tail);
  }

  lemma {:induction false} PairTurn(ms: seq<Pair>, rest: Str, d: nat, mode: Mode)
    requires ms != [] && PairsOk(ms) && Nested(ms[0].value, d + 1)
    ensures var u := ms[0].after + AfterPair(ms, rest);
      && ParseKey(Ws(PairsText(ms) + ([CLOSE_BRACE] + rest)), mode)
         == N.Scanned(FromUnits(CharsUnits(ms[0].name), mode.lossless), Yield(ms[0].value) + u)
      && ParseValue(Yield(ms[0].value) + u, d + 1, mode) == N.Scanned(Value(ms[0].value, mode), u)
      && Ws(u) == AfterPair(ms, rest)
    decreases ms, 2
  {
    hide ParseValue, Yield, PairsText, Value, Ws, Nested, Ok, ParseKey, FromUnits, CharsUnits, NameText;
    var u := ms[0].after + AfterPair(ms, rest);
    PairShape(ms, rest);
    YieldStarts(ms[0].value);
    KeyRead(ms[0], Yield(ms[0].value) + u, mode);
    WsBlank(ms[0].after, AfterPair(ms, rest));
    WsNone(AfterPair(ms, rest));
    BlankEnds(ms[0].after, AfterPair(ms, rest)[0], AfterPair(ms, rest)[1..]);
    assert AfterPair(ms, rest) == [AfterPair(ms, rest)[0]] + AfterPair(ms, rest)[1..];
    ValueRead(ms[0].value, u, d + 1, mode);
  }
}
