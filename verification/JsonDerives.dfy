/** The parser against the grammar of RFC 8259: whatever it reads is derivable, so it
    accepts exactly the JSON texts. */
module JsonDerives {
  import opened JsonValue
  import opened Utf8
  import opened JsonText
  import opened JsonChars
  import opened JsonNumerals
  import opened JsonGrammar
  import N = JsonNumber
  import S = JsonString

  lemma ValidAfter(a: Str, t: Str, rest: Str)
    requires Valid(t) && t == a + rest && forall i :: 0 <= i < |a| ==> a[i] < 0x80
    ensures Valid(rest)
  {
    ValidAscii(t, |a|);
    assert t[|a|..] == rest;
  }

  lemma {:induction false} WsSplit(t: Str) returns (b: Str)
    ensures Blank(b) && t == b + Ws(t)
    ensures Valid(t) ==> Valid(Ws(t))
  {
    if t != [] && IsWs(t[0]) {
      var c := WsSplit(t[1..]);
      b := [t[0]] + c;
      assert t == [t[0]] + t[1..];
    } else {
      b := [];
      assert t == [] + t;
    }
    if Valid(t) { ValidAfter(b, t, Ws(t)); }
  }

  lemma FirstValid(t: Str)
    requires Valid(t) && t != [] && t[0] < 0x80
    ensures Valid(t[1..]) && t == [t[0]] + t[1..]
  {
    ValidAfter([t[0]], t, t[1..]);
  }

  lemma StringFrom(t: Str, lossless: bool) returns (cs: seq<Char>)
    requires Valid(t) && StartsWith(t, S.QUOTE) && S.ParseText(t[1..], lossless).Text?
    ensures var r := S.ParseText(t[1..], lossless);
      CharsOk(cs) && t == StringText(cs) + r.rest && Valid(r.rest) && r.s == FromUnits(CharsUnits(cs), lossless)
  {
    hide S.ParseText, FromUnits, CharsUnits, CharsText;
    var r := S.ParseText(t[1..], lossless);
    FirstValid(t);
    StringLiterals(t[1..], lossless, r.s, r.rest);
    cs :| Spells(cs, t[1..], r.rest) && r.s == FromUnits(CharsUnits(cs), lossless);
    LiteralLeaves(t[1..], lossless);
    assert t == [S.QUOTE] + (CharsText(cs) + [S.QUOTE] + r.rest);
  }

  lemma LiteralLeaves(t: Str, lossless: bool)
    requires Valid(t) && S.ParseText(t, lossless).Text?
    ensures Valid(S.ParseText(t, lossless).rest)
  {
    ReadIsUnescaped(t, lossless);
    var cs := CharsFrom(t, lossless);
  }

  lemma NumberFrom(t: Str) returns (n: Numeral)
    requires Valid(t) && N.ScanNumber(t).Scanned?
    ensures var r := N.ScanNumber(t);
      NumeralOk(n) && t == NumeralText(n) + r.rest && Valid(r.rest) && r.value == LiteralOf(n)
  {
    hide N.ScanNumber, LiteralOf;
    n := NumeralFrom(t);
    NumeralAscii(n);
    ValidAfter(NumeralText(n), t, N.ScanNumber(t).rest);
  }

  lemma NumeralAscii(n: Numeral)
    requires NumeralOk(n)
    ensures forall i :: 0 <= i < |NumeralText(n)| ==> NumeralText(n)[i] < 0x80
  {
    hide N.Text;
    var w, f, x := N.Text(n.whole), FracText(n.frac), ExpText(n.exp);
    assert forall b :: b in f ==> b < 0x80;
    assert forall b :: b in x ==> b < 0x80;
    assert forall b :: b in NumeralText(n) ==> b == N.MINUS || b in w || b in f || b in x;
    assert forall i :: 0 <= i < |NumeralText(n)| ==> NumeralText(n)[i] in NumeralText(n);
  }

  lemma WordFrom(t: Str, word: Str, v: Json)
    requires Valid(t) && word != [] && Word(t, word, v).Scanned? && forall i :: 0 <= i < |word| ==> word[i] < 0x80
    ensures t == word + Word(t, word, v).rest && Valid(Word(t, word, v).rest)
  {
    ValidAfter(word, t, t[|word|..]);
  }

  // g derives what a parse r of t at depth d consumed, and stands for what r gave.
  ghost predicate Derives(g: Tree, t: Str, d: nat, mode: Mode, r: Parsed<Json>) {
    && Ok(g) && Nested(g, d) && r.Scanned?
    && t == Yield(g) + r.rest && Valid(r.rest) && r.value == Value(g, mode)
  }

  /** Soundness: whatever the parser reads has a derivation. */
  lemma {:induction false} ValueFrom(t: Str, d: nat, mode: Mode) returns (g: Tree)
    requires Valid(t) && ParseValue(t, d, mode).Scanned?
    ensures Derives(g, t, d, mode, ParseValue(t, d, mode))
    decreases |t|, 1
  {
    hide ParseElems, ParseMembers, Valid, S.ParseText, N.ScanNumber, N.Denote, NumeralText, LiteralOf, Word, FromUnits;
    var r := ParseValue(t, d, mode);
    if t[0] == OPEN_BRACE {
      g := ObjectFrom(t, d, mode);
    } else if t[0] == OPEN_BRACKET {
      g := ArrayFrom(t, d, mode);
    } else if t[0] == S.QUOTE {
      var cs := StringFrom(t, mode.lossless);
      g := Tree.String(cs);
    } else if t[0] == 116 {
      WordFrom(t, TRUE_TEXT, Bool(true));
      WordValue(t, TRUE_TEXT, Bool(true));
      g := TrueWord;
    } else if t[0] == 102 {
      WordFrom(t, FALSE_TEXT, Bool(false));
      WordValue(t, FALSE_TEXT, Bool(false));
      g := FalseWord;
    } else if t[0] == 110 {
      WordFrom(t, NULL_TEXT, Json.Null);
      WordValue(t, NULL_TEXT, Json.Null);
      g := NullWord;
    } else {
      var n := NumberFrom(t);
      g := Tree.Number(n);
    }
  }

  lemma WordValue(t: Str, word: Str, v: Json)
    requires word != [] && Word(t, word, v).Scanned?
    ensures Word(t, word, v).value == v
  {}

  lemma {:induction false} ArrayFrom(t: Str, d: nat, mode: Mode) returns (g: Tree)
    requires Valid(t) && StartsWith(t, OPEN_BRACKET) && ParseValue(t, d, mode).Scanned?
    ensures Derives(g, t, d, mode, ParseValue(t, d, mode))
    decreases |t|, 0
  {
    hide ParseElems, ParseMembers, Valid, ElemsText, Value, Ws;
    FirstValid(t);
    if StartsWith(Ws(t[1..]), CLOSE_BRACKET) {
      g := EmptyArray(t, d, mode);
    } else {
      ElemsAfterWs(t[1..], d, mode, []);
      var es := ElemsFrom(t[1..], d, mode, []);
      g := Tree.Array([], es);
      FullArray(g, t, d, mode);
    }
  }

  lemma EmptyArray(t: Str, d: nat, mode: Mode) returns (g: Tree)
    requires Valid(t) && StartsWith(t, OPEN_BRACKET) && d <= MAX_DEPTH && StartsWith(Ws(t[1..]), CLOSE_BRACKET)
    ensures Derives(g, t, d, mode, ParseValue(t, d, mode))
  {
    hide Valid, Value, Ws;
    var inside, rest := InsideFrom(t);
    g := Tree.Array(inside, []);
    NoElems(g, mode);
  }

  /** An opening byte, white space and the byte that closes again. */
  lemma InsideFrom(t: Str) returns (inside: Str, rest: Str)
    requires Valid(t) && t != [] && t[0] < 0x80 && Ws(t[1..]) != [] && Ws(t[1..])[0] < 0x80
    ensures var u := Ws(t[1..]);
      Blank(inside) && rest == u[1..] && Valid(rest) && t == [t[0]] + inside + [u[0]] + rest
  {
    hide Valid, Ws;
    var u := Ws(t[1..]);
    FirstValid(t);
    inside := WsSplit(t[1..]);
    FirstValid(u);
    rest := u[1..];
    Push([t[0]] + inside, [u[0]], rest);
    Push([t[0]], inside, u);
  }

  lemma FullArray(g: Tree, t: Str, d: nat, mode: Mode)
    requires g.Array? && g.inside == [] && g.elems != [] && ElemsOk(g.elems) && d <= MAX_DEPTH
    requires forall i :: 0 <= i < |g.elems| ==> Nested(g.elems[i].value, d + 1)
    requires StartsWith(t, OPEN_BRACKET) && ParseValue(t, d, mode).Scanned?
    requires var r := ParseValue(t, d, mode);
      && t[1..] == ElemsText(g.elems) + ([CLOSE_BRACKET] + r.rest) && Valid(r.rest)
      && r.value == Json.Array([] + ElemValues(g.elems, mode))
    ensures Derives(g, t, d, mode, ParseValue(t, d, mode))
  {
    hide ParseValue, Valid, Value, ElemsText;
    var r := ParseValue(t, d, mode);
    SomeElems(g, mode);
    Push(ElemsText(g.elems), [CLOSE_BRACKET], r.rest);
    Push([OPEN_BRACKET], ElemsText(g.elems) + [CLOSE_BRACKET], r.rest);
    Push([OPEN_BRACKET], ElemsText(g.elems), [CLOSE_BRACKET]);
    assert t == [OPEN_BRACKET] + t[1..];
  }

  lemma {:induction false} ElemsFrom(t: Str, d: nat, mode: Mode, out: seq<Json>) returns (es: seq<Elem>)
    requires Valid(t) && ParseElems(t, d, mode, out).Scanned?
    ensures var r := ParseElems(t, d, mode, out);
      && es != [] && ElemsOk(es) && (forall i :: 0 <= i < |es| ==> Nested(es[i].value, d + 1))
      && t == ElemsText(es) + ([CLOSE_BRACKET] + r.rest) && Valid(r.rest)
      && r.value == Json.Array(out + ElemValues(es, mode))
    decreases |t|, 2
  {
    hide ParseValue, Valid, ElemsText, Ws, Yield, Value, Nested;
    var r := ParseElems(t, d, mode, out);
    var before := WsSplit(t);
    var p := ParseValue(Ws(t), d + 1, mode);
    var g := ValueFrom(Ws(t), d + 1, mode);
    var after := WsSplit(p.rest);
    var u := Ws(p.rest);
    FirstValid(u);
    var e := Elem(before, g, after);
    assert t == before + (Yield(g) + (after + u));
    if u[0] == COMMA {
      var more := ElemsFrom(u[1..], d, mode, out + [p.value]);
      es := [e] + more;
      assert es[1..] == more && AfterElem(es, r.rest) == u;
      ElemShape(es, r.rest);
      assert out + [p.value] + ElemValues(more, mode) == out + ElemValues(es, mode);
    } else {
      es := [e];
      assert es[1..] == [] && AfterElem(es, r.rest) == u;
      ElemShape(es, r.rest);
      assert out + [p.value] == out + ElemValues(es, mode);
    }
  }

  lemma {:induction false} ObjectFrom(t: Str, d: nat, mode: Mode) returns (g: Tree)
    requires Valid(t) && StartsWith(t, OPEN_BRACE) && ParseValue(t, d, mode).Scanned?
    ensures Derives(g, t, d, mode, ParseValue(t, d, mode))
    decreases |t|, 0
  {
    hide ParseElems, ParseMembers, Valid, PairsText, Value, Ws;
    FirstValid(t);
    if StartsWith(Ws(t[1..]), CLOSE_BRACE) {
      g := EmptyObject(t, d, mode);
    } else {
      MembersAfterWs(t[1..], d, mode, []);
      var ms := PairsFrom(t[1..], d, mode, []);
      g := Tree.Object([], ms);
      FullObject(g, t, d, mode);
    }
  }

  lemma EmptyObject(t: Str, d: nat, mode: Mode) returns (g: Tree)
    requires Valid(t) && StartsWith(t, OPEN_BRACE) && d <= MAX_DEPTH && StartsWith(Ws(t[1..]), CLOSE_BRACE)
    ensures Derives(g, t, d, mode, ParseValue(t, d, mode))
  {
    hide Valid, Value, Ws;
    var inside, rest := InsideFrom(t);
    g := Tree.Object(inside, []);
    NoPairs(g, mode);
  }

  lemma FullObject(g: Tree, t: Str, d: nat, mode: Mode)
    requires g.Object? && g.inside == [] && g.members != [] && PairsOk(g.members) && d <= MAX_DEPTH
    requires forall i :: 0 <= i < |g.members| ==> Nested(g.members[i].value, d + 1)
    requires StartsWith(t, OPEN_BRACE) && ParseValue(t, d, mode).Scanned?
    requires var r := ParseValue(t, d, mode);
      && t[1..] == PairsText(g.members) + ([CLOSE_BRACE] + r.rest) && Valid(r.rest)
      && r.value == Json.Object(PairValues(g.members, mode, []))
    ensures Derives(g, t, d, mode, ParseValue(t, d, mode))
  {
    hide ParseValue, Valid, Value, PairsText;
    var r := ParseValue(t, d, mode);
    SomePairs(g, mode);
    Push(PairsText(g.members), [CLOSE_BRACE], r.rest);
    Push([OPEN_BRACE], PairsText(g.members) + [CLOSE_BRACE], r.rest);
    Push([OPEN_BRACE], PairsText(g.members), [CLOSE_BRACE]);
    assert t == [OPEN_BRACE] + t[1..];
  }

  /** A name, its colon, and the white space around them. */
  lemma NameFrom(t: Str, mode: Mode) returns (m: Pair)
    requires Valid(t) && ParseKey(Ws(t), mode).Scanned?
    ensures var r := ParseKey(Ws(t), mode);
      && m.value == NullWord && m.after == [] && Framed(m)
      && t == NameText(m) + (m.space + r.rest) && Valid(r.rest)
      && r.value == FromUnits(CharsUnits(m.name), mode.lossless)
  {
    hide S.ParseText, Valid, Ws, FromUnits, CharsUnits, StringText, NameText;
    var r := ParseKey(Ws(t), mode);
    var before := WsSplit(t);
    var cs := StringFrom(Ws(t), mode.lossless);
    var rest := S.ParseText(Ws(t)[1..], mode.lossless).rest;
    var gap := WsSplit(rest);
    var u := Ws(rest);
    FirstValid(u);
    var space := WsSplit(u[1..]);
    m := Pair(before, cs, gap, space, NullWord, []);
    assert t == before + (StringText(cs) + (gap + ([COLON] + (space + r.rest))));
    NameShape(m, space + r.rest);
  }

  lemma {:induction false} PairsFrom(t: Str, d: nat, mode: Mode, out: seq<Member>) returns (ms: seq<Pair>)
    requires Valid(t) && ParseMembers(t, d, mode, out).Scanned?
    ensures var r := ParseMembers(t, d, mode, out);
      && ms != [] && PairsOk(ms) && (forall i :: 0 <= i < |ms| ==> Nested(ms[i].value, d + 1))
      && t == PairsText(ms) + ([CLOSE_BRACE] + r.rest) && Valid(r.rest)
      && r.value == Json.Object(PairValues(ms, mode, out))
    decreases |t|, 2
  {
    hide ParseValue, ParseKey, Valid, PairsText, Ws, Yield, Value, Nested, FromUnits, CharsUnits, NameText, Put;
    var r := ParseMembers(t, d, mode, out);
    var name := NameFrom(t, mode);
    var k := ParseKey(Ws(t), mode);
    var p := ParseValue(k.rest, d + 1, mode);
    var g := ValueFrom(k.rest, d + 1, mode);
    var after := WsSplit(p.rest);
    var u := Ws(p.rest);
    FirstValid(u);
    var m := name.(value := g, after := after);
    SameName(name, m);
    assert t == NameText(m) + (m.space + (Yield(g) + (after + u)));
    if u[0] == COMMA {
      var more := PairsFrom(u[1..], d, mode, Put(out, k.value, p.value));
      ms := [m] + more;
      assert ms[1..] == more && AfterPair(ms, r.rest) == u;
    } else {
      ms := [m];
      assert ms[1..] == [] && AfterPair(ms, r.rest) == u;
    }
    PairShape(ms, r.rest);
  }

  lemma SameName(a: Pair, b: Pair)
    requires b == a.(value := b.value, after := b.after)
    ensures NameText(a) == NameText(b)
  {}

  // ── the theorem ──────────

  /** JSON-text: a value between white space. */
  datatype Document = Document(before: Str, value: Tree, after: Str)

  ghost predicate DerivesText(g: Document, t: Str) {
    && Blank(g.before) && Ok(g.value) && Blank(g.after) && Nested(g.value, 0)
    && t == g.before + (Yield(g.value) + g.after)
  }

  /** MAIN: on UTF-8, the parser accepts exactly the JSON texts of RFC 8259 nested within
      its depth, and gives each the value its derivation stands for. */
  lemma ParsesExactlyJson(t: Str, mode: Mode, v: Json)
    requires Valid(t)
    ensures ParseDoc(t, mode) == Some(v) <==> exists g :: DerivesText(g, t) && v == Value(g.value, mode)
  {
    hide ParseValue, Valid, Ws, Yield, Value;
    if ParseDoc(t, mode) == Some(v) {
      var before := WsSplit(t);
      var g := ValueFrom(Ws(t), 0, mode);
      var after := WsSplit(ParseValue(Ws(t), 0, mode).rest);
      assert after + [] == after;
      assert DerivesText(Document(before, g, after), t);
    }
    if g :| DerivesText(g, t) && v == Value(g.value, mode) { DocumentRead(g, t, mode); }
  }

  lemma DocumentRead(g: Document, t: Str, mode: Mode)
    requires DerivesText(g, t)
    ensures ParseDoc(t, mode) == Some(Value(g.value, mode))
  {
    hide ParseValue, Ws, Yield, Value, Ok, Nested;
    WsBlank(g.before, Yield(g.value) + g.after);
    YieldStarts(g.value);
    WsNone(Yield(g.value) + g.after);
    BlankAlone(g.after);
    ValueRead(g.value, g.after, 0, mode);
  }

  lemma BlankAlone(b: Str)
    requires Blank(b)
    ensures N.EndsNumber(b) && Ws(b) == []
  {
    WsBlank(b, []);
    assert b + [] == b;
  }
}
