/** The byte parser: an index that advances, proved against the grammar functions. */
module JsonParser {
  import opened JsonValue
  import opened Utf8
  import opened JsOrder
  import opened JsonText
  import N = JsonNumber
  import S = JsonString

  /** What a reading method returns, against what the grammar says of the same text. */
  ghost predicate Agrees<T>(r: Option<T>, left: Str, spec: Parsed<T>) {
    match r
    case None => spec.NoScan?
    case Some(v) => spec == N.Scanned(v, left)
  }

  /** Text with b put in front of what was read. */
  function Prepend(b: Str, u: S.Text): S.Text {
    match u
    case NoText => S.NoText
    case Text(s, rest) => S.Text(b + s, rest)
  }

  lemma PlainRunIs(t: Str, n: nat)
    requires n <= |t| && forall i :: 0 <= i < n ==> t[i] != S.QUOTE && t[i] != S.BACKSLASH && t[i] >= 0x20
    requires n < |t| ==> t[n] == S.QUOTE || t[n] == S.BACKSLASH || t[n] < 0x20
    ensures S.PlainRun(t) == n
  {}

  lemma {:induction false} RunIs(t: Str, n: nat)
    requires n <= |t| && (forall i :: 0 <= i < n ==> IsDigitByte(t[i])) && (n < |t| ==> !IsDigitByte(t[n]))
    ensures N.Run(t) == n
  {
    if n > 0 { RunIs(t[1..], n - 1); }
  }

  class Parser {
    const s: Str
    const mode: Mode
    var i: nat

    constructor (s: Str, mode: Mode)
      ensures this.s == s && this.mode == mode && i == 0
    {
      this.s, this.mode, i := s, mode, 0;
    }

    /** ws: to the first byte that is not white space. */
    method SkipWs()
      requires i <= |s|
      modifies this
      ensures old(i) <= i <= |s| && s[i..] == Ws(s[old(i)..])
    {
      while i < |s| && IsWs(s[i])
        invariant old(i) <= i <= |s| && Ws(s[i..]) == Ws(s[old(i)..])
      {
        assert s[i..][1..] == s[i + 1..];
        i := i + 1;
      }
    }

    method Literal(word: Str, v: Json) returns (r: Option<Json>)
      requires i <= |s| && word != []
      modifies this
      ensures old(i) <= i <= |s| && (r.Some? ==> old(i) < i)
      ensures Agrees(r, s[i..], Word(s[old(i)..], word, v))
    {
      if word <= s[i..] {
        assert s[i..][|word|..] == s[i + |word|..];
        i := i + |word|;
        r := Some(v);
      } else {
        r := None;
      }
    }

    /** hex4: four hex digits as a number, or -1 and no move. */
    method HexFour() returns (r: int)
      requires i <= |s|
      modifies this
      ensures r == S.Hex4(s[old(i)..]) && (if r < 0 then i == old(i) else i == old(i) + 4 <= |s|)
    {
      ghost var t := s[i..];
      if i + 4 > |s| { return -1; }
      r := 0;
      var k := 0;
      while k < 4
        invariant 0 <= k <= 4 && i == old(i) && r >= 0
        invariant k == 0 ==> r == 0
        invariant forall j :: 0 <= j < k ==> S.HexVal(t[j]) >= 0
        invariant k == 1 ==> r == S.HexVal(t[0])
        invariant k == 2 ==> r == 16 * S.HexVal(t[0]) + S.HexVal(t[1])
        invariant k == 3 ==> r == 256 * S.HexVal(t[0]) + 16 * S.HexVal(t[1]) + S.HexVal(t[2])
        invariant k == 4 ==> r == 4096 * S.HexVal(t[0]) + 256 * S.HexVal(t[1]) + 16 * S.HexVal(t[2]) + S.HexVal(t[3])
      {
        assert s[i + k] == t[k];
        var h := S.HexVal(s[i + k]);
        if h < 0 { return -1; }
        r := 16 * r + h;
        k := k + 1;
      }
      i := i + 4;
    }

    /** The part of the string loop after a backslash. */
    method Escape() returns (r: Option<Str>)
      requires i < |s| && s[i] == S.BACKSLASH
      modifies this
      ensures old(i) < i <= |s|
      ensures match r
        case None => S.StepOf(s[old(i)..], mode.lossless).Bad?
        case Some(out) => S.StepOf(s[old(i)..], mode.lossless) == S.Emit(out, s[i..])
    {
      hide S.Hex4, EncodeRune, S.Triple, S.IsTriple;
      ghost var t := s[i..];
      i := i + 1;
      if i >= |s| { return None; }
      var e := s[i];
      assert t[1] == e && forall k :: 0 <= k <= |t| ==> t[k..] == s[old(i) + k..];
      i := i + 1;
      if e == S.QUOTE || e == S.BACKSLASH || e == 47 { return Some([e]); }
      if e == 98 { return Some([8]); }
      if e == 102 { return Some([12]); }
      if e == 110 { return Some([10]); }
      if e == 114 { return Some([13]); }
      if e == 116 { return Some([9]); }
      if e != S.U { return None; }
      var n := HexFour();
      if n < 0 { return None; }
      if !IsSurrogate(n) { return Some(EncodeRune(n)); }
      if n < 0xDC00 && i + 1 < |s| && s[i] == S.BACKSLASH && s[i + 1] == S.U {
        assert t[6..][2..] == s[i + 2..] && t[8..] == s[i + 2..];
        var save := i;
        i := i + 2;
        var lo := HexFour();
        if 0xDC00 <= lo <= 0xDFFF {
          return Some(EncodeRune(PairRune(n, lo)));
        }
        i := save;
      }
      r := Some(if mode.lossless then S.Triple(n) else EncodeRune(RUNE_ERROR));
    }

    /** A string as the mode keeps it. */
    function Kept(b: Str): Str { if mode.lossless then b else S.Repaired(b) }

    method PlainBytes()
      requires i <= |s|
      modifies this
      ensures old(i) <= i <= |s| && i == old(i) + S.PlainRun(s[old(i)..])
    {
      var start := i;
      while i < |s| && s[i] != S.QUOTE && s[i] != S.BACKSLASH && s[i] >= 0x20
        invariant start <= i <= |s|
        invariant forall k :: start <= k < i ==> s[k] != S.QUOTE && s[k] != S.BACKSLASH && s[k] >= 0x20
      {
        i := i + 1;
      }
      PlainRunIs(s[start..], i - start);
    }

    /** str: the fast path to a closing quote, else the escape loop. */
    method Text() returns (r: Option<Str>)
      requires i < |s| && s[i] == S.QUOTE
      modifies this
      ensures old(i) < i <= |s|
      ensures match r
        case None => S.ParseText(s[old(i) + 1..], mode.lossless).NoText?
        case Some(v) => S.ParseText(s[old(i) + 1..], mode.lossless) == S.Text(v, s[i..])
    {
      hide S.Unescape, S.Repaired, S.PlainRun, S.ParseText, Prepend;
      i := i + 1;
      var start := i;
      ghost var t := s[start..];
      PlainBytes();
      TextIs(t);
      assert t[..i - start] == s[start..i] && t[i - start..] == s[i..];
      if i < |s| && s[i] == S.QUOTE {
        assert t[i - start] == S.QUOTE && t[i - start + 1..] == s[i + 1..];
        i := i + 1;
        return Some(S.Repaired(s[start..i - 1]));
      }
      assert t == s[start..i] + s[i..];
      PlainPrepend(s[start..i], s[i..]);
      r := EscapeLoop(s[start..i], t);
    }

    lemma TextIs(t: Str)
      ensures var n := S.PlainRun(t);
        S.ParseText(t, mode.lossless) ==
          if n < |t| && t[n] == S.QUOTE then S.Text(S.Repaired(t[..n]), t[n + 1..])
          else match S.Unescape(t, mode.lossless)
            case NoText => S.NoText
            case Text(b, rest) => S.Text(Kept(b), rest)
    {}

    lemma PlainPrepend(a: Str, t: Str)
      requires forall k :: 0 <= k < |a| ==> a[k] != S.QUOTE && a[k] != S.BACKSLASH && a[k] >= 0x20
      ensures S.Unescape(a + t, mode.lossless) == Prepend(a, S.Unescape(t, mode.lossless))
    {
      S.PlainUnescape(a, t, mode.lossless);
    }

    /** The slow loop, with what has been read in b. */
    method EscapeLoop(b0: Str, ghost t: Str) returns (r: Option<Str>)
      requires i <= |s| && S.Unescape(t, mode.lossless) == Prepend(b0, S.Unescape(s[i..], mode.lossless))
      modifies this
      ensures old(i) <= i <= |s|
      ensures match r
        case None => S.Unescape(t, mode.lossless).NoText?
        case Some(v) => var u := S.Unescape(t, mode.lossless); u.Text? && u.rest == s[i..] && v == Kept(u.s)
    {
      hide S.StepOf, S.Unescape, S.Repaired;
      var b := b0;
      while i < |s|
        invariant old(i) <= i <= |s|
        invariant S.Unescape(t, mode.lossless) == Prepend(b, S.Unescape(s[i..], mode.lossless))
      {
        var c := s[i];
        ghost var u := s[i..];
        assert u[0] == c && u[1..] == s[i + 1..];
        FirstStep(u);
        if c == S.QUOTE {
          i := i + 1;
          assert b + [] == b;
          return Some(Kept(b));
        } else if c < 0x20 {
          return None;
        } else if c != S.BACKSLASH {
          StepMore(t, b, u, [c], s[i + 1..]);
          b := b + [c];
          i := i + 1;
        } else {
          var e := Escape();
          if e.None? { return None; }
          StepMore(t, b, u, e.value, s[i..]);
          b := b + e.value;
        }
      }
      assert s[i..] == [];
      FirstStep(s[i..]);
      return None;
    }

    /** What the loop does with a byte that is no backslash, and when it cannot go on. */
    lemma FirstStep(u: Str)
      ensures u == [] ==> S.Unescape(u, mode.lossless).NoText?
      ensures u != [] && u[0] == S.QUOTE ==> S.Unescape(u, mode.lossless) == S.Text([], u[1..])
      ensures u != [] && u[0] != S.QUOTE && u[0] < 0x20 ==> S.Unescape(u, mode.lossless).NoText?
      ensures u != [] && u[0] != S.QUOTE && u[0] != S.BACKSLASH && u[0] >= 0x20 ==>
        S.StepOf(u, mode.lossless) == S.Emit([u[0]], u[1..])
      ensures S.StepOf(u, mode.lossless).Bad? ==> S.Unescape(u, mode.lossless).NoText?
    {}

    lemma StepMore(t: Str, b: Str, u: Str, out: Str, rest: Str)
      requires S.Unescape(t, mode.lossless) == Prepend(b, S.Unescape(u, mode.lossless))
      requires S.StepOf(u, mode.lossless) == S.Emit(out, rest)
      ensures S.Unescape(t, mode.lossless) == Prepend(b + out, S.Unescape(rest, mode.lossless))
    {
      hide S.StepOf;
      if S.Unescape(rest, mode.lossless).Text? {
        var x := S.Unescape(rest, mode.lossless).s;
        assert b + (out + x) == b + out + x;
      }
    }

    /** A run of digits. */
    method Digits() returns (ds: seq<digit>)
      requires i <= |s|
      modifies this
      ensures old(i) <= i <= |s| && i == old(i) + N.Run(s[old(i)..])
      ensures var t := s[old(i)..]; ds == N.DigitsOf(t[..N.Run(t)]) && s[i..] == t[N.Run(t)..]
    {
      var start := i;
      while i < |s| && IsDigitByte(s[i])
        invariant start <= i <= |s| && forall k :: start <= k < i ==> IsDigitByte(s[k])
      {
        i := i + 1;
      }
      RunIs(s[start..], i - start);
      assert s[start..][..i - start] == s[start..i] && s[start..][i - start..] == s[i..];
      ds := N.DigitsOf(s[start..i]);
    }

    /** number: sign, whole part, fraction, exponent. */
    method Number() returns (r: Option<Json>)
      requires i < |s| && (s[i] == N.MINUS || IsDigitByte(s[i]))
      modifies this
      ensures old(i) < i <= |s|
      ensures match r
        case None => N.ScanNumber(s[old(i)..]).NoScan?
        case Some(v) => var sc := N.ScanNumber(s[old(i)..]);
          sc.Scanned? && sc.rest == s[i..] && v == Json.Number(mode.round(N.Denote(sc.value)))
    {
      hide N.Denote, N.Run, N.DigitsOf;
      ghost var t := s[i..];
      var neg := s[i] == N.MINUS;
      if neg {
        assert t[1..] == s[i + 1..];
        i := i + 1;
      }
      if i >= |s| { return None; }
      ghost var t0 := s[i..];
      var whole: seq<digit>;
      if s[i] == ZERO {
        assert t0[1..] == s[i + 1..];
        whole := [0];
        i := i + 1;
      } else if IsDigitByte(s[i]) {
        FirstDigit(t0);
        whole := Digits();
      } else {
        return None;
      }
      assert N.ScanWhole(t0) == N.Scanned(whole, s[i..]);
      ghost var t1 := s[i..];
      var frac := Fraction();
      if frac.None? { return None; }
      ghost var t2 := s[i..];
      var exp := Exponent();
      if exp.None? { return None; }
      r := Some(Json.Number(mode.round(N.Denote(N.Literal(neg, whole, frac.value, exp.value)))));
    }

    lemma FirstDigit(t: Str)
      requires t != [] && IsDigitByte(t[0])
      ensures N.Run(t) > 0
    {}

    method Fraction() returns (r: Option<seq<digit>>)
      requires i <= |s|
      modifies this
      ensures old(i) <= i <= |s|
      ensures Agrees(r, s[i..], N.ScanFrac(s[old(i)..]))
    {
      if i >= |s| || s[i] != N.DOT { return Some([]); }
      assert s[i..][1..] == s[i + 1..];
      i := i + 1;
      var d := i;
      var ds := Digits();
      r := if i == d then None else Some(ds);
    }

    lemma NoExp(t: Str)
      ensures t == [] || (t[0] != N.LOWER_E && t[0] != N.UPPER_E) ==> N.ScanExp(t) == N.Scanned(0, t)
    {}

    /** An exponent whose digits start at k, after the sign if there is one. */
    lemma ExpIs(t: Str, k: nat)
      requires t != [] && (t[0] == N.LOWER_E || t[0] == N.UPPER_E)
      requires k == if |t| > 1 && (t[1] == N.PLUS || t[1] == N.MINUS) then 2 else 1
      ensures var n := N.Run(t[k..]);
        N.ScanExp(t) ==
          if n == 0 then N.NoScan
          else N.Scanned(Signed(k == 2 && t[1] == N.MINUS, IndexValue(t[k..][..n])), t[k..][n..])
    {
      hide N.Run, IndexValue;
      assert k == 2 ==> t[1..][1..] == t[2..];
    }

    function Signed(minus: bool, n: int): int { if minus then -n else n }

    method Exponent() returns (r: Option<int>)
      requires i <= |s|
      modifies this
      ensures old(i) <= i <= |s|
      ensures Agrees(r, s[i..], N.ScanExp(s[old(i)..]))
    {
      hide N.Run, IndexValue, N.DigitsOf, N.ScanExp, Signed;
      ghost var t := s[i..];
      NoExp(t);
      if i >= |s| || (s[i] != N.LOWER_E && s[i] != N.UPPER_E) { return Some(0); }
      i := i + 1;
      var minus := false;
      if i < |s| && (s[i] == N.PLUS || s[i] == N.MINUS) {
        minus := s[i] == N.MINUS;
        i := i + 1;
      }
      var d := i;
      ghost var k := d - old(i);
      assert k == if |t| > 1 && (t[1] == N.PLUS || t[1] == N.MINUS) then 2 else 1;
      assert t[k..] == s[d..] && minus == (k == 2 && t[1] == N.MINUS);
      ExpIs(t, k);
      var _ := Digits();
      if i == d { return None; }
      assert s[d..][..i - d] == s[d..i];
      r := Some(Signed(minus, IndexValue(s[d..i])));
    }

    /** value: dispatch on the first byte. */
    method Value(depth: nat) returns (r: Option<Json>)
      requires i <= |s|
      modifies this
      ensures old(i) <= i <= |s| && (r.Some? ==> old(i) < i)
      ensures Agrees(r, s[i..], ParseValue(s[old(i)..], depth, mode))
      decreases |s| - i, 1
    {
      hide ParseElems, ParseMembers, N.ScanNumber, N.Denote, S.ParseText, Word, Ws;
      if depth > MAX_DEPTH || i >= |s| { return None; }
      var c := s[i];
      assert s[i..][0] == c && s[i..][1..] == s[i + 1..];
      if c == OPEN_BRACE {
        r := ObjectValue(depth);
      } else if c == OPEN_BRACKET {
        r := ArrayValue(depth);
      } else if c == S.QUOTE {
        var str := Text();
        r := if str.None? then None else Some(String(str.value));
      } else if c == 116 {
        r := Literal(TRUE_TEXT, Bool(true));
      } else if c == 102 {
        r := Literal(FALSE_TEXT, Bool(false));
      } else if c == 110 {
        r := Literal(NULL_TEXT, Null);
      } else if c == N.MINUS || IsDigitByte(c) {
        r := Number();
      } else {
        r := None;
      }
    }

    /** array: elements until a closing bracket. */
    method ArrayValue(depth: nat) returns (r: Option<Json>)
      requires i < |s| && s[i] == OPEN_BRACKET && depth <= MAX_DEPTH
      modifies this
      ensures old(i) < i <= |s|
      ensures Agrees(r, s[i..], ParseValue(s[old(i)..], depth, mode))
      decreases |s| - i, 0
    {
      hide ParseElems, Ws;
      ghost var t := s[i..];
      assert t[1..] == s[i + 1..];
      i := i + 1;
      SkipWs();
      if i < |s| && s[i] == CLOSE_BRACKET {
        assert s[i..][1..] == s[i + 1..];
        i := i + 1;
        return Some(Array([]));
      }
      r := Elements(depth, s[i..]);
    }

    method Elements(depth: nat, ghost t: Str) returns (r: Option<Json>)
      requires i <= |s| && t == s[i..] && depth <= MAX_DEPTH
      modifies this
      ensures old(i) <= i <= |s|
      ensures Agrees(r, s[i..], ParseElems(t, depth, mode, []))
      decreases |s| - i, 2
    {
      hide ParseValue, ParseElems, Ws;
      var es := [];
      while true
        invariant old(i) <= i <= |s|
        invariant ParseElems(t, depth, mode, []) == ParseElems(s[i..], depth, mode, es)
        decreases |s| - i
      {
        ghost var u := s[i..];
        SkipWs();
        var v := Value(depth + 1);
        ElemsStep(u, depth, es);
        if v.None? { return None; }
        SkipWs();
        if i >= |s| { return None; }
        assert s[i..][1..] == s[i + 1..];
        if s[i] == COMMA {
          i := i + 1;
          es := es + [v.value];
        } else if s[i] == CLOSE_BRACKET {
          i := i + 1;
          return Some(Array(es + [v.value]));
        } else {
          return None;
        }
      }
    }

    lemma ElemsStep(t: Str, depth: nat, es: seq<Json>)
      ensures ParseElems(t, depth, mode, es) ==
        match ParseValue(Ws(t), depth + 1, mode)
        case NoScan => N.NoScan
        case Scanned(v, rest) =>
          var u := Ws(rest);
          if StartsWith(u, COMMA) then ParseElems(u[1..], depth, mode, es + [v])
          else if StartsWith(u, CLOSE_BRACKET) then N.Scanned(Array(es + [v]), u[1..])
          else N.NoScan
    {}

    /** object: members until a closing brace; Object.Set is Put. */
    method ObjectValue(depth: nat) returns (r: Option<Json>)
      requires i < |s| && s[i] == OPEN_BRACE && depth <= MAX_DEPTH
      modifies this
      ensures old(i) < i <= |s|
      ensures Agrees(r, s[i..], ParseValue(s[old(i)..], depth, mode))
      decreases |s| - i, 0
    {
      hide ParseMembers, Ws;
      ghost var t := s[i..];
      assert t[1..] == s[i + 1..];
      i := i + 1;
      SkipWs();
      if i < |s| && s[i] == CLOSE_BRACE {
        assert s[i..][1..] == s[i + 1..];
        i := i + 1;
        return Some(Object([]));
      }
      r := Members(depth, s[i..]);
    }

    /** A key, its colon and the white space after it. */
    method Key() returns (r: Option<Str>)
      requires i <= |s|
      modifies this
      ensures old(i) <= i <= |s|
      ensures Agrees(r, s[i..], ParseKey(s[old(i)..], mode))
    {
      hide S.ParseText, Ws;
      if i >= |s| || s[i] != S.QUOTE { return None; }
      assert s[i..][1..] == s[i + 1..];
      var k := Text();
      if k.None? { return None; }
      SkipWs();
      if i >= |s| || s[i] != COLON { return None; }
      assert s[i..][1..] == s[i + 1..];
      i := i + 1;
      SkipWs();
      r := k;
    }

    method Members(depth: nat, ghost t: Str) returns (r: Option<Json>)
      requires i <= |s| && t == s[i..] && depth <= MAX_DEPTH
      modifies this
      ensures old(i) <= i <= |s|
      ensures Agrees(r, s[i..], ParseMembers(t, depth, mode, []))
      decreases |s| - i, 2
    {
      hide ParseValue, ParseMembers, ParseKey, Ws, Put;
      var ms := [];
      while true
        invariant old(i) <= i <= |s|
        invariant ParseMembers(t, depth, mode, []) == ParseMembers(s[i..], depth, mode, ms)
        decreases |s| - i
      {
        ghost var u := s[i..];
        SkipWs();
        var k := Key();
        MembersStep(u, depth, ms);
        if k.None? { return None; }
        var v := Value(depth + 1);
        if v.None? { return None; }
        SkipWs();
        if i >= |s| { return None; }
        assert s[i..][1..] == s[i + 1..];
        if s[i] == COMMA {
          i := i + 1;
          ms := Put(ms, k.value, v.value);
        } else if s[i] == CLOSE_BRACE {
          i := i + 1;
          return Some(Object(Put(ms, k.value, v.value)));
        } else {
          return None;
        }
      }
    }

    lemma MembersStep(t: Str, depth: nat, ms: seq<Member>)
      ensures ParseMembers(t, depth, mode, ms) ==
        match ParseKey(Ws(t), mode)
        case NoScan => N.NoScan
        case Scanned(k, t1) =>
          match ParseValue(t1, depth + 1, mode)
          case NoScan => N.NoScan
          case Scanned(v, rest) =>
            var u := Ws(rest);
            if StartsWith(u, COMMA) then ParseMembers(u[1..], depth, mode, Put(ms, k, v))
            else if StartsWith(u, CLOSE_BRACE) then N.Scanned(Object(Put(ms, k, v)), u[1..])
            else N.NoScan
    {}

    /** parse: white space, one value, white space, end. */
    method Document() returns (r: Option<Json>)
      requires i == 0
      modifies this
      ensures r == ParseDoc(s, mode)
    {
      hide ParseValue, Ws;
      assert s[0..] == s;
      SkipWs();
      var v := Value(0);
      if v.None? { return None; }
      SkipWs();
      if i != |s| { return None; }
      r := v;
    }
  }
}
