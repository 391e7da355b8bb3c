/** Exactly which bytes JSON strings and numbers are written as, and how ill-formed text is
    repaired: QuoteJSONString (section 25.5.2.3) and Number::toString (6.1.6.1.20) of ECMA-262. */
module JsonExact {
  import opened JsonValue
  import opened Utf8
  import opened JsOrder
  import opened JsonString
  import J = JsonText
  import T = Text
  import N = JsonNumber
  import W = JsonWtf8
  import Q = Whatwg

  // ── strings ──────────

  const LOWER: Str := [48, 49, 50, 51, 52, 53, 54, 55, 56, 57, 97, 98, 99, 100, 101, 102]

  lemma DigitTable(c: byte)
    ensures forall n :: 0 <= n < 16 ==> HexDigit(n) == LOWER[n] && HexVal(LOWER[n]) == n
    ensures HexVal(65) == 10 && HexVal(66) == 11 && HexVal(67) == 12 && HexVal(68) == 13 && HexVal(69) == 14 &&
      HexVal(70) == 15
    ensures c !in LOWER && !(65 <= c <= 70) ==> HexVal(c) == -1
  {
    if HexVal(c) >= 0 && !(65 <= c <= 70) { assert LOWER[HexVal(c)] == c; }
  }

  // A code point of a string: any up to U+10FFFF, a lone surrogate among them.
  predicate Point(r: int) { 0 <= r <= 0x10FFFF }

  /** The bytes a code point is stored as: its UTF-8, and three bytes for a surrogate. */
  function Stored(r: int): Str
    requires Point(r)
  {
    if 0xD800 <= r <= 0xDFFF then [0xED, 0x80 + r / 64 % 64, 0x80 + r % 64] else EncodeRune(r)
  }

  function AllStored(rs: seq<int>): Str
    requires forall i :: 0 <= i < |rs| ==> Point(rs[i])
  {
    if rs == [] then [] else Stored(rs[0]) + AllStored(rs[1..])
  }

  // Backslash, u and four lower-case hex digits.
  function Escaped(r: int): Str
    requires 0 <= r < 0x10000
  {
    [92, 117, LOWER[r / 4096], LOWER[r / 256 % 16], LOWER[r / 16 % 16], LOWER[r % 16]]
  }

  /** How a code point is written: the five short escapes, the quote and the backslash behind a
      backslash, other controls and surrogates as hex escapes, everything else as it is. */
  function Quoted(r: int): Str
    requires Point(r)
  {
    if r == 0x08 then [92, 98]
    else if r == 0x09 then [92, 116]
    else if r == 0x0A then [92, 110]
    else if r == 0x0C then [92, 102]
    else if r == 0x0D then [92, 114]
    else if r == 0x22 then [92, 34]
    else if r == 0x5C then [92, 92]
    else if r < 0x20 || 0xD800 <= r <= 0xDFFF then Escaped(r)
    else Stored(r)
  }

  function AllQuoted(rs: seq<int>): Str
    requires forall i :: 0 <= i < |rs| ==> Point(rs[i])
  {
    if rs == [] then [] else Quoted(rs[0]) + AllQuoted(rs[1..])
  }

  lemma AsciiQuoted(r: int)
    requires 0 <= r < 0x80
    ensures EscapeByte(r) == Quoted(r) && Stored(r) == [r as byte]
  {
    DigitTable(0);
    assert r < 0x20 ==> r / 4096 == 0 && r / 256 % 16 == 0 && r / 16 % 16 == r / 16;
  }

  lemma SurrogateQuoted(r: int, t: Str)
    requires IsSurrogate(r)
    ensures var s := Stored(r) + t; IsTriple(s) && s[3..] == t && SurrogateEscape(TripleValue(s)) == Quoted(r)
  {
    DigitTable(0);
    var s := Stored(r) + t;
    assert s[0] == 0xED && s[1] == Stored(r)[1] && s[2] == Stored(r)[2];
    SurrogateParts(r);
    assert TripleValue(s) == r;
    assert LOWER[13] == D;
  }

  lemma SurrogateParts(r: int)
    requires IsSurrogate(r)
    ensures r == 0xD000 + 64 * (r / 64 % 64) + r % 64 && 0x20 <= r / 64 % 64 && r / 4096 == 13
  {
    assert r / 4096 == r / 64 / 64;
  }

  lemma OneWritten(r: int, t: Str)
    requires Point(r)
    ensures WriteSlow(Stored(r) + t) == Quoted(r) + WriteSlow(t)
  {
    hide EscapeByte, TripleValue, SurrogateEscape, Quoted, Escaped, SeqLen;
    var s := Stored(r) + t;
    if r < 0x80 {
      AsciiQuoted(r);
      assert s[0] == r as byte && s[1..] == t;
    } else if IsSurrogate(r) {
      SurrogateQuoted(r, t);
      assert s[0] == 0xED;
    } else {
      ScalarWritten(r, t);
    }
  }

  lemma ScalarWritten(r: int, t: Str)
    requires IsScalar(r) && r >= 0x80
    ensures WriteSlow(Stored(r) + t) == Quoted(r) + WriteSlow(t)
  {
    hide EscapeByte, TripleValue, SurrogateEscape, SeqLen, WriteSlow;
    var e := EncodeRune(r);
    var s := e + t;
    DecodeEncode(r, t);
    assert s[0] == e[0] >= 0x80;
    HighBytes(s);
    assert s[..|e|] == e && s[|e|..] == t;
    SlowHigh(s);
  }

  lemma SlowHigh(s: Str)
    requires s != [] && s[0] >= 0x80 && !IsTriple(s) && SeqLen(s) > 0
    ensures WriteSlow(s) == s[..SeqLen(s)] + WriteSlow(s[SeqLen(s)..])
  {}

  lemma {:induction false} AllWritten(rs: seq<int>, t: Str)
    requires forall i :: 0 <= i < |rs| ==> Point(rs[i])
    ensures WriteSlow(AllStored(rs) + t) == AllQuoted(rs) + WriteSlow(t)
  {
    hide WriteSlow, Stored, Quoted;
    if rs == [] {
      assert [] + t == t && [] + WriteSlow(t) == WriteSlow(t);
    } else {
      var more := AllStored(rs[1..]) + t;
      assert AllStored(rs) + t == Stored(rs[0]) + more;
      OneWritten(rs[0], more);
      AllWritten(rs[1..], t);
    }
  }

  /** MAIN: a string is written between quotes, code point by code point, as JSON.stringify
      does; a byte that starts no code point is written as U+FFFD. */
  lemma StringWritten(rs: seq<int>, bad: Str)
    requires forall i :: 0 <= i < |rs| ==> Point(rs[i])
    requires bad != [] ==> SeqLen(bad) == 0 && !IsTriple(bad)
    ensures bad == [] ==> WriteString(AllStored(rs)) == [34] + AllQuoted(rs) + [34]
    ensures bad != [] ==>
      WriteString(AllStored(rs) + bad) == [34] + AllQuoted(rs) + [0xEF, 0xBF, 0xBD] + WriteString(bad[1..])[1..]
  {
    hide *;
    if bad == [] { WholeWritten(rs); } else { BrokenWritten(rs, bad); }
  }

  lemma WholeWritten(rs: seq<int>)
    requires forall i :: 0 <= i < |rs| ==> Point(rs[i])
    ensures WriteString(AllStored(rs)) == [34] + AllQuoted(rs) + [34]
  {
    hide *;
    SlowBetween(AllStored(rs));
    SlowWritten(rs);
  }

  lemma SlowWritten(rs: seq<int>)
    requires forall i :: 0 <= i < |rs| ==> Point(rs[i])
    ensures WriteSlow(AllStored(rs)) == AllQuoted(rs)
  {
    EmptyWritten();
    hide *;
    AllWritten(rs, []);
    NothingAdded(AllStored(rs));
    NothingAdded(AllQuoted(rs));
  }

  lemma NothingAdded(s: Str)
    ensures s + [] == s
  {}

  lemma BrokenWritten(rs: seq<int>, bad: Str)
    requires forall i :: 0 <= i < |rs| ==> Point(rs[i])
    requires bad != [] && SeqLen(bad) == 0 && !IsTriple(bad)
    ensures WriteString(AllStored(rs) + bad) == [34] + AllQuoted(rs) + [0xEF, 0xBF, 0xBD] + WriteString(bad[1..])[1..]
  {
    assert REPLACEMENT == [0xEF, 0xBF, 0xBD];
    hide *;
    SlowBetween(AllStored(rs) + bad);
    AllWritten(rs, bad);
    BadWritten(bad);
    SlowBetween(bad[1..]);
    InQuotes(AllQuoted(rs), REPLACEMENT, WriteSlow(bad[1..]));
  }

  lemma InQuotes(a: Str, b: Str, c: Str)
    ensures [34] + (a + (b + c)) + [34] == [34] + a + b + ([34] + c + [34])[1..]
  {
    assert ([34] + c + [34])[1..] == c + [34];
  }

  lemma EmptyWritten()
    ensures WriteSlow([]) == []
  {}

  lemma BadWritten(t: Str)
    requires t != [] && SeqLen(t) == 0 && !IsTriple(t)
    ensures WriteSlow(t) == REPLACEMENT + WriteSlow(t[1..])
  {}

  lemma SlowBetween(s: Str)
    ensures WriteString(s) == [34] + WriteSlow(s) + [34]
  {
    hide WriteSlow, WriteFast;
    if Valid(s) { FastIsSlow(s); }
  }

  // ── repair ──────────

  predicate Run(run: Str, rest: Str) {
    run != [] && forall i :: 0 <= i < |run| ==> SeqLen((run + rest)[i..]) == 0
  }

  lemma {:induction false} RunDropped(run: Str, rest: Str)
    requires run == [] || Run(run, rest)
    requires rest == [] || SeqLen(rest) > 0
    ensures ToValid(run + rest, true) == ToValid(rest, false)
  {
    hide SeqLen;
    var t := run + rest;
    if run == [] {
      assert t == rest;
    } else {
      assert SeqLen(t) == 0 by { assert t[0..] == t; }
      assert t[1..] == run[1..] + rest;
      forall i | 0 <= i < |run[1..]| ensures SeqLen((run[1..] + rest)[i..]) == 0 {
        assert (run[1..] + rest)[i..] == t[i + 1..];
      }
      RunDropped(run[1..], rest);
    }
  }

  lemma {:induction false} ValidKept(a: Str, t: Str)
    requires Valid(a)
    ensures ToValid(a + t, false) == a + ToValid(t, false)
    decreases |a|
  {
    hide SeqLen, ToValid;
    if a == [] {
      assert a + t == t;
    } else {
      var n := SeqLen(a);
      SeqLenPrefix(a, t);
      ValidKept(a[n..], t);
      assert (a + t)[..n] == a[..n] && (a + t)[n..] == a[n..] + t;
      FirstKept(a + t);
      assert a == a[..n] + a[n..];
    }
  }

  lemma FirstKept(t: Str)
    requires t != [] && SeqLen(t) > 0
    ensures ToValid(t, false) == t[..SeqLen(t)] + ToValid(t[SeqLen(t)..], false)
  {}

  /** Repairing leaves valid text alone, and makes one U+FFFD of a run of bytes none of which
      starts a code point. */
  lemma RepairedIs(a: Str, run: Str, rest: Str)
    requires Valid(a) && Run(run, rest) && (rest == [] || SeqLen(rest) > 0)
    ensures Repaired(a + run + rest) == a + [0xEF, 0xBF, 0xBD] + Repaired(rest)
    ensures Repaired(a) == a
  {
    hide SeqLen, ToValid, Valid, Run;
    var t := run + rest;
    RunReplaced(run, rest);
    ValidKept(a, t);
    assert a + run + rest == a + t;
    NotRepaired(a, run, rest);
    RepairedEither(rest);
    RepairedEither(a + t);
    assert a + (REPLACEMENT + ToValid(rest, false)) == a + REPLACEMENT + ToValid(rest, false);
  }

  lemma NotRepaired(a: Str, run: Str, rest: Str)
    requires Valid(a)
    ensures Repaired(a) == a && [0xEF, 0xBF, 0xBD] == REPLACEMENT
  {}

  lemma RunReplaced(run: Str, rest: Str)
    requires Run(run, rest) && (rest == [] || SeqLen(rest) > 0)
    ensures ToValid(run + rest, false) == REPLACEMENT + ToValid(rest, false)
  {
    hide SeqLen, ToValid;
    var t := run + rest;
    assert SeqLen(t) == 0 by { assert t[0..] == t; }
    assert t[1..] == run[1..] + rest;
    forall i | 0 <= i < |run[1..]| ensures SeqLen((run[1..] + rest)[i..]) == 0 {
      assert (run[1..] + rest)[i..] == t[i + 1..];
    }
    RunDropped(run[1..], rest);
    FirstReplaced(t);
  }

  lemma FirstReplaced(t: Str)
    requires t != [] && SeqLen(t) == 0
    ensures ToValid(t, false) == REPLACEMENT + ToValid(t[1..], true)
  {}

  lemma RepairedEither(t: Str)
    ensures Repaired(t) == ToValid(t, false)
  {
    hide ToValid;
    if Valid(t) {
      ValidKept(t, []);
      assert t + [] == t;
      NothingRepaired();
    }
  }

  lemma NothingRepaired()
    ensures ToValid([], false) == []
  {}

  // The most bytes from the front that begin a code point, or one byte when none do.
  ghost predicate Longest(b: Str, n: nat) {
    1 <= n <= |b| && (n == 1 || Q.Initial(b[..n])) && forall m :: n < m <= |b| ==> !Q.Initial(b[..m])
  }

  /** Decoding leaves valid text alone, and makes one U+FFFD of the longest beginning of a
      code point found where none is whole. */
  lemma DecodedIs(a: Str, b: Str, n: nat)
    requires Valid(a) && b != [] && SeqLen(b) == 0 && Longest(b, n)
    ensures Q.Decode(a + b) == a + [0xEF, 0xBF, 0xBD] + Q.Decode(b[n..])
  {
    hide Q.Decode, Q.Subpart, Q.Initial;
    Q.SubpartMaximal(b);
    assert n == Q.Subpart(b);
    ValidDecoded(a, b);
    SubpartReplaced(b);
  }

  lemma SubpartReplaced(b: Str)
    requires b != [] && SeqLen(b) == 0
    ensures Q.Decode(b) == REPLACEMENT + Q.Decode(b[Q.Subpart(b)..])
  {}

  lemma {:induction false} ValidDecoded(a: Str, b: Str)
    requires Valid(a)
    ensures Q.Decode(a + b) == a + Q.Decode(b)
    decreases |a|
  {
    hide SeqLen, Q.Decode;
    if a == [] {
      assert a + b == b;
    } else {
      var n := SeqLen(a);
      SeqLenPrefix(a, b);
      ValidDecoded(a[n..], b);
      assert (a + b)[..n] == a[..n] && (a + b)[n..] == a[n..] + b;
      WholeDecoded(a + b);
      assert a == a[..n] + a[n..];
    }
  }

  lemma WholeDecoded(b: Str)
    requires SeqLen(b) > 0
    ensures Q.Decode(b) == b[..SeqLen(b)] + Q.Decode(b[SeqLen(b)..])
  {}

  // ── numbers ──────────

  /** A decimal numeral: sign, digits, fraction, and an exponent if it has one. */
  datatype Numeral = Numeral(neg: bool, whole: seq<digit>, frac: seq<digit>, exp: Option<int>)

  function Written(m: Numeral): Str { (if m.neg then [45] else []) + Unsigned(m) }

  function Unsigned(m: Numeral): Str {
    N.Text(m.whole) + (if m.frac == [] then [] else [46] + N.Text(m.frac)) +
    match m.exp
    case None => []
    case Some(e) => if e < 0 then [101, 45] + Itoa(-e) else [101, 43] + Itoa(e)
  }

  function Denoted(m: Numeral): real {
    N.Scaled(m.neg, m.whole + m.frac, (if m.exp.Some? then m.exp.value else 0) - |m.frac|)
  }

  /** No needless zero: none before the digits but a single one before the point, none after
      them behind the point; and with an exponent one digit before the point, not zero. */
  predicate Tidy(m: Numeral) {
    && m.whole != [] && (m.whole[0] == 0 ==> |m.whole| == 1)
    && (m.frac != [] ==> m.frac[|m.frac| - 1] != 0)
    && (m.exp.Some? ==> |m.whole| == 1 && m.whole[0] != 0)
  }

  function Magnitude(r: real): real { if r < 0.0 then -r else r }

  predicate Everyday(r: real) { 0.000001 <= Magnitude(r) < 1000000000000000000000.0 }

  function NumeralOf(n: Num): Numeral
    requires n.Dec? && |n.digits| > 0
  {
    var l := N.LayoutLiteral(n.neg, n.digits, n.point);
    Numeral(n.neg, l.whole, l.frac, if n.point > 21 || n.point <= -6 then Some(n.point - 1) else None)
  }

  lemma LayoutWritten(n: Num)
    requires n.Dec? && Canonical(n)
    ensures N.FormatNumber(n) == Written(NumeralOf(n))
  {
    hide N.Layout, Unsigned, N.LayoutLiteral;
    if -6 < n.point <= 21 { PlainWritten(n); } else { ExponentWritten(n); }
  }

  lemma PlainWritten(n: Num)
    requires n.Dec? && Canonical(n) && -6 < n.point <= 21
    ensures N.Layout(n.digits, n.point) == Unsigned(NumeralOf(n))
  {
    hide Itoa, N.Text;
    var ds, p, k := n.digits, n.point, |n.digits|;
    if k <= p {
      N.TextConcat(ds, N.ZeroDigits(p - k));
    } else if 0 >= p {
      N.TextConcat(N.ZeroDigits(-p), ds);
      ZeroText();
    }
  }

  lemma ZeroText()
    ensures N.Text([0]) == [48]
  {}

  lemma ExponentWritten(n: Num)
    requires n.Dec? && Canonical(n) && (n.point > 21 || n.point <= -6)
    ensures N.Layout(n.digits, n.point) == Unsigned(NumeralOf(n))
  {
    hide Itoa, N.Text;
    var ds := n.digits;
    if |ds| == 1 { assert ds[..1] == ds && ds[1..] == []; }
  }

  lemma NumeralTidy(n: Num)
    requires n.Dec? && Canonical(n)
    ensures Tidy(NumeralOf(n))
  {
    var ds, p, k := n.digits, n.point, |n.digits|;
    var m := NumeralOf(n);
    if k <= p <= 21 {
      assert m.whole[0] == ds[0];
    } else if 0 < p <= 21 {
      assert m.whole[0] == ds[0] && m.frac[|m.frac| - 1] == ds[k - 1];
    } else if -6 < p <= 0 {
      assert m.frac[|m.frac| - 1] == ds[k - 1];
    } else {
      assert k > 1 ==> m.frac[|m.frac| - 1] == ds[k - 1];
    }
  }

  lemma NumeralDenotes(n: Num)
    requires n.Dec? && Canonical(n)
    ensures Val(n) == Denoted(NumeralOf(n))
  {
    var ds, p := n.digits, n.point;
    var l := N.LayoutLiteral(n.neg, ds, p);
    hide N.Normal, N.Denote, N.Scaled, Val;
    N.LayoutDenotes(n.neg, ds, p);
    N.DenoteIs(n.neg, l.whole, l.frac, l.exp);
    N.NormalValue(n.neg, l.whole + l.frac, |l.whole| + l.exp);
    assert |l.whole| + l.exp - |l.whole + l.frac| == l.exp - |l.frac|;
  }

  // ── how large a number is ──────────

  function Mul(x: real, y: real): real { x * y }

  lemma {:induction false} PowAdds(a: int, b: int)
    ensures Pow10(a + b) == Mul(Pow10(a), Pow10(b))
    decreases if a >= 0 then a else -a
  {
    assert Pow10(0) == 1.0;
    hide Pow10, Mul;
    if a > 0 {
      PowAdds(a - 1, b);
      PowStep(a - 1 + b);
      PowStep(a - 1);
      Tenfold(Pow10(a - 1), Pow10(b));
    } else if a < 0 {
      PowAdds(a + 1, b);
      PowStep(a + b);
      PowStep(a);
      Tenfold(Pow10(a), Pow10(b));
    } else {
      Once(Pow10(b));
    }
  }

  lemma Tenfold(x: real, y: real)
    ensures Mul(10.0 * x, y) == 10.0 * Mul(x, y)
  {}

  lemma Once(y: real)
    ensures Mul(1.0, y) == y
  {}

  lemma PowStep(e: int)
    ensures Pow10(e + 1) == 10.0 * Pow10(e)
  {}

  lemma {:induction false} PowPositive(e: int)
    ensures Pow10(e) > 0.0
    decreases if e >= 0 then e else -e
  {
    if e > 0 { PowPositive(e - 1); } else if e < 0 { PowPositive(e + 1); }
  }

  lemma {:induction false} PowMonotone(a: int, b: int)
    requires a <= b
    ensures Pow10(a) <= Pow10(b)
    decreases b - a
  {
    if a < b {
      PowMonotone(a, b - 1);
      PowStep(b - 1);
      PowPositive(b - 1);
    }
  }

  lemma PowTable()
    ensures Pow10(-6) == 0.000001 && Pow10(21) == 1000000000000000000000.0
  {
    assert Pow10(-3) == 0.001;
    assert Pow10(7) == 10000000.0;
    PowAdds(7, 7);
    PowAdds(14, 7);
  }

  lemma {:induction false} DigitsBound(ds: seq<digit>)
    requires ds != [] && ds[0] != 0
    ensures Pow10(|ds| - 1) <= Natural(ds) as real < Pow10(|ds|)
    ensures Natural(ds) as real + 1.0 <= Pow10(|ds|)
  {
    var front, last := ds[..|ds| - 1], ds[|ds| - 1];
    PowStep(|ds| - 1);
    if |ds| == 1 {
      assert front == [];
    } else {
      DigitsBound(front);
      PowStep(|ds| - 2);
      assert Natural(ds) == 10 * Natural(front) + last;
    }
  }

  lemma MagnitudeIs(n: Num)
    requires n.Dec?
    ensures Magnitude(Val(n)) == Natural(n.digits) as real * Pow10(n.point - |n.digits|)
  {
    var m, p := Natural(n.digits) as real, Pow10(n.point - |n.digits|);
    PowPositive(n.point - |n.digits|);
    NotNegative(m, p);
    assert Val(n) == if n.neg then -(m * p) else m * p;
    hide *;
    MagnitudeOf(m * p, n.neg);
  }

  lemma MagnitudeOf(r: real, neg: bool)
    requires r >= 0.0
    ensures Magnitude(if neg then -r else r) == r
  {}

  lemma NotNegative(a: real, b: real)
    requires a >= 0.0 && b > 0.0
    ensures a * b >= 0.0
  {}

  lemma SizeIs(n: Num)
    requires n.Dec? && Canonical(n)
    ensures Pow10(n.point - 1) <= Magnitude(Val(n)) < Pow10(n.point)
  {
    hide Natural, Pow10, Val, Magnitude;
    var ds := n.digits;
    var m, e := Natural(ds) as real, n.point - |ds|;
    MagnitudeIs(n);
    DigitsBound(ds);
    PowPositive(e);
    PowAdds(|ds| - 1, e);
    PowAdds(|ds|, e);
    assert |ds| - 1 + e == n.point - 1 && |ds| + e == n.point;
    Times(Pow10(|ds| - 1), m, Pow10(e));
    Below(m, Pow10(|ds|), Pow10(e));
  }

  lemma Times(a: real, b: real, c: real)
    requires a <= b && c > 0.0
    ensures a * c <= b * c
  {}

  lemma Below(a: real, b: real, c: real)
    requires a < b && c > 0.0
    ensures a * c < b * c
  {}

  lemma EverydayIs(n: Num)
    requires n.Dec? && Canonical(n)
    ensures Everyday(Val(n)) <==> -6 < n.point <= 21
  {
    SizeIs(n);
    PowTable();
    hide Pow10, Val;
    if n.point > 21 { PowMonotone(21, n.point - 1); } else { PowMonotone(n.point, 21); }
    if n.point > -6 { PowMonotone(-6, n.point - 1); } else { PowMonotone(n.point, -6); }
  }

  /** MAIN: a finite number is written as the tidy numeral that denotes it, plain from 10^-6 up to
      below 10^21 and with an exponent outside; zero is written 0, whatever its sign. */
  lemma NumberWritten(n: Num) returns (m: Numeral)
    requires Canonical(n) && !n.Inf?
    ensures N.FormatNumber(n) == Written(m) && Tidy(m) && Denoted(m) == Val(n)
    ensures m.neg <==> Val(n) < 0.0
    ensures m.exp.None? <==> n.Zero? || Everyday(Val(n))
    ensures n.Zero? ==> Written(m) == [48]
  {
    hide Itoa, N.FormatNumber, Written, Denoted, Tidy, Everyday, Val;
    if n.Zero? {
      m := Numeral(false, [0], [], None);
      ZeroWritten(n);
    } else {
      m := NumeralOf(n);
      LayoutWritten(n);
      NumeralTidy(n);
      NumeralDenotes(n);
      EverydayIs(n);
      SignIs(n);
    }
  }

  lemma SignIs(n: Num)
    requires n.Dec? && Canonical(n)
    ensures n.neg <==> Val(n) < 0.0
  {
    ValIs(n);
    hide Val, Natural, Pow10, Mul;
    DigitsBound(n.digits);
    PowPositive(|n.digits| - 1);
    PowPositive(n.point - |n.digits|);
    Positive(Natural(n.digits) as real, Pow10(n.point - |n.digits|));
  }

  lemma ValIs(n: Num)
    requires n.Dec?
    ensures var v := Mul(Natural(n.digits) as real, Pow10(n.point - |n.digits|)); Val(n) == if n.neg then -v else v
  {
    hide Natural, Pow10;
  }

  lemma Positive(a: real, b: real)
    requires a > 0.0 && b > 0.0
    ensures Mul(a, b) > 0.0
  {}

  lemma ZeroWritten(n: Num)
    requires n.Zero?
    ensures var m := Numeral(false, [0], [], None);
      N.FormatNumber(n) == Written(m) == [48] && Tidy(m) && Denoted(m) == Val(n) == 0.0
  {
    ZeroText();
    var z: seq<digit> := [0];
    assert z + [] == z && z[..0] == [];
    assert Natural(z) == 10 * Natural(z[..0]) + 0;
  }

  // ── values ──────────

  const NULL: Str := T.Ascii("null")
  const TRUE: Str := T.Ascii("true")
  const FALSE: Str := T.Ascii("false")

  // The elements' texts.
  ghost predicate ElemTexts(es: seq<Json>, texts: seq<Str>) {
    |texts| == |es| && forall i :: 0 <= i < |es| ==> J.CanonicalNumbers(es[i]) && texts[i] == J.Print(es[i])
  }

  // The members' texts: the key, a colon, the value.
  ghost predicate MemberTexts(ms: seq<Member>, texts: seq<Str>) {
    |texts| == |ms| && forall i :: 0 <= i < |ms| ==>
      J.CanonicalNumbers(ms[i].value) && texts[i] == WriteString(ms[i].key) + [58] + J.Print(ms[i].value)
  }

  lemma {:induction false} ElemsWritten(es: seq<Json>, texts: seq<Str>)
    requires (forall e :: e in es ==> J.CanonicalNumbers(e)) && ElemTexts(es, texts)
    ensures J.PrintElems(es) == T.Join(texts, 44)
    decreases es
  {
    hide J.Print, J.CanonicalNumbers;
    if |es| > 1 { ElemsWritten(es[1..], texts[1..]); }
  }

  lemma {:induction false} MembersWritten(v: Json, ms: seq<Member>, texts: seq<Str>)
    requires J.PartsOf(ms, v) && MemberTexts(ms, texts)
    ensures J.PrintMembers(v, ms) == T.Join(texts, 44)
    decreases ms
  {
    hide J.Print, J.CanonicalNumbers, WriteString;
    if ms != [] {
      assert ms[0] in ms;
      assert J.PrintMember(v, ms[0]) == texts[0];
    }
    if |ms| > 1 { MembersWritten(v, ms[1..], texts[1..]); }
  }

  /** A value is written without white space: words for the constants, null for an infinity,
      brackets and braces with commas between, members in JavaScript's order. */
  lemma ValueWritten(v: Json, texts: seq<Str>)
    requires J.CanonicalNumbers(v)
    ensures v.Null? || (v.Number? && v.n.Inf?) ==> J.Print(v) == NULL
    ensures v.Bool? ==> J.Print(v) == if v.b then TRUE else FALSE
    ensures v.Number? && !v.n.Inf? ==> J.Print(v) == N.FormatNumber(v.n)
    ensures v.String? ==> J.Print(v) == WriteString(v.s)
    ensures v.Array? && ElemTexts(v.elems, texts) ==> J.Print(v) == [91] + T.Join(texts, 44) + [93]
    ensures v.Object? && MemberTexts(Enumerate(v.members), texts) ==> J.Print(v) == [123] + T.Join(texts, 44) + [125]
  {
    hide WriteString, N.FormatNumber, Enumerate, T.Join;
    match v
    case Array(es) => if ElemTexts(es, texts) { ElemsWritten(es, texts); }
    case Object(ms) =>
      J.MembersArePartsOf(v);
      if MemberTexts(Enumerate(ms), texts) { MembersWritten(v, Enumerate(ms), texts); }
    case _ =>
  }

  // ── tokens ──────────

  /** The bytes of the grammar, and how deep a text may nest. */
  lemma TokensAre(b: byte)
    ensures J.IsWs(b) <==> b in {0x20, 0x09, 0x0A, 0x0D}
    ensures [J.OPEN_BRACE, J.CLOSE_BRACE, J.OPEN_BRACKET, J.CLOSE_BRACKET, J.COLON, J.COMMA] == T.Ascii("{}[]:,")
    ensures [QUOTE, BACKSLASH, N.MINUS, N.PLUS, N.DOT, N.LOWER_E, N.UPPER_E, ZERO] == T.Ascii("\"\\-+.eE0")
    ensures J.NULL_TEXT == T.Ascii("null") && J.TRUE_TEXT == T.Ascii("true") && J.FALSE_TEXT == T.Ascii("false")
    ensures J.MAX_DEPTH == 10000
  {}
}
