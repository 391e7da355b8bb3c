/** Numbers by the grammar of RFC 8259 section 6. */
module JsonNumerals {
  import opened JsonValue
  import opened JsOrder
  import N = JsonNumber

  datatype Exponent = NoExp | Exp(mark: byte, sign: Option<byte>, digits: seq<digit>)

  datatype Numeral = Numeral(neg: bool, whole: seq<digit>, frac: Option<seq<digit>>, exp: Exponent)

  predicate ExpOk(x: Exponent) {
    x.Exp? ==>
      && (x.mark == N.LOWER_E || x.mark == N.UPPER_E)
      && (x.sign.Some? ==> x.sign.value == N.PLUS || x.sign.value == N.MINUS)
      && x.digits != []
  }

  // No leading zero, and digits wherever there is a point or an exponent.
  predicate NumeralOk(n: Numeral) {
    && (n.whole == [0] || (n.whole != [] && n.whole[0] != 0))
    && (n.frac.Some? ==> n.frac.value != [])
    && ExpOk(n.exp)
  }

  function FracText(f: Option<seq<digit>>): Str { if f.None? then [] else [N.DOT] + N.Text(f.value) }

  function SignText(sign: Option<byte>): Str { if sign.None? then [] else [sign.value] }

  function ExpText(x: Exponent): Str {
    if x.NoExp? then [] else [x.mark] + (SignText(x.sign) + N.Text(x.digits))
  }

  function NumeralText(n: Numeral): Str {
    (if n.neg then [N.MINUS] else []) + (N.Text(n.whole) + (FracText(n.frac) + ExpText(n.exp)))
  }

  function ExpValue(x: Exponent): int {
    if x.NoExp? then 0
    else Negated(x.sign == Some(N.MINUS), Natural(x.digits))
  }

  function LiteralOf(n: Numeral): N.Literal {
    N.Literal(n.neg, n.whole, if n.frac.None? then [] else n.frac.value, ExpValue(n.exp))
  }

  lemma {:induction false} DigitsValue(ds: seq<digit>)
    ensures IndexValue(N.Text(ds)) == Natural(ds)
  {
    if ds != [] {
      DigitsValue(ds[..|ds| - 1]);
      assert N.Text(ds)[..|ds| - 1] == N.Text(ds[..|ds| - 1]);
    }
  }

  lemma ExpRead(x: Exponent, rest: Str)
    requires ExpOk(x) && N.EndsNumber(rest)
    ensures N.ScanExp(ExpText(x) + rest) == N.Scanned(ExpValue(x), rest)
  {
    if x.NoExp? {
      assert ExpText(x) + rest == rest;
    } else {
      ExpShape(x, rest);
      DigitsRun(x.digits, x.sign == Some(N.MINUS), rest);
      hide RunScan, N.ScanExp, N.Text, ExpText, Natural;
      ExpScan(x.mark, x.sign, N.Text(x.digits) + rest);
    }
  }

  /** What the scanner makes of a run of digits. */
  function RunScan(neg: bool, ds: Str): N.Scan<int> {
    var n := N.Run(ds);
    if n == 0 then N.NoScan else N.Scanned(Negated(neg, IndexValue(ds[..n])), ds[n..])
  }

  lemma UnsignedScan(mark: byte, ds: Str)
    requires mark == N.LOWER_E || mark == N.UPPER_E
    requires ds == [] || (ds[0] != N.PLUS && ds[0] != N.MINUS)
    ensures N.ScanExp([mark] + ds) == RunScan(false, ds)
  {
    hide IndexValue, N.Run;
    assert ([mark] + ds)[1..] == ds;
  }

  lemma SignedScan(mark: byte, sign: byte, ds: Str)
    requires (mark == N.LOWER_E || mark == N.UPPER_E) && (sign == N.PLUS || sign == N.MINUS)
    ensures N.ScanExp([mark] + ([sign] + ds)) == RunScan(sign == N.MINUS, ds)
  {
    hide IndexValue, N.Run;
    assert ([mark] + ([sign] + ds))[1..] == [sign] + ds && ([sign] + ds)[1..] == ds;
  }

  /** An exponent's digits start after its mark and sign. */
  lemma ExpScan(mark: byte, sign: Option<byte>, ds: Str)
    requires mark == N.LOWER_E || mark == N.UPPER_E
    requires ds != [] && IsDigitByte(ds[0]) && (sign.Some? ==> sign.value == N.PLUS || sign.value == N.MINUS)
    ensures N.ScanExp([mark] + (SignText(sign) + ds)) == RunScan(sign == Some(N.MINUS), ds)
  {
    hide N.ScanExp, RunScan;
    if sign.None? {
      assert SignText(sign) + ds == ds;
      UnsignedScan(mark, ds);
    } else {
      SignedScan(mark, sign.value, ds);
    }
  }

  lemma RunDigits(ds: Str, neg: bool) returns (digits: seq<digit>)
    requires ds != [] && IsDigitByte(ds[0])
    ensures var s := RunScan(neg, ds);
      s.Scanned? && digits != [] && ds == N.Text(digits) + s.rest && s.value == Negated(neg, Natural(digits))
  {
    var n := N.Run(ds);
    assert n > 0;
    digits := N.DigitsOf(ds[..n]);
    TextOfDigits(ds[..n]);
    DigitsValue(digits);
    assert ds == ds[..n] + ds[n..];
  }

  lemma DigitsRun(digits: seq<digit>, neg: bool, rest: Str)
    requires digits != [] && N.EndsNumber(rest)
    ensures RunScan(neg, N.Text(digits) + rest) == N.Scanned(Negated(neg, Natural(digits)), rest)
    ensures IsDigitByte((N.Text(digits) + rest)[0])
  {
    var a := N.Text(digits);
    var ds := a + rest;
    N.RunIs(a, rest);
    DigitsValue(digits);
    assert ds[..|a|] == a && ds[|a|..] == rest && ds[0] == a[0];
  }

  function Negated(neg: bool, n: int): int { if neg then -n else n }

  lemma FracRead(f: Option<seq<digit>>, rest: Str)
    requires (f.Some? ==> f.value != []) && (rest == [] || (!IsDigitByte(rest[0]) && rest[0] != N.DOT))
    ensures N.ScanFrac(FracText(f) + rest) == N.Scanned(if f.None? then [] else f.value, rest)
  {
    if f.None? {
      assert FracText(f) + rest == rest;
      N.NoFrac(rest);
    } else {
      N.FracReads(f.value, rest);
    }
  }

  lemma WholeRead(ds: seq<digit>, rest: Str)
    requires (ds == [0] || (ds != [] && ds[0] != 0)) && (rest == [] || !IsDigitByte(rest[0]))
    ensures N.ScanWhole(N.Text(ds) + rest) == N.Scanned(ds, rest)
    ensures (N.Text(ds) + rest)[0] != N.MINUS
  {
    var t := N.Text(ds) + rest;
    assert t[0] == N.Text(ds)[0];
    if ds == [0] { assert t[1..] == rest; } else { N.WholeReads(ds, rest); }
  }

  /** Every numeral is read as the decimal number it is. */
  lemma NumeralRead(n: Numeral, rest: Str)
    requires NumeralOk(n) && N.EndsNumber(rest)
    ensures N.ScanNumber(NumeralText(n) + rest) == N.Scanned(LiteralOf(n), rest)
  {
    hide N.ScanWhole, N.ScanFrac, N.ScanExp, N.Text, ExpValue;
    var t2 := ExpText(n.exp) + rest;
    var t1 := FracText(n.frac) + t2;
    var t0 := N.Text(n.whole) + t1;
    ExpRead(n.exp, rest);
    FracRead(n.frac, t2);
    WholeRead(n.whole, t1);
    NumeralShape(n, rest);
    hide NumeralText, FracText, ExpText;
    if n.neg { assert ([N.MINUS] + t0)[1..] == t0; } else { assert [] + t0 == t0; }
  }

  lemma NumeralShape(n: Numeral, rest: Str)
    ensures NumeralText(n) + rest
      == (if n.neg then [N.MINUS] else []) + (N.Text(n.whole) + (FracText(n.frac) + (ExpText(n.exp) + rest)))
  {
    hide N.Text, FracText, ExpText;
    var f, x := FracText(n.frac), ExpText(n.exp);
    Push(f, x, rest);
    Push(N.Text(n.whole), f + x, rest);
    Push(if n.neg then [N.MINUS] else [], N.Text(n.whole) + (f + x), rest);
  }

  lemma TextOfDigits(s: Str)
    requires AllDigits(s)
    ensures N.Text(N.DigitsOf(s)) == s
  {}

  lemma WholeFrom(t: Str)
    requires N.ScanWhole(t).Scanned?
    ensures var w := N.ScanWhole(t);
      && t == N.Text(w.value) + w.rest && (w.value == [0] || (w.value != [] && w.value[0] != 0))
  {
    if t[0] == ZERO {
      assert N.Text([0]) == [ZERO] && t == [t[0]] + t[1..];
    } else {
      TextOfDigits(t[..N.Run(t)]);
      assert t == t[..N.Run(t)] + t[N.Run(t)..];
    }
  }

  lemma FracFrom(t: Str) returns (f: Option<seq<digit>>)
    requires N.ScanFrac(t).Scanned?
    ensures var s := N.ScanFrac(t);
      t == FracText(f) + s.rest && s.value == (if f.None? then [] else f.value) && (f.Some? ==> f.value != [])
  {
    if t == [] || t[0] != N.DOT {
      f := None;
      assert [] + t == t;
    } else {
      var n := N.Run(t[1..]);
      f := Some(N.DigitsOf(t[1..][..n]));
      TextOfDigits(t[1..][..n]);
      assert t[1..] == t[1..][..n] + t[1..][n..] && t == [N.DOT] + t[1..];
    }
  }

  lemma ExpParts(t: Str) returns (sign: Option<byte>, ds: Str)
    requires N.ScanExp(t).Scanned? && t != [] && (t[0] == N.LOWER_E || t[0] == N.UPPER_E)
    ensures t == [t[0]] + (SignText(sign) + ds) && ds != [] && IsDigitByte(ds[0])
    ensures sign.Some? ==> sign.value == N.PLUS || sign.value == N.MINUS
  {
    hide IndexValue;
    var u := t[1..];
    var signed := u != [] && (u[0] == N.PLUS || u[0] == N.MINUS);
    sign := if signed then Some(u[0]) else None;
    ds := if signed then u[1..] else u;
    assert u == SignText(sign) + ds;
  }

  lemma ExpFrom(t: Str) returns (x: Exponent)
    requires N.ScanExp(t).Scanned?
    ensures var s := N.ScanExp(t); ExpOk(x) && t == ExpText(x) + s.rest && s.value == ExpValue(x)
  {
    if t == [] || (t[0] != N.LOWER_E && t[0] != N.UPPER_E) {
      x := NoExp;
      assert [] + t == t;
    } else {
      var sign, ds := ExpParts(t);
      ExpScan(t[0], sign, ds);
      var digits := RunDigits(ds, sign == Some(N.MINUS));
      hide N.ScanExp, RunScan, N.Text, Natural;
      x := Exp(t[0], sign, digits);
      ExpShape(x, RunScan(sign == Some(N.MINUS), ds).rest);
    }
  }

  lemma Push(a: Str, x: Str, z: Str)
    ensures a + x + z == a + (x + z)
  {}

  lemma ExpShape(x: Exponent, rest: Str)
    requires x.Exp?
    ensures ExpText(x) + rest == [x.mark] + (SignText(x.sign) + (N.Text(x.digits) + rest))
  {
    hide N.Text;
    Push(SignText(x.sign), N.Text(x.digits), rest);
    Push([x.mark], SignText(x.sign) + N.Text(x.digits), rest);
  }

  lemma NumeralFrom(t: Str) returns (n: Numeral)
    requires N.ScanNumber(t).Scanned?
    ensures NumeralOk(n) && t == NumeralText(n) + N.ScanNumber(t).rest && N.ScanNumber(t).value == LiteralOf(n)
  {
    hide N.ScanWhole, N.ScanFrac, N.ScanExp, FracText, ExpText, ExpValue, N.Text;
    var neg := t != [] && t[0] == N.MINUS;
    var t0 := if neg then t[1..] else t;
    var w := N.ScanWhole(t0);
    WholeFrom(t0);
    var f := FracFrom(w.rest);
    var x := ExpFrom(N.ScanFrac(w.rest).rest);
    n := Numeral(neg, w.value, f, x);
    NumeralShape(n, N.ScanNumber(t).rest);
    if neg { assert t == [N.MINUS] + t0; } else { assert t == [] + t0; }
  }
}
