/** Number.prototype.toString layout, and the JSON number scanner that reads it back. */
module JsonNumber {
  import opened JsonValue
  import opened JsOrder

  const MINUS: byte := 45
  const PLUS: byte := 43
  const DOT: byte := 46
  const LOWER_E: byte := 101
  const UPPER_E: byte := 69

  function Text(ds: seq<digit>): (s: Str)
    ensures |s| == |ds| && AllDigits(s) && forall i :: 0 <= i < |ds| ==> s[i] as int == 48 + ds[i] as int
  {
    seq(|ds|, i requires 0 <= i < |ds| => (48 + ds[i] as int) as byte)
  }

  function DigitsOf(s: Str): (ds: seq<digit>)
    requires AllDigits(s)
    ensures |ds| == |s| && forall i :: 0 <= i < |s| ==> ds[i] == s[i] - 48
  {
    seq(|s|, i requires 0 <= i < |s| => (assert IsDigitByte(s[i]); s[i] - 48) as digit)
  }

  function ZeroDigits(k: nat): (ds: seq<digit>)
    ensures |ds| == k && forall i :: 0 <= i < k ==> ds[i] == 0
  {
    seq(k, _ => 0)
  }

  /** FormatNumber over the shortest digits of a double. */
  function FormatNumber(n: Num): Str
    requires Canonical(n)
  {
    match n
    case Inf(neg) => (if neg then [MINUS] else []) + INFINITY
    case Zero(_) => [ZERO]
    case Dec(neg, ds, p) => (if neg then [MINUS] else []) + Layout(ds, p)
  }

  const INFINITY: Str := [73, 110, 102, 105, 110, 105, 116, 121]

  function Layout(ds: seq<digit>, n: int): Str
    requires |ds| > 0
  {
    var k := |ds|;
    if k <= n <= 21 then Text(ds) + Text(ZeroDigits(n - k))
    else if 0 < n <= 21 then Text(ds[..n]) + [DOT] + Text(ds[n..])
    else if -6 < n <= 0 then [ZERO, DOT] + Text(ZeroDigits(-n)) + Text(ds)
    else
      var sign := if n - 1 < 0 then MINUS else PLUS;
      var ex := if n - 1 < 0 then 1 - n else n - 1;
      var head := if k == 1 then Text(ds) else Text(ds[..1]) + [DOT] + Text(ds[1..]);
      head + [LOWER_E, sign] + Itoa(ex)
  }

  // ── reading ──────────

  // A JSON number's parts: section 6 of RFC 8259.
  datatype Literal = Literal(neg: bool, whole: seq<digit>, frac: seq<digit>, exp: int)

  /** Length of the run of digits a text starts with. */
  function Run(t: Str): (n: nat)
    ensures n <= |t| && AllDigits(t[..n]) && (n < |t| ==> !IsDigitByte(t[n]))
  {
    if t == [] || !IsDigitByte(t[0]) then 0
    else
      var n := 1 + Run(t[1..]);
      assert forall i :: 0 < i < n ==> t[i] == t[1..][i - 1];
      n
  }

  datatype Scan<T> = NoScan | Scanned(value: T, rest: Str)

  function ScanWhole(t: Str): (r: Scan<seq<digit>>)
    ensures r.Scanned? ==> |r.rest| < |t|
  {
    if t == [] then NoScan
    else if t[0] == ZERO then Scanned([0], t[1..])
    else if IsDigitByte(t[0]) then Scanned(DigitsOf(t[..Run(t)]), t[Run(t)..])
    else NoScan
  }

  function ScanFrac(t: Str): (r: Scan<seq<digit>>)
    ensures r.Scanned? ==> |r.rest| <= |t|
  {
    if t == [] || t[0] != DOT then Scanned([], t)
    else
      var n := Run(t[1..]);
      if n == 0 then NoScan else Scanned(DigitsOf(t[1..][..n]), t[1..][n..])
  }

  function ScanExp(t: Str): (r: Scan<int>)
    ensures r.Scanned? ==> |r.rest| <= |t|
  {
    if t == [] || (t[0] != LOWER_E && t[0] != UPPER_E) then Scanned(0, t)
    else
      var u := t[1..];
      var signed := u != [] && (u[0] == PLUS || u[0] == MINUS);
      var ds := if signed then u[1..] else u;
      var n := Run(ds);
      if n == 0 then NoScan
      else
        var v: int := IndexValue(ds[..n]);
        Scanned(if signed && u[0] == MINUS then -v else v, ds[n..])
  }

  /** parser.number: the literal a text starts with. */
  function ScanNumber(t: Str): (r: Scan<Literal>)
    ensures r.Scanned? ==> |r.rest| < |t|
  {
    var neg := t != [] && t[0] == MINUS;
    match ScanWhole(if neg then t[1..] else t)
    case NoScan => NoScan
    case Scanned(whole, t1) =>
      match ScanFrac(t1)
      case NoScan => NoScan
      case Scanned(frac, t2) =>
        match ScanExp(t2)
        case NoScan => NoScan
        case Scanned(exp, t3) => Scanned(Literal(neg, whole, frac, exp), t3)
  }

  /** The canonical number of digits ds whose point stands before digit `point`. */
  function Normal(neg: bool, ds: seq<digit>, point: int): (n: Num)
    ensures Canonical(n) && !n.Inf?
  {
    if ds == [] then Zero(neg)
    else if ds[0] == 0 then Normal(neg, ds[1..], point - 1)
    else if ds[|ds| - 1] == 0 then Normal(neg, ds[..|ds| - 1], point)
    else Dec(neg, ds, point)
  }

  /** The exact decimal number a literal denotes. */
  function Denote(l: Literal): Num { Normal(l.neg, l.whole + l.frac, |l.whole| + l.exp) }

  // ── normal form keeps the value ──────────

  lemma {:induction false} LeadingZero(ds: seq<digit>)
    requires ds != [] && ds[0] == 0
    ensures Natural(ds) == Natural(ds[1..])
  {
    if |ds| > 1 {
      LeadingZero(ds[..|ds| - 1]);
      assert ds[1..][..|ds| - 2] == ds[..|ds| - 1][1..];
    }
  }

  /** m * 10^e with a sign. */
  function Scaled(neg: bool, ds: seq<digit>, e: int): real {
    var m := Natural(ds) as real * Pow10(e);
    if neg then -m else m
  }

  lemma TrailingZero(neg: bool, ds: seq<digit>, e: int)
    requires ds != [] && ds[|ds| - 1] == 0
    ensures Scaled(neg, ds, e) == Scaled(neg, ds[..|ds| - 1], e + 1)
  {
    var front := ds[..|ds| - 1];
    assert Natural(ds) == 10 * Natural(front);
    assert Pow10(e + 1) == 10.0 * Pow10(e);
    Scale(Natural(front), Pow10(e));
  }

  lemma Scale(n: nat, p: real)
    ensures (10 * n) as real * p == n as real * (10.0 * p)
  {}

  lemma NothingScaled(neg: bool, e: int)
    ensures Scaled(neg, [], e) == 0.0
  {}

  /** Stripping zeros on either side leaves the denoted real unchanged. */
  lemma {:induction false} NormalValue(neg: bool, ds: seq<digit>, point: int)
    ensures Val(Normal(neg, ds, point)) == Scaled(neg, ds, point - |ds|)
    decreases |ds|
  {
    hide Natural, Pow10;
    if ds == [] {
      NothingScaled(neg, point);
    } else if ds[0] == 0 {
      NormalValue(neg, ds[1..], point - 1);
      assert Natural(ds) == Natural(ds[1..]) by { LeadingZero(ds); }
      assert point - 1 - |ds[1..]| == point - |ds|;
    } else if ds[|ds| - 1] == 0 {
      NormalValue(neg, ds[..|ds| - 1], point);
      TrailingZero(neg, ds, point - |ds|);
      assert point - |ds[..|ds| - 1]| == point - |ds| + 1;
    }
  }

  // ── the layout reads back ──────────

  /** What may follow a number without being taken for part of it. */
  predicate EndsNumber(rest: Str) {
    rest == [] || !(IsDigitByte(rest[0]) || rest[0] == DOT || rest[0] == LOWER_E || rest[0] == UPPER_E)
  }

  lemma {:induction false} RunIs(a: Str, rest: Str)
    requires AllDigits(a) && (rest == [] || !IsDigitByte(rest[0]))
    ensures Run(a + rest) == |a|
  {
    if a == [] {
      assert a + rest == rest;
    } else {
      assert IsDigitByte(a[0]);
      assert (a + rest)[1..] == a[1..] + rest;
      RunIs(a[1..], rest);
    }
  }

  lemma DigitsOfText(ds: seq<digit>)
    ensures DigitsOf(Text(ds)) == ds
  {}

  lemma WholeReads(ds: seq<digit>, rest: Str)
    requires ds != [] && ds[0] != 0 && (rest == [] || !IsDigitByte(rest[0]))
    ensures ScanWhole(Text(ds) + rest) == Scanned(ds, rest)
  {
    var t := Text(ds) + rest;
    RunIs(Text(ds), rest);
    assert t[0] == Text(ds)[0];
    assert t[..|ds|] == Text(ds) && t[|ds|..] == rest;
    DigitsOfText(ds);
  }

  lemma FracReads(ds: seq<digit>, rest: Str)
    requires ds != [] && (rest == [] || !IsDigitByte(rest[0]))
    ensures ScanFrac([DOT] + Text(ds) + rest) == Scanned(ds, rest)
  {
    var t := [DOT] + Text(ds) + rest;
    RunIs(Text(ds), rest);
    assert t[1..] == Text(ds) + rest;
    assert t[1..][..|ds|] == Text(ds) && t[1..][|ds|..] == rest;
    DigitsOfText(ds);
  }

  lemma ExpReads(ex: int, rest: Str)
    requires EndsNumber(rest)
    ensures ScanExp([LOWER_E, if ex < 0 then MINUS else PLUS] + Itoa(if ex < 0 then -ex else ex) + rest) ==
      Scanned(ex, rest)
  {
    hide Itoa, IndexValue, Run;
    var a := Itoa(if ex < 0 then -ex else ex);
    var t := [LOWER_E, if ex < 0 then MINUS else PLUS] + a + rest;
    RunIs(a, rest);
    var ds := a + rest;
    assert t[0] == LOWER_E && t[1..] == [if ex < 0 then MINUS else PLUS] + ds && t[1..][1..] == ds;
    assert ds[..|a|] == a && ds[|a|..] == rest;
  }

  lemma {:induction false} StripLeft(neg: bool, k: nat, ds: seq<digit>, point: int)
    ensures Normal(neg, ZeroDigits(k) + ds, point) == Normal(neg, ds, point - k)
    decreases k
  {
    if k == 0 {
      assert ZeroDigits(0) + ds == ds;
    } else {
      assert (ZeroDigits(k) + ds)[1..] == ZeroDigits(k - 1) + ds;
      StripLeft(neg, k - 1, ds, point - 1);
    }
  }

  lemma {:induction false} StripRight(neg: bool, ds: seq<digit>, k: nat, point: int)
    requires ds != [] && ds[0] != 0
    ensures Normal(neg, ds + ZeroDigits(k), point) == Normal(neg, ds, point)
    decreases k
  {
    var s := ds + ZeroDigits(k);
    if k == 0 {
      assert s == ds;
    } else {
      assert s[..|s| - 1] == ds + ZeroDigits(k - 1);
      assert s[0] == ds[0] && s[|s| - 1] == 0;
      StripRight(neg, ds, k - 1, point);
    }
  }

  // The literal Layout(ds, n) is read as.
  function LayoutLiteral(neg: bool, ds: seq<digit>, n: int): Literal
    requires |ds| > 0
  {
    var k := |ds|;
    if k <= n <= 21 then Literal(neg, ds + ZeroDigits(n - k), [], 0)
    else if 0 < n <= 21 then Literal(neg, ds[..n], ds[n..], 0)
    else if -6 < n <= 0 then Literal(neg, [0], ZeroDigits(-n) + ds, 0)
    else Literal(neg, ds[..1], ds[1..], n - 1)
  }

  lemma TextConcat(a: seq<digit>, b: seq<digit>)
    ensures Text(a + b) == Text(a) + Text(b)
  {}

  /** Every branch of the layout denotes exactly the digits it was given. */
  lemma LayoutDenotes(neg: bool, ds: seq<digit>, n: int)
    requires |ds| > 0 && ds[0] != 0 && ds[|ds| - 1] != 0
    ensures Denote(LayoutLiteral(neg, ds, n)) == Dec(neg, ds, n)
  {
    hide Normal, Denote, ZeroDigits, LayoutLiteral;
    NormalAlready(neg, ds, n);
    LiteralIs(neg, ds, n);
    if |ds| <= n <= 21 {
      StripRight(neg, ds, n - |ds|, n);
      DenoteIs(neg, ds + ZeroDigits(n - |ds|), [], 0);
    } else if 0 < n <= 21 {
      DenoteIs(neg, ds[..n], ds[n..], 0);
    } else if -6 < n <= 0 {
      StripLeft(neg, 1 - n, ds, 1);
      DenoteIs(neg, [0], ZeroDigits(-n) + ds, 0);
    } else {
      DenoteIs(neg, ds[..1], ds[1..], n - 1);
    }
  }

  lemma DenoteIs(neg: bool, whole: seq<digit>, frac: seq<digit>, exp: int)
    ensures Denote(Literal(neg, whole, frac, exp)) == Normal(neg, whole + frac, |whole| + exp)
  {
    hide Normal;
  }

  /** The literal's parts, and its digits put together. */
  lemma LiteralIs(neg: bool, ds: seq<digit>, n: int)
    requires |ds| > 0
    ensures var k, l := |ds|, LayoutLiteral(neg, ds, n);
      && (k <= n <= 21 ==> l == Literal(neg, ds + ZeroDigits(n - k), [], 0))
      && (k <= n <= 21 ==> l.whole + [] == l.whole && |l.whole| == n)
      && (n < k && 0 < n <= 21 ==> l == Literal(neg, ds[..n], ds[n..], 0) && ds[..n] + ds[n..] == ds)
      && (-6 < n <= 0 ==> l == Literal(neg, [0], ZeroDigits(-n) + ds, 0))
      && (-6 < n <= 0 ==> [0] + (ZeroDigits(-n) + ds) == ZeroDigits(1 - n) + ds)
      && (n <= -6 || n > 21 ==> l == Literal(neg, ds[..1], ds[1..], n - 1) && ds[..1] + ds[1..] == ds)
  {}

  lemma NormalAlready(neg: bool, ds: seq<digit>, n: int)
    requires |ds| > 0 && ds[0] != 0 && ds[|ds| - 1] != 0
    ensures Normal(neg, ds, n) == Dec(neg, ds, n)
  {}

  lemma NoFrac(t: Str)
    requires t == [] || t[0] != DOT
    ensures ScanFrac(t) == Scanned([], t)
  {}

  lemma NoExp(t: Str)
    requires EndsNumber(t)
    ensures ScanExp(t) == Scanned(0, t)
  {}

  lemma ScanParts(t: Str, whole: seq<digit>, t1: Str, frac: seq<digit>, t2: Str, exp: int, rest: Str)
    requires t != [] && t[0] != MINUS && ScanWhole(t) == Scanned(whole, t1)
    requires ScanFrac(t1) == Scanned(frac, t2) && ScanExp(t2) == Scanned(exp, rest)
    ensures ScanNumber(t) == Scanned(Literal(false, whole, frac, exp), rest)
  {
    hide ScanWhole, ScanFrac, ScanExp;
  }

  /** The scanner consumes the whole layout and reads that literal. */
  lemma LayoutScans(ds: seq<digit>, n: int, rest: Str)
    requires |ds| > 0 && ds[0] != 0 && EndsNumber(rest)
    ensures ScanNumber(Layout(ds, n) + rest) == Scanned(LayoutLiteral(false, ds, n), rest)
    ensures IsDigitByte(Layout(ds, n)[0])
  {
    if |ds| <= n <= 21 {
      WholeScans(ds, n, rest);
    } else if 0 < n <= 21 {
      PointScans(ds, n, rest);
    } else if -6 < n <= 0 {
      SmallScans(ds, n, rest);
    } else {
      ExponentScans(ds, n, rest);
    }
  }

  lemma WholeScans(ds: seq<digit>, n: int, rest: Str)
    requires |ds| > 0 && ds[0] != 0 && EndsNumber(rest) && |ds| <= n <= 21
    ensures ScanNumber(Layout(ds, n) + rest) == Scanned(LayoutLiteral(false, ds, n), rest)
    ensures IsDigitByte(Layout(ds, n)[0])
  {
    hide ScanWhole, ScanFrac, ScanExp, ScanNumber;
    var z := ds + ZeroDigits(n - |ds|);
    var t := Text(z) + rest;
    TextConcat(ds, ZeroDigits(n - |ds|));
    assert Layout(ds, n) == Text(z) && IsDigitByte(Text(z)[0]) && t[0] == Text(z)[0];
    WholeReads(z, rest);
    NoFrac(rest);
    NoExp(rest);
    ScanParts(t, z, rest, [], rest, 0, rest);
  }

  lemma PointScans(ds: seq<digit>, n: int, rest: Str)
    requires |ds| > 0 && ds[0] != 0 && EndsNumber(rest) && 0 < n <= 21 && n < |ds|
    ensures ScanNumber(Layout(ds, n) + rest) == Scanned(LayoutLiteral(false, ds, n), rest)
    ensures IsDigitByte(Layout(ds, n)[0])
  {
    hide ScanWhole, ScanFrac, ScanExp, ScanNumber;
    var tail := [DOT] + Text(ds[n..]) + rest;
    var t := Text(ds[..n]) + tail;
    assert Layout(ds, n) + rest == t && t[0] == Text(ds[..n])[0] == Layout(ds, n)[0];
    assert IsDigitByte(Text(ds[..n])[0]) && tail[0] == DOT;
    WholeReads(ds[..n], tail);
    FracReads(ds[n..], rest);
    NoExp(rest);
    ScanParts(t, ds[..n], tail, ds[n..], rest, 0, rest);
  }

  lemma SmallScans(ds: seq<digit>, n: int, rest: Str)
    requires |ds| > 0 && ds[0] != 0 && EndsNumber(rest) && -6 < n <= 0
    ensures ScanNumber(Layout(ds, n) + rest) == Scanned(LayoutLiteral(false, ds, n), rest)
    ensures IsDigitByte(Layout(ds, n)[0])
  {
    var f := ZeroDigits(-n) + ds;
    SmallText(ds, n);
    hide ScanFrac, ScanExp, ScanNumber, Text, Layout, ZeroDigits;
    var tail := [DOT] + Text(f) + rest;
    var t := [ZERO] + tail;
    assert Layout(ds, n) + rest == t && t[1..] == tail;
    FracReads(f, rest);
    NoExp(rest);
    ScanParts(t, [0], tail, f, rest, 0, rest);
  }

  lemma SmallText(ds: seq<digit>, n: int)
    requires |ds| > 0 && -6 < n <= 0
    ensures Layout(ds, n) == [ZERO] + ([DOT] + Text(ZeroDigits(-n) + ds))
  {
    TextConcat(ZeroDigits(-n), ds);
  }

  function Exponent(n: int): Str {
    [LOWER_E, if n - 1 < 0 then MINUS else PLUS] + Itoa(if n - 1 < 0 then 1 - n else n - 1)
  }

  lemma ExponentScans(ds: seq<digit>, n: int, rest: Str)
    requires |ds| > 0 && ds[0] != 0 && EndsNumber(rest)
    requires !(0 < n <= 21) && !(-6 < n <= 0)
    ensures ScanNumber(Layout(ds, n) + rest) == Scanned(LayoutLiteral(false, ds, n), rest)
    ensures IsDigitByte(Layout(ds, n)[0])
  {
    hide ScanWhole, ScanFrac, ScanExp, ScanNumber, Itoa;
    ExpReads(n - 1, rest);
    assert Exponent(n)[0] == LOWER_E;
    var first := ds[..1];
    assert IsDigitByte(Text(first)[0]);
    if |ds| == 1 {
      assert ds == first;
      OneExponentScans(ds, n, Exponent(n) + rest, rest);
    } else {
      ManyExponentScans(ds, n, Exponent(n) + rest, rest);
    }
  }

  lemma OneExponentScans(ds: seq<digit>, n: int, tail: Str, rest: Str)
    requires |ds| == 1 && ds[0] != 0 && tail == Exponent(n) + rest && !(0 < n <= 21) && !(-6 < n <= 0)
    requires tail[0] == LOWER_E && ScanExp(tail) == Scanned(n - 1, rest)
    ensures ScanNumber(Layout(ds, n) + rest) == Scanned(LayoutLiteral(false, ds, n), rest)
    ensures IsDigitByte(Layout(ds, n)[0])
  {
    hide ScanWhole, ScanFrac, ScanExp, ScanNumber, Itoa, Exponent;
    assert Layout(ds, n) == Text(ds) + Exponent(n) by { OneText(ds, n); }
    var t := Text(ds) + tail;
    assert Layout(ds, n) + rest == t;
    assert IsDigitByte(Text(ds)[0]) && t[0] == Text(ds)[0];
    WholeReads(ds, tail);
    NoFrac(tail);
    ScanParts(t, ds, tail, [], tail, n - 1, rest);
    assert ds[..1] == ds && ds[1..] == [];
  }

  lemma OneText(ds: seq<digit>, n: int)
    requires |ds| == 1 && !(0 < n <= 21) && !(-6 < n <= 0)
    ensures Layout(ds, n) == Text(ds) + Exponent(n)
  {}

  lemma ManyExponentScans(ds: seq<digit>, n: int, tail: Str, rest: Str)
    requires |ds| > 1 && ds[0] != 0 && tail == Exponent(n) + rest && !(0 < n <= 21) && !(-6 < n <= 0)
    requires tail[0] == LOWER_E && ScanExp(tail) == Scanned(n - 1, rest)
    ensures ScanNumber(Layout(ds, n) + rest) == Scanned(LayoutLiteral(false, ds, n), rest)
    ensures IsDigitByte(Layout(ds, n)[0])
  {
    ManyText(ds, n);
    hide ScanWhole, ScanFrac, ScanExp, ScanNumber, Itoa, Exponent, Layout, Text;
    var a, b := Text(ds[..1]), Text(ds[1..]);
    var point := [DOT] + b + tail;
    var t := a + point;
    Regroup(a, b, Exponent(n), rest);
    assert IsDigitByte(a[0]) && t[0] == a[0] && point[0] == DOT && Layout(ds, n)[0] == a[0];
    WholeReads(ds[..1], point);
    FracReads(ds[1..], tail);
    ScanParts(t, ds[..1], point, ds[1..], tail, n - 1, rest);
  }

  lemma Regroup(a: Str, b: Str, e: Str, rest: Str)
    ensures a + [DOT] + b + e + rest == a + ([DOT] + b + (e + rest))
  {}

  lemma ManyText(ds: seq<digit>, n: int)
    requires |ds| > 1 && !(0 < n <= 21) && !(-6 < n <= 0)
    ensures Layout(ds, n) == Text(ds[..1]) + [DOT] + Text(ds[1..]) + Exponent(n)
  {}

  lemma MinusScans(t: Str, l: Literal, rest: Str)
    requires t != [] && t[0] != MINUS && ScanNumber(t) == Scanned(l, rest)
    ensures ScanNumber([MINUS] + t) == Scanned(l.(neg := true), rest)
  {
    hide ScanWhole, ScanFrac, ScanExp;
    assert ([MINUS] + t)[1..] == t;
  }

  /** MAIN: a finite number other than negative zero is printed as a literal that the
      scanner consumes whole and that denotes it exactly. */
  lemma FormatScans(n: Num, rest: Str)
    requires Canonical(n) && !n.Inf? && n != Zero(true) && EndsNumber(rest)
    ensures var r := ScanNumber(FormatNumber(n) + rest);
      r.Scanned? && r.rest == rest && Denote(r.value) == n
    ensures FormatNumber(n) != [] && (FormatNumber(n)[0] == MINUS || IsDigitByte(FormatNumber(n)[0]))
  {
    hide ScanNumber, Layout, Denote, Normal;
    match n
    case Zero(_) => ZeroScans(rest);
    case Dec(neg, ds, p) =>
      LayoutScans(ds, p, rest);
      LayoutDenotes(neg, ds, p);
      if neg {
        assert FormatNumber(n) + rest == [MINUS] + (Layout(ds, p) + rest);
        MinusScans(Layout(ds, p) + rest, LayoutLiteral(false, ds, p), rest);
      } else {
        assert [] + Layout(ds, p) == Layout(ds, p);
      }
  }

  lemma ZeroScans(rest: Str)
    requires EndsNumber(rest)
    ensures ScanNumber([ZERO] + rest) == Scanned(Literal(false, [0], [], 0), rest)
    ensures Denote(Literal(false, [0], [], 0)) == Zero(false)
  {
    assert ([ZERO] + rest)[1..] == rest;
    var d: seq<digit> := [0];
    assert d + [] == d && d[1..] == [];
  }
}
