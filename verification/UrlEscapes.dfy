/** What EncodeURL's output means: which of a text's own escapes survive it. */
module UrlEscapes {
  import opened JsonValue
  import opened Utf8
  import opened UrlCodec
  import opened UrlEncode
  import opened UrlQuery
  import S = JsonString

  /** The bytes the written text stands for: an escape that the loop meets is kept for the
      byte it names, and everything else stands for itself. */
  function Meant(t: Str): Str
    decreases |t|
  {
    if t == [] then []
    else
      var n := NextPiece(t).taken;
      (if IsEscape(t) then [EscapeValue(t)] else t[..n]) + Meant(t[n..])
  }

  /** A bad '%' takes the rune after it, or after its one hex digit, along; here that rune
      is the '%' of a valid escape. */
  predicate Swallows(t: Str)
    requires t != []
  {
    && t[0] == PERCENT && !IsEscape(t)
    && var n := NextPiece(t).taken;
    n >= 2 && IsEscape(t[n - 1..])
  }

  /** How many escapes the loop breaks so. */
  function Swallowed(t: Str): nat
    decreases |t|
  {
    if t == [] then 0 else (if Swallows(t) then 1 else 0) + Swallowed(t[NextPiece(t).taken..])
  }

  // ── what is written ──────────

  lemma PlainLoose(c: byte, rest: Str)
    requires c != PERCENT
    ensures LooseBytes([c] + rest) == [c] + LooseBytes(rest)
  {
    assert ([c] + rest)[1..] == rest;
  }

  /** What is no escape and no bare '%' is copied, if it is one plain byte, or escaped. */
  lemma PieceShape(t: Str)
    requires t != [] && !IsEscape(t) && NextPiece(t).out != [PERCENT]
    ensures var p := NextPiece(t);
      p.out == Percent(t[..p.taken], KeepUri) || (p == Piece([t[0]], 1) && t[0] != PERCENT && t[..1] == [t[0]])
  {
    hide DecodeRune;
    if t[0] == PERCENT && |t| == 1 {
      assert t[1..] == [] && t[..1] == t && Percent([], KeepUri) == [];
      assert Escaped(PERCENT) == PERCENT_25;
    }
  }

  lemma BareIs(t: Str)
    requires t != [] && NextPiece(t).out == [PERCENT]
    ensures NextPiece(t).taken == 1 && t[..1] == [PERCENT] && !IsEscape(t)
  {
    NeverBare(t);
  }

  lemma EscapeShape(t: Str)
    requires IsEscape(t)
    ensures NextPiece(t) == Piece(t[..3], 3) && t[..3] != [PERCENT]
  {
    assert |t[..3]| == 3;
  }

  /** Each turn of the loop writes what its piece stands for. */
  lemma PieceMeans(t: Str, rest: Str)
    requires t != [] && (NextPiece(t).out == [PERCENT] ==> rest == [t[|t| - 1]])
    ensures var n := NextPiece(t).taken;
      LooseBytes(NextPiece(t).out + rest) == (if IsEscape(t) then [EscapeValue(t)] else t[..n]) + LooseBytes(rest)
  {
    hide NextPiece, LooseBytes, Percent;
    if IsEscape(t) {
      EscapeShape(t);
      KeptMeans(t, rest);
    } else if NextPiece(t).out == [PERCENT] {
      BareIs(t);
      LoneMeans(rest[0]);
    } else {
      PieceShape(t);
      if NextPiece(t) == Piece([t[0]], 1) && t[0] != PERCENT && t[..1] == [t[0]] {
        PlainLoose(t[0], rest);
      } else {
        LooseBack(t[..NextPiece(t).taken], KeepUri, rest);
      }
    }
  }

  lemma KeptMeans(t: Str, rest: Str)
    requires IsEscape(t)
    ensures LooseBytes(t[..3] + rest) == [EscapeValue(t)] + LooseBytes(rest)
  {
    var u := t[..3] + rest;
    assert u[0] == t[0] && u[1] == t[1] && u[2] == t[2] && u[3..] == rest;
  }

  lemma LoneMeans(c: byte)
    ensures LooseBytes([PERCENT] + [c]) == [PERCENT] + LooseBytes([c])
  {
    assert ([PERCENT] + [c])[1..] == [c];
  }

  /** Decoding what is written gives what was meant. */
  lemma {:induction false} EncodedMeans(t: Str)
    ensures LooseBytes(EncodeFrom(t)) == Meant(t)
    decreases |t|
  {
    hide NextPiece, LooseBytes, IsEscape;
    if t == [] {
      NothingLoose([], []);
    } else {
      var n := NextPiece(t).taken;
      EncodedMeans(t[n..]);
      if NextPiece(t).out == [PERCENT] { LonePercent(t); }
      PieceMeans(t, EncodeFrom(t[n..]));
    }
  }

  // ── what was there ──────────

  lemma {:induction false} LiteralLoose(t: Str, n: nat)
    requires n <= |t| && forall i :: 0 <= i < n ==> !IsEscape(t[i..])
    ensures LooseBytes(t) == t[..n] + LooseBytes(t[n..])
  {
    hide IsEscape;
    if n == 0 {
      assert t[0..] == t;
    } else {
      assert !IsEscape(t[0..]) && t[0..] == t;
      forall i | 0 <= i < n - 1 ensures !IsEscape(t[1..][i..]) { assert t[1..][i..] == t[i + 1..]; }
      LiteralLoose(t[1..], n - 1);
      assert t[1..][n - 1..] == t[n..] && [t[0]] + t[1..][..n - 1] == t[..n];
    }
  }

  /** A '%' can start only the last rune of a bad piece. */
  lemma OnlyLast(t: Str, i: nat)
    requires t != [] && !IsEscape(t) && i < NextPiece(t).taken && IsEscape(t[i..])
    ensures t[0] == PERCENT && 1 <= i == NextPiece(t).taken - 1
  {
    RuneBytes(t);
    if |t| > 1 { RuneBytes(t[1..]); }
    if |t| > 2 { RuneBytes(t[2..]); }
    assert t[0..] == t && i > 0;
    hide DecodeRune;
  }

  // A rune of more than one byte holds no '%'.
  lemma RuneBytes(t: Str)
    requires t != []
    ensures var n := DecodeRune(t).size; n > 1 ==> forall i :: 0 <= i < n ==> t[i] != PERCENT
  {}

  /** The piece read as decoding the text itself reads it. */
  lemma PieceWas(t: Str)
    requires t != [] && !IsEscape(t)
    ensures var n := NextPiece(t).taken;
      && (!Swallows(t) ==> LooseBytes(t) == t[..n] + LooseBytes(t[n..]))
      && (Swallows(t) ==> |LooseBytes(t)| + 2 == n + |LooseBytes(t[n..])|)
  {
    var n := NextPiece(t).taken;
    forall i | 0 <= i < n && IsEscape(t[i..]) ensures Swallows(t) && i == n - 1 { OnlyLast(t, i); }
    if Swallows(t) {
      LiteralLoose(t, n - 1);
      EscapeLoose(t[n - 1..]);
      assert t[n - 1..][1..] == t[n..];
    } else {
      LiteralLoose(t, n);
    }
  }

  // Without its '%' an escape is two literal bytes.
  lemma EscapeLoose(t: Str)
    requires IsEscape(t)
    ensures LooseBytes(t) == [EscapeValue(t)] + LooseBytes(t[3..])
    ensures LooseBytes(t[1..]) == [t[1], t[2]] + LooseBytes(t[3..])
  {
    assert t[1..][1..] == t[2..] && t[2..][1..] == t[3..];
    assert LooseBytes(t[2..]) == [t[2]] + LooseBytes(t[3..]);
  }

  lemma {:induction false} MeantIsLonger(t: Str)
    ensures |Meant(t)| == |LooseBytes(t)| + 2 * Swallowed(t)
    ensures Swallowed(t) == 0 ==> Meant(t) == LooseBytes(t)
    decreases |t|
  {
    hide NextPiece, Swallows;
    if t != [] {
      var n := NextPiece(t).taken;
      MeantIsLonger(t[n..]);
      if IsEscape(t) { KeptWhole(t); } else { PieceWas(t); }
    }
  }

  lemma KeptWhole(t: Str)
    requires IsEscape(t)
    ensures NextPiece(t).taken == 3 && !Swallows(t)
  {}

  /** MAIN: what is written stands for exactly the text, escapes decoded, if and only if no
      bad '%' stands right before an escape, or right before a hex digit and an escape,
      where the loop meets them.  Each one that does adds two bytes. */
  lemma EscapesKept(s: Str)
    ensures var t := S.Repaired(s);
      && |LooseBytes(EncodeURL(s))| == |LooseBytes(t)| + 2 * Swallowed(t)
      && (LooseBytes(EncodeURL(s)) == LooseBytes(t) <==> Swallowed(t) == 0)
  {
    hide LooseBytes, Swallowed, Meant, EncodeFrom, S.Repaired;
    EncodedMeans(S.Repaired(s));
    MeantIsLonger(S.Repaired(s));
  }

  /** "%%41" becomes "%25%2541": the escape of 'A' is lost. */
  lemma EscapeLost()
    ensures EncodeURL([37, 37, 52, 49]) == [37, 50, 53, 37, 50, 53, 52, 49]
    ensures Swallowed([37, 37, 52, 49]) == 1
  {
    var t: Str := [37, 37, 52, 49];
    AsciiValid(t);
    var u: Str := [52, 49];
    assert t[2..] == u && t[..2] == [37, 37] && t[1..] == [37, 52, 49] && u[1..] == [49] && u[1..][1..] == [];
    assert DecodeRune(t[1..]).size == 1;
    assert NextPiece(t) == Piece(Percent([37, 37], KeepUri), 2);
    TwoPercents();
    assert NextPiece(u) == Piece([52], 1) && NextPiece([49]) == Piece([49], 1);
    assert EncodeFrom([49]) == [49] + EncodeFrom([]);
    assert EncodeFrom(u) == [52] + EncodeFrom([49]) == [52, 49];
    assert EncodeFrom(t) == [37, 50, 53, 37, 50, 53] + [52, 49];
    assert Swallowed([49]) == 0 && Swallowed(u) == 0;
    assert Swallows(t);
  }

  lemma TwoPercents()
    ensures Percent([37, 37], KeepUri) == [37, 50, 53, 37, 50, 53]
  {
    var p: Str := [37, 37];
    assert p[1..] == [37] && p[1..][1..] == [];
    assert Escaped(37) == PERCENT_25;
    assert Percent([37], KeepUri) == PERCENT_25 + [];
  }

  lemma AsciiValid(t: Str)
    requires |t| == 4 && forall i :: 0 <= i < 4 ==> t[i] < 0x80
    ensures S.Repaired(t) == t
  {
    assert t[1..][1..] == t[2..] && t[2..][1..] == t[3..] && t[3..][1..] == [];
    assert Valid(t[3..]) && Valid(t[2..]) && Valid(t[1..]) && Valid(t);
  }
}
