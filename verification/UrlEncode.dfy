/** EncodeURL: what a Location header may carry, bad escapes escaped.  UrlEscapes says which
    good ones it keeps. */
module UrlEncode {
  import opened JsonValue
  import opened Utf8
  import opened UrlCodec
  import S = JsonString

  predicate Allowed(c: byte) {
    c == 0x21 || 0x23 <= c <= 0x3b || c == 0x3d || 0x3f <= c <= 0x5f || 0x61 <= c <= 0x7a || c == 0x7c || c == 0x7e
  }

  predicate KeepUri(c: byte) {
    IsAlnum(c) || c in {59, 44, 47, 63, 58, 64, 38, 61, 43, 36, 45, 95, 46, 33, 126, 42, 39, 40, 41, 35}
  }

  const PERCENT_25: Str := [PERCENT, 50, 53]

  datatype Piece = Piece(out: Str, taken: nat)

  /** One turn of the loop: what is written and how much of the text it is for. */
  function NextPiece(t: Str): (p: Piece)
    requires t != []
    ensures 1 <= p.taken <= |t|
  {
    if t[0] == PERCENT then
      if IsEscape(t) then Piece(t[..3], 3)
      else if |t| == 1 then Piece(PERCENT_25, 1)
      else if !IsHex(t[1]) then
        var n := DecodeRune(t[1..]).size;
        Piece(Percent(t[..1 + n], KeepUri), 1 + n)
      else if |t| == 2 then Piece([PERCENT], 1)
      else
        var n := DecodeRune(t[2..]).size;
        Piece(Percent(t[..2 + n], KeepUri), 2 + n)
    else if t[0] < 0x80 && Allowed(t[0]) then Piece([t[0]], 1)
    else
      var n := DecodeRune(t).size;
      Piece(Percent(t[..n], KeepUri), n)
  }

  function EncodeFrom(t: Str): Str
    decreases |t|
  {
    if t == [] then [] else NextPiece(t).out + EncodeFrom(t[NextPiece(t).taken..])
  }

  function EncodeURL(s: Str): Str { EncodeFrom(S.Repaired(s)) }

  /** A text that needs no escaping: allowed bytes and whole escapes, and possibly a '%'
      with one hex digit left at the very end. */
  predicate Settled(t: Str)
    decreases |t|
  {
    || t == []
    || (IsEscape(t) && Settled(t[3..]))
    || (t[0] != PERCENT && Allowed(t[0]) && Settled(t[1..]))
    || (|t| == 2 && t[0] == PERCENT && IsHex(t[1]))
  }

  /** Escaped text with nothing dangling. */
  predicate Whole(t: Str)
    decreases |t|
  {
    || t == []
    || (IsEscape(t) && Whole(t[3..]))
    || (t[0] != PERCENT && Allowed(t[0]) && Whole(t[1..]))
  }

  lemma {:induction false} WholeThen(a: Str, b: Str)
    requires Whole(a) && Settled(b)
    ensures Settled(a + b)
    decreases |a|
  {
    hide Allowed;
    if a == [] {
      assert a + b == b;
    } else if IsEscape(a) {
      assert (a + b)[3..] == a[3..] + b;
      WholeThen(a[3..], b);
    } else {
      assert (a + b)[1..] == a[1..] + b;
      WholeThen(a[1..], b);
    }
  }

  lemma {:induction false} PercentWhole(s: Str)
    ensures Whole(Percent(s, KeepUri))
  {
    hide Escaped, EscapeValue, IsEscape;
    if s != [] {
      PercentWhole(s[1..]);
      var rest := Percent(s[1..], KeepUri);
      var t := Percent(s, KeepUri);
      if KeepUri(s[0]) {
        assert t[0] == s[0] && t[1..] == rest;
      } else {
        assert t == Escaped(s[0]) + rest;
        EscapeBack(s[0], rest);
      }
    }
  }

  /** What a turn writes needs no further escaping, whichever branch wrote it. */
  lemma PieceSettled(t: Str, rest: Str)
    requires t != [] && Settled(rest) &&
      (NextPiece(t).out == [PERCENT] ==> |rest| == 1 && IsHex(rest[0]) && rest[0] != PERCENT)
    ensures Settled(NextPiece(t).out + rest)
  {
    hide Percent, DecodeRune;
    var p := NextPiece(t);
    if t[0] == PERCENT && IsEscape(t) {
      var u := t[..3] + rest;
      assert u[0] == t[0] && u[1] == t[1] && u[2] == t[2] && u[3..] == rest;
    } else if t[0] == PERCENT && |t| == 1 {
      var u := PERCENT_25 + rest;
      assert u[3..] == rest;
    } else if t[0] == PERCENT && |t| == 2 && IsHex(t[1]) {
      assert p.out + rest == [PERCENT, rest[0]];
    } else if t[0] != PERCENT && t[0] < 0x80 && Allowed(t[0]) {
      assert ([t[0]] + rest)[1..] == rest;
    } else {
      PercentWhole(t[..p.taken]);
      WholeThen(p.out, rest);
    }
  }

  /** MAIN: whatever is written needs no escaping again. */
  lemma {:induction false} EncodedSettles(t: Str)
    ensures Settled(EncodeFrom(t))
    decreases |t|
  {
    hide NextPiece, Settled;
    if t == [] {
      NothingSettled();
    } else {
      var n := NextPiece(t).taken;
      EncodedSettles(t[n..]);
      if NextPiece(t).out == [PERCENT] { LonePercent(t); }
      PieceSettled(t, EncodeFrom(t[n..]));
    }
  }

  lemma NothingSettled()
    ensures Settled([])
  {}

  /** A '%' is left alone only before one last hex digit, which is written as it is. */
  lemma LonePercent(t: Str)
    requires t != [] && NextPiece(t).out == [PERCENT]
    ensures |t| == 2 && IsHex(t[1]) && NextPiece(t).taken == 1 && EncodeFrom(t[1..]) == [t[1]]
  {
    NeverBare(t);
    var u := t[1..];
    assert u[0] == t[1] && u[1..] == [] && t[1] != PERCENT && Allowed(t[1]);
    assert EncodeFrom(u) == [u[0]] + [];
  }

  lemma NeverBare(t: Str)
    requires t != [] && NextPiece(t).out == [PERCENT]
    ensures |t| == 2 && IsHex(t[1]) && t[0] == PERCENT
  {
    hide DecodeRune;
    var p := NextPiece(t);
    if !(t[0] == PERCENT && |t| == 2 && IsHex(t[1])) {
      assert Whole([PERCENT]) by { PercentWhole(t[..p.taken]); }
    }
  }

  lemma {:induction false} SettledFixed(t: Str)
    requires Settled(t)
    ensures EncodeFrom(t) == t
    decreases |t|
  {
    hide DecodeRune, Percent;
    if t != [] {
      if IsEscape(t) {
        SettledFixed(t[3..]);
        assert t[..3] + t[3..] == t;
      } else if t[0] != PERCENT {
        SettledFixed(t[1..]);
        AllowedAscii(t[0]);
        assert [t[0]] + t[1..] == t;
      } else {
        assert t[1..] == [t[1]] && t[1..][1..] == [];
        AllowedHex(t[1]);
        assert EncodeFrom(t[1..]) == [t[1]] + [];
        assert t == [PERCENT] + [t[1]];
      }
    }
  }

  lemma AllowedAscii(c: byte)
    ensures Allowed(c) ==> c < 0x80
  {}

  lemma AllowedHex(c: byte)
    requires IsHex(c)
    ensures Allowed(c) && c < 0x80 && c != PERCENT
  {}

  lemma {:induction false} SettledValid(t: Str)
    requires Settled(t)
    ensures Valid(t)
    decreases |t|
  {
    hide Allowed;
    if t != [] {
      AllowedAscii(t[0]);
      if IsEscape(t) {
        SettledValid(t[3..]);
        assert SeqLen(t) == 1 && SeqLen(t[1..]) == 1 && SeqLen(t[2..]) == 1;
        assert t[2..][1..] == t[3..] && Valid(t[2..]);
        assert t[1..][1..] == t[2..] && Valid(t[1..]);
      } else if t[0] != PERCENT {
        SettledValid(t[1..]);
      } else {
        AllowedHex(t[1]);
        assert t[1..][1..] == [] && Valid(t[1..]);
      }
    }
  }

  /** MAIN: a text is left as it is exactly when it needs no escaping. */
  lemma FixedIff(s: Str)
    ensures EncodeURL(s) == s <==> Settled(s)
  {
    hide EncodeFrom, Settled;
    EncodedSettles(S.Repaired(s));
    if Settled(s) {
      SettledValid(s);
      SettledFixed(s);
    }
  }

  /** MAIN: encoding twice is encoding once, through every branch for a bad escape. */
  lemma EncodeTwice(s: Str)
    ensures EncodeURL(EncodeURL(s)) == EncodeURL(s)
  {
    hide EncodeFrom;
    var u := EncodeURL(s);
    EncodedSettles(S.Repaired(s));
    SettledValid(u);
    SettledFixed(u);
  }

  /** EncodeURL's loop. */
  method EncodeUrlLoop(s: Str) returns (b: Str)
    ensures b == EncodeURL(s)
  {
    hide NextPiece;
    var t := S.Repaired(s);
    b := [];
    var i := 0;
    assert t[0..] == t;
    while i < |t|
      invariant i <= |t| && EncodeFrom(t) == b + EncodeFrom(t[i..])
    {
      var p := NextPiece(t[i..]);
      assert t[i..][p.taken..] == t[i + p.taken..];
      b := b + p.out;
      i := i + p.taken;
    }
    assert t[i..] == [];
  }
}
