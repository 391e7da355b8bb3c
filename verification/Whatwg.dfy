/** DecodeUTF8: each maximal ill-formed subpart becomes one U+FFFD. */
module Whatwg {
  import opened JsonValue
  import opened Utf8

  /** A non-empty beginning of some well-formed sequence. */
  ghost predicate Initial(p: Str) {
    p != [] && exists x: Str :: SeqLen(p + x) == |p| + |x|
  }

  /** Bytes one U+FFFD stands for where no well-formed sequence starts. */
  function Subpart(b: Str): (n: nat)
    requires b != [] && SeqLen(b) == 0
    ensures 1 <= n <= |b|
  {
    if b[0] < 0xC2 || b[0] > 0xF4 || |b| < 2 || !Second(b[0], b[1]) then 1
    else if |b| < 3 || !Cont(b[2]) then 2
    else 3
  }

  function Decode(b: Str): Str
    decreases |b|
  {
    if b == [] then []
    else if SeqLen(b) > 0 then b[..SeqLen(b)] + Decode(b[SeqLen(b)..])
    else REPLACEMENT + Decode(b[Subpart(b)..])
  }

  // ── the subpart is the maximal one ──────────

  lemma TailOf(p: Str)
    requires Initial(p)
    ensures p[0] < 0x80 || 0xC2 <= p[0] <= 0xF4
    ensures |p| >= 2 ==> p[0] >= 0xC2 && Second(p[0], p[1])
    ensures |p| >= 3 ==> p[0] >= 0xE0 && Cont(p[2])
    ensures |p| >= 4 ==> p[0] >= 0xF0 && Cont(p[3])
    ensures |p| <= 4
  {
    var y :| SeqLen(p + y) == |p| + |y|;
    var s := p + y;
    assert forall i :: 0 <= i < |p| ==> s[i] == p[i];
  }

  function FirstSecond(lead: byte): byte { if lead == 0xE0 then 0xA0 else if lead == 0xF0 then 0x90 else 0x80 }

  lemma SecondFits(lead: byte)
    ensures Second(lead, FirstSecond(lead)) && Cont(0x80)
  {}

  /** A lead byte with fitting second and third bytes can be completed. */
  lemma Completed(p: Str)
    requires p != [] && |p| <= 3 && 0xC2 <= p[0] <= 0xF4
    requires |p| >= 2 ==> p[0] >= 0xE0 && Second(p[0], p[1])
    requires |p| >= 3 ==> p[0] >= 0xF0 && Cont(p[2])
    ensures Initial(p)
  {
    hide SeqLen, Second, Cont, FirstSecond;
    SecondFits(p[0]);
    var b: byte := if |p| >= 2 then p[1] else FirstSecond(p[0]);
    var c: byte := if |p| >= 3 then p[2] else 0x80;
    var all: Str := [p[0], b, c, 0x80];
    var n := if p[0] <= 0xDF then 2 else if p[0] <= 0xEF then 3 else 4;
    WellFormed(all, n);
    assert |p| <= n;
    Completes(p, all, n);
  }

  lemma Completes(p: Str, all: Str, n: nat)
    requires p != [] && |p| <= n <= |all| && (forall i :: 0 <= i < |p| ==> p[i] == all[i]) && SeqLen(all[..n]) == n
    ensures Initial(p)
  {
    hide SeqLen;
    assert p + all[|p|..n] == all[..n];
  }

  lemma WellFormed(all: Str, n: nat)
    requires |all| == 4 && 0xC2 <= all[0] <= 0xF4 && Second(all[0], all[1]) && Cont(all[2]) && Cont(all[3])
    requires n == if all[0] <= 0xDF then 2 else if all[0] <= 0xEF then 3 else 4
    ensures SeqLen(all[..n]) == n
  {}

  /** MAIN: one U+FFFD replaces the longest beginning of a well-formed sequence
      found there, or a single byte when there is none. */
  lemma SubpartMaximal(b: Str)
    requires b != [] && SeqLen(b) == 0
    ensures var n := Subpart(b);
      (n == 1 || Initial(b[..n])) && forall m :: n < m <= |b| ==> !Initial(b[..m])
  {
    var n := Subpart(b);
    if n > 1 { Completed(b[..n]); }
    forall m | n < m <= |b| ensures !Initial(b[..m]) {
      if Initial(b[..m]) {
        TailOf(b[..m]);
      }
    }
  }

  // ── what decoding gives ──────────

  lemma ReplacementIsOne()
    ensures SeqLen(REPLACEMENT) == 3 && Valid(REPLACEMENT)
  {
    assert REPLACEMENT[3..] == [];
  }

  /** Decoded text is valid UTF-8, and valid UTF-8 is left as it is. */
  lemma {:induction false} DecodeRepairs(b: Str)
    ensures Valid(Decode(b))
    ensures Decode(b) == b <==> Valid(b)
    decreases |b|
  {
    hide Subpart;
    if b == [] {
    } else if SeqLen(b) > 0 {
      var n := SeqLen(b);
      DecodeRepairs(b[n..]);
      SeqLenPrefix(b, []);
      SeqLenPrefix(b[..n], Decode(b[n..]));
      assert b[..n] + [] == b[..n] && b == b[..n] + b[n..];
      assert Decode(b)[n..] == Decode(b[n..]);
    } else {
      DecodeRepairs(b[Subpart(b)..]);
      ReplacementIsOne();
      ValidConcat(REPLACEMENT, Decode(b[Subpart(b)..]));
    }
  }

  // One turn of the inner loop's outcome, in terms of the remaining bytes.
  predicate Taken(b: Str, need: nat, j: nat, ok: bool) {
    && b != [] && 1 <= j <= |b|
    && (ok ==> SeqLen(b) == j == need + 1)
    && (!ok ==> SeqLen(b) == 0 && Subpart(b) == j)
  }

  function Need(c: byte): nat {
    if 0xC2 <= c <= 0xDF then 1 else if 0xE0 <= c <= 0xEF then 2 else if 0xF0 <= c <= 0xF4 then 3 else 0
  }

  /** The inner loop: take continuation bytes while they fit. */
  method Take(b: Str, i: nat) returns (ok: bool, j: nat)
    requires i < |b| && Need(b[i]) > 0
    ensures i < j <= |b| && Taken(b[i..], Need(b[i]), j - i, ok)
  {
    var need := Need(b[i]);
    var lo := if b[i] == 0xE0 then 0xA0 else if b[i] == 0xF0 then 0x90 else 0x80;
    var hi := if b[i] == 0xED then 0x9F else if b[i] == 0xF4 then 0x8F else 0xBF;
    ghost var t := b[i..];
    j := i + 1;
    ok := true;
    var k := 0;
    while k < need
      invariant k <= need && j == i + 1 + k <= |b|
      invariant k == 0 ==> lo == (if b[i] == 0xE0 then 0xA0 else if b[i] == 0xF0 then 0x90 else 0x80)
      invariant k == 0 ==> hi == (if b[i] == 0xED then 0x9F else if b[i] == 0xF4 then 0x8F else 0xBF)
      invariant k > 0 ==> lo == 0x80 && hi == 0xBF && Second(t[0], t[1])
      invariant k > 1 ==> Cont(t[2])
      invariant k > 2 ==> Cont(t[3])
    {
      if j >= |b| || b[j] < lo || b[j] > hi {
        ok := false;
        assert Taken(t, need, j - i, ok);
        return;
      }
      assert b[j] == t[k + 1];
      lo, hi := 0x80, 0xBF;
      j := j + 1;
      k := k + 1;
    }
  }

  lemma Kept(b: Str, i: nat, j: nat)
    requires i < j <= |b| && SeqLen(b[i..]) == j - i
    ensures Decode(b[i..]) == b[i..j] + Decode(b[j..])
  {
    assert b[i..][..j - i] == b[i..j] && b[i..][j - i..] == b[j..];
  }

  lemma Replaced(b: Str, i: nat, j: nat)
    requires i < j <= |b| && SeqLen(b[i..]) == 0 && Subpart(b[i..]) == j - i
    ensures Decode(b[i..]) == REPLACEMENT + Decode(b[j..])
  {
    assert b[i..][j - i..] == b[j..];
  }

  lemma Single(t: Str)
    requires t != [] && (t[0] < 0x80 || Need(t[0]) == 0)
    ensures t[0] < 0x80 ==> SeqLen(t) == 1
    ensures t[0] >= 0x80 ==> SeqLen(t) == 0 && Subpart(t) == 1
  {}

  /** DecodeUTF8's loop. */
  method DecodeLoop(b: Str) returns (out: Str)
    ensures out == Decode(b)
  {
    hide Decode, SeqLen, Subpart, Need;
    out := [];
    var i := 0;
    assert b[0..] == b && [] + Decode(b) == Decode(b);
    while i < |b|
      invariant i <= |b| && Decode(b) == out + Decode(b[i..])
    {
      var c := b[i];
      if c < 0x80 {
        Single(b[i..]);
        Kept(b, i, i + 1);
        assert b[i..i + 1] == [c];
        out := out + [c];
        i := i + 1;
      } else if Need(c) == 0 {
        Single(b[i..]);
        Replaced(b, i, i + 1);
        out := out + REPLACEMENT;
        i := i + 1;
      } else {
        var ok, j := Take(b, i);
        if ok { Kept(b, i, j); } else { Replaced(b, i, j); }
        out := out + if ok then b[i..j] else REPLACEMENT;
        i := j;
      }
      assert Decode(b) == out + Decode(b[i..]);
    }
    assert b[i..] == [];
    NothingLeft();
  }

  lemma NothingLeft()
    ensures Decode([]) == []
  {}
}
