/** encodeURIComponent and decodeURIComponent over UTF-8 bytes (RFC 3986 section 2.1). */
module UrlCodec {
  import opened JsonValue
  import opened Utf8
  import S = JsonString
  import W = JsonWtf8

  const PERCENT: byte := 37

  predicate IsHex(c: byte) { 48 <= c <= 57 || 97 <= c <= 102 || 65 <= c <= 70 }

  function Unhex(c: byte): (n: int)
    ensures IsHex(c) ==> 0 <= n < 16
  {
    var b: int := c;
    if 48 <= b <= 57 then b - 48 else if 97 <= b <= 102 then b - 87 else b - 55
  }

  function UpperHex(n: int): byte
    requires 0 <= n < 16
  {
    if n < 10 then 48 + n else 55 + n
  }

  predicate IsAlnum(c: byte) { 97 <= c <= 122 || 65 <= c <= 90 || 48 <= c <= 57 }

  function Escaped(c: byte): (s: Str)
    ensures |s| == 3
  {
    [PERCENT, UpperHex(c / 16), UpperHex(c % 16)]
  }

  function EncodeByte(c: byte, keep: byte -> bool): Str { if keep(c) then [c] else Escaped(c) }

  /** percentEncode */
  function Percent(s: Str, keep: byte -> bool): Str {
    if s == [] then [] else EncodeByte(s[0], keep) + Percent(s[1..], keep)
  }

  lemma {:induction false} PercentConcat(a: Str, b: Str, keep: byte -> bool)
    ensures Percent(a + b, keep) == Percent(a, keep) + Percent(b, keep)
  {
    if a == [] {
      assert a + b == b;
    } else {
      assert (a + b)[1..] == a[1..] + b;
      PercentConcat(a[1..], b, keep);
    }
  }

  predicate KeepComponent(c: byte) { IsAlnum(c) || c in {45, 95, 46, 33, 126, 42, 39, 40, 41} }

  function EncodeURIComponent(s: Str): Str { Percent(S.Repaired(s), KeepComponent) }

  // ── decoding ──────────

  predicate IsEscape(t: Str) { |t| >= 3 && t[0] == PERCENT && IsHex(t[1]) && IsHex(t[2]) }

  function EscapeValue(t: Str): byte
    requires IsEscape(t)
  {
    16 * Unhex(t[1]) + Unhex(t[2])
  }

  /** Sequence length a lead byte announces, 0 for none. */
  function LeadLen(b: byte): nat {
    if 0xC0 <= b < 0xE0 then 2 else if 0xE0 <= b < 0xF0 then 3 else if 0xF0 <= b < 0xF8 then 4 else 0
  }

  /** k escapes of continuation bytes in a row. */
  function ReadTail(t: Str, k: nat): (r: Option<Str>)
    ensures r.Some? ==> |r.value| == k && |t| >= 3 * k
    decreases k
  {
    if k == 0 then Some([])
    else if !IsEscape(t) || !Cont(EscapeValue(t)) then None
    else match ReadTail(t[3..], k - 1)
      case None => None
      case Some(rest) => Some([EscapeValue(t)] + rest)
  }

  /** What the bytes after a '%' stand for, and how many bytes of text they take. */
  datatype Unit = BadUnit | Unit(out: Str, taken: nat)

  function ReadUnit(t: Str): (u: Unit)
    requires t != []
    ensures u.Unit? ==> 1 <= u.taken <= |t|
  {
    if t[0] != PERCENT then Unit([t[0]], 1)
    else if !IsEscape(t) then BadUnit
    else
      var b := EscapeValue(t);
      if b < 0x80 then Unit([b], 3)
      else
        var n := LeadLen(b);
        if n == 0 then BadUnit
        else match ReadTail(t[3..], n - 1)
          case None => BadUnit
          case Some(tail) =>
            var d := DecodeRune([b] + tail);
            if d.r == RUNE_ERROR || d.size != n then BadUnit else Unit([b] + tail, 3 * n)
  }

  /** DecodeURIComponent: None is URIError. */
  function Decode(t: Str): Option<Str>
    decreases |t|
  {
    if t == [] then Some([])
    else match ReadUnit(t)
      case BadUnit => None
      case Unit(out, n) =>
        match Decode(t[n..])
        case None => None
        case Some(rest) => Some(out + rest)
  }

  /** No code point of s reads as U+FFFD, so s is valid as well. */
  predicate Clean(s: Str)
    decreases |s|
  {
    s == [] || (DecodeRune(s).r != RUNE_ERROR && Clean(s[DecodeRune(s).size..]))
  }

  lemma {:induction false} CleanIsValid(s: Str)
    requires Clean(s)
    ensures Valid(s)
    decreases |s|
  {
    if s != [] { CleanIsValid(s[DecodeRune(s).size..]); }
  }

  // ── one written code point read back ──────────

  lemma EscapeBack(c: byte, t: Str)
    ensures IsEscape(Escaped(c) + t) && EscapeValue(Escaped(c) + t) == c && (Escaped(c) + t)[3..] == t
  {
    var n: int := c;
    assert n == 16 * (n / 16) + n % 16;
  }

  predicate KeepOk(keep: byte -> bool) { forall c: byte :: keep(c) ==> c < 0x80 && c != PERCENT }

  lemma {:induction false} TailReads(s: Str, t: Str, keep: byte -> bool)
    requires KeepOk(keep) && forall i :: 0 <= i < |s| ==> Cont(s[i])
    ensures ReadTail(Percent(s, keep) + t, |s|) == Some(s)
    ensures |Percent(s, keep)| == 3 * |s|
    decreases |s|
  {
    hide Escaped, EscapeValue, IsEscape;
    if s != [] {
      var rest := Percent(s[1..], keep) + t;
      assert !keep(s[0]);
      assert Percent(s, keep) + t == Escaped(s[0]) + rest;
      EscapeBack(s[0], rest);
      TailReads(s[1..], t, keep);
      assert s == [s[0]] + s[1..];
    }
  }

  /** The bytes of one well-formed sequence, written, are read as one unit. */
  lemma SequenceReads(s: Str, t: Str, keep: byte -> bool)
    requires KeepOk(keep) && SeqLen(s) == |s| > 0
    ensures var u := ReadUnit(Percent(s, keep) + t);
      if DecodeRune(s).r == RUNE_ERROR then u.BadUnit? else u == Unit(s, |Percent(s, keep)|)
    ensures Percent(s, keep) != []
  {
    if s[0] < 0x80 {
      OneByteReads(s, t, keep);
    } else {
      ManyBytesRead(s, t, keep);
    }
  }

  lemma OneByteReads(s: Str, t: Str, keep: byte -> bool)
    requires KeepOk(keep) && |s| == 1 && s[0] < 0x80
    ensures ReadUnit(Percent(s, keep) + t) == Unit(s, |Percent(s, keep)|) && Percent(s, keep) != [] &&
      DecodeRune(s).r != RUNE_ERROR
  {
    assert s[1..] == [] && Percent(s, keep) == EncodeByte(s[0], keep) + [] == EncodeByte(s[0], keep);
    EscapeBack(s[0], t);
    assert s == [s[0]];
  }

  lemma ManyBytesRead(s: Str, t: Str, keep: byte -> bool)
    requires KeepOk(keep) && SeqLen(s) == |s| > 1
    ensures var u := ReadUnit(Percent(s, keep) + t);
      if DecodeRune(s).r == RUNE_ERROR then u.BadUnit? else u == Unit(s, |Percent(s, keep)|)
    ensures Percent(s, keep) != []
  {
    hide Escaped, EscapeValue, IsEscape, Combine;
    S.HighBytes(s);
    assert !keep(s[0]);
    var rest := Percent(s[1..], keep) + t;
    assert Percent(s, keep) + t == Escaped(s[0]) + rest;
    EscapeBack(s[0], rest);
    ContTail(s);
    TailReads(s[1..], t, keep);
    assert s == [s[0]] + s[1..];
  }

  lemma ContTail(s: Str)
    requires SeqLen(s) == |s| > 1
    ensures LeadLen(s[0]) == |s| && forall i :: 0 <= i < |s| - 1 ==> Cont(s[1..][i])
  {}

  /** Escaped text is read back whole, unless a code point in it is U+FFFD. */
  lemma {:induction false} PercentReads(s: Str, keep: byte -> bool)
    requires Valid(s) && KeepOk(keep)
    ensures Decode(Percent(s, keep)) == if Clean(s) then Some(s) else None
    decreases |s|
  {
    hide ReadUnit, DecodeRune;
    if s != [] {
      var n := SeqLen(s);
      var head, more := s[..n], s[n..];
      SeqLenPrefix(s, []);
      assert s == head + more;
      PercentConcat(head, more, keep);
      SequenceReads(head, Percent(more, keep), keep);
      HeadRune(s);
      PercentReads(more, keep);
      var t := Percent(s, keep);
      assert t[|Percent(head, keep)|..] == Percent(more, keep);
    }
  }

  lemma HeadRune(s: Str)
    requires SeqLen(s) > 0
    ensures DecodeRune(s) == DecodeRune(s[..SeqLen(s)]) && DecodeRune(s).size == SeqLen(s)
  {
    SeqLenPrefix(s, []);
  }

  lemma {:induction false} RepairedNotClean(s: Str, inRun: bool)
    requires !Valid(s) && !inRun
    ensures !Clean(S.ToValid(s, inRun))
    decreases |s|
  {
    hide DecodeRune, Combine;
    var n := SeqLen(s);
    if n > 0 {
      RepairedNotClean(s[n..], false);
      SeqLenPrefix(s, []);
      SeqLenPrefix(s[..n], S.ToValid(s[n..], false));
      assert s[..n] + [] == s[..n];
      HeadRune(S.ToValid(s, inRun));
      assert S.ToValid(s, inRun)[n..] == S.ToValid(s[n..], false);
    } else {
      StartsReplaced(S.ToValid(s[1..], true));
    }
  }

  lemma StartsReplaced(t: Str)
    ensures DecodeRune(REPLACEMENT + t).r == RUNE_ERROR
  {
    var u := REPLACEMENT + t;
    assert u[0] == 0xEF && u[1] == 0xBF && u[2] == 0xBD;
  }

  lemma ComponentKeepOk()
    ensures KeepOk(KeepComponent)
  {}

  /** MAIN: decodeURIComponent undoes encodeURIComponent exactly on the strings in which
      nothing reads as U+FFFD; for every other string it reports a malformed URI. */
  lemma DecodeEncoded(s: Str)
    ensures Decode(EncodeURIComponent(s)) == if Clean(s) then Some(s) else None
  {
    ComponentKeepOk();
    if Valid(s) {
      PercentReads(s, KeepComponent);
    } else {
      if Clean(s) { CleanIsValid(s); }
      RepairedNotClean(s, false);
      W.RepairedValid(s);
      PercentReads(S.Repaired(s), KeepComponent);
    }
  }

  /** The code point U+FFFD itself is one such string. */
  lemma ReplacementRefused()
    ensures Valid(REPLACEMENT) && Decode(EncodeURIComponent(REPLACEMENT)) == None
  {
    assert REPLACEMENT[3..] == [];
    StartsReplaced([]);
    assert REPLACEMENT + [] == REPLACEMENT;
    DecodeEncoded(REPLACEMENT);
  }

  // ── the loop ──────────

  /** DecodeURIComponent as it runs: an index over the text. */
  method DecodeLoop(s: Str) returns (r: Option<Str>)
    ensures r == Decode(s)
  {
    hide ReadUnit;
    if PERCENT !in s {
      NothingEscaped(s);
      return Some(s);
    }
    var out: Str := [];
    var i := 0;
    assert s[0..] == s && forall rest: Str :: out + rest == rest;
    while i < |s|
      invariant i <= |s|
      invariant Decode(s) == match Decode(s[i..]) case None => None case Some(rest) => Some(out + rest)
    {
      var u := ReadUnit(s[i..]);
      if u.BadUnit? { return None; }
      assert s[i..][u.taken..] == s[i + u.taken..];
      ghost var was := out;
      out := out + u.out;
      i := i + u.taken;
      assert forall rest: Str :: was + (u.out + rest) == out + rest;
    }
    assert s[i..] == [] && out + [] == out;
    r := Some(out);
  }

  lemma {:induction false} NothingEscaped(s: Str)
    requires PERCENT !in s
    ensures Decode(s) == Some(s)
  {
    if s != [] {
      NothingEscaped(s[1..]);
      assert s == [s[0]] + s[1..];
    }
  }
}
