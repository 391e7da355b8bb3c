/** The string writers' loops. */
module JsonWriter {
  import opened JsonValue
  import opened Utf8
  import S = JsonString

  lemma FastFrom(s: Str, start: nat, i: nat)
    requires start <= i <= |s| && forall k :: start <= k < i ==> S.Verbatim(s[k])
    ensures S.WriteFast(s[start..]) == s[start..i] + S.WriteFast(s[i..])
    ensures i < |s| ==> S.WriteFast(s[i..]) == S.EscapeByte(s[i]) + S.WriteFast(s[i + 1..])
  {
    hide S.EscapeByte;
    assert s[start..] == s[start..i] + s[i..];
    S.VerbatimRun(s[start..i], s[i..]);
    if i < |s| { assert s[i..][1..] == s[i + 1..]; }
  }

  /** WriteString: copies runs between the bytes that need an escape. */
  method WriteString(s: Str) returns (b: Str)
    ensures b == S.WriteString(s)
  {
    hide S.WriteFast, S.WriteSlow, S.EscapeByte;
    if !Valid(s) {
      b := WriteStringSlow(s);
      return;
    }
    b := [S.QUOTE];
    var start := 0;
    assert s[0..] == s;
    for i := 0 to |s|
      invariant start <= i && forall k :: start <= k < i ==> S.Verbatim(s[k])
      invariant [S.QUOTE] + S.WriteFast(s) == b + S.WriteFast(s[start..])
    {
      var c := s[i];
      if !S.Verbatim(c) {
        FastFrom(s, start, i);
        b := b + s[start..i] + S.EscapeByte(c);
        start := i + 1;
      }
    }
    FastFrom(s, start, |s|);
    assert s[|s|..] == [] && s[start..|s|] == s[start..];
    NothingWritten();
    b := b + s[start..] + [S.QUOTE];
  }

  lemma NothingWritten()
    ensures S.WriteFast([]) == [] && S.WriteSlow([]) == []
  {}

  lemma SlowFrom(s: Str, i: nat)
    requires i < |s|
    ensures S.WriteSlow(s[i..]) == (
      if s[i] < 0x80 then S.EscapeByte(s[i]) + S.WriteSlow(s[i + 1..])
      else if S.IsTriple(s[i..]) then S.SurrogateEscape(S.TripleValue(s[i..])) + S.WriteSlow(s[i + 3..])
      else if SeqLen(s[i..]) == 0 then REPLACEMENT + S.WriteSlow(s[i + 1..])
      else s[i..i + SeqLen(s[i..])] + S.WriteSlow(s[i + SeqLen(s[i..])..]))
  {
    hide S.EscapeByte, S.SurrogateEscape, S.TripleValue;
    assert forall k :: 0 <= k <= |s[i..]| ==> s[i..][k..] == s[i + k..] && s[i..][..k] == s[i..i + k];
  }

  /** writeStringSlow: ill-formed bytes and lone surrogates. */
  method WriteStringSlow(s: Str) returns (b: Str)
    ensures b == [S.QUOTE] + S.WriteSlow(s) + [S.QUOTE]
  {
    hide S.WriteSlow, S.EscapeByte, S.SurrogateEscape, SeqLen, S.TripleValue, Combine;
    b := [S.QUOTE];
    var i := 0;
    assert s[0..] == s;
    while i < |s|
      invariant i <= |s| && [S.QUOTE] + S.WriteSlow(s) == b + S.WriteSlow(s[i..])
    {
      var c := s[i];
      SlowFrom(s, i);
      if c < 0x80 {
        b := b + S.EscapeByte(c);
        i := i + 1;
      } else if S.IsTriple(s[i..]) {
        b := b + S.SurrogateEscape(S.TripleValue(s[i..]));
        i := i + 3;
      } else {
        var d := DecodeRune(s[i..]);
        Width(s[i..]);
        b := b + if d.r == RUNE_ERROR && d.size == 1 then REPLACEMENT else s[i..i + d.size];
        i := i + d.size;
      }
    }
    assert s[i..] == [];
    NothingWritten();
    b := b + [S.QUOTE];
  }

  /** A decoded U+FFFD one byte wide is exactly an ill-formed byte. */
  lemma Width(t: Str)
    requires t != []
    ensures var d := DecodeRune(t);
      (d.r == RUNE_ERROR && d.size == 1 <==> SeqLen(t) == 0) && d.size == (if SeqLen(t) == 0 then 1 else SeqLen(t))
  {}
}
