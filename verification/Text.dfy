/** The few strings functions the text parsers use. */
module Text {
  import opened JsonValue

  predicate IsDigit(c: char) { '0' <= c <= '9' }

  /** unicode.IsSpace */
  predicate IsSpace(c: char) {
    var r := c as int;
    || 9 <= r <= 13 || r == 0x20 || r == 0x85 || r == 0xA0 || r == 0x1680 || 0x2000 <= r <= 0x200A
    || r == 0x2028 || r == 0x2029 || r == 0x202F || r == 0x205F || r == 0x3000
  }

  /** strings.TrimSpace */
  function TrimLeft(s: string): string { if s != "" && IsSpace(s[0]) then TrimLeft(s[1..]) else s }

  function TrimRight(s: string): string { if s != "" && IsSpace(s[|s| - 1]) then TrimRight(s[..|s| - 1]) else s }

  function Trim(s: string): string { TrimRight(TrimLeft(s)) }

  lemma Untrimmed(s: string)
    requires s != "" && !IsSpace(s[0]) && !IsSpace(s[|s| - 1])
    ensures Trim(s) == s
  {}

  /** strings.IndexByte, |s| when absent. */
  function Index<T(==)>(s: seq<T>, c: T): (i: nat)
    ensures i <= |s| && c !in s[..i] && (i < |s| ==> s[i] == c)
  {
    if s == [] || s[0] == c then 0
    else
      var i := 1 + Index(s[1..], c);
      assert s[..i] == [s[0]] + s[1..][..i - 1];
      i
  }

  lemma {:induction false} IndexIs<T>(a: seq<T>, c: T, b: seq<T>)
    requires c !in a
    ensures Index(a + [c] + b, c) == |a|
    ensures Index(a, c) == |a|
  {
    if a == [] {
      assert a + [c] + b == [c] + b;
    } else {
      IndexIs(a[1..], c, b);
      assert (a + [c] + b)[1..] == a[1..] + [c] + b;
    }
  }

  /** strings.Split on one byte. */
  function Split<T(==)>(s: seq<T>, c: T): (parts: seq<seq<T>>)
    ensures parts != []
  {
    var i := Index(s, c);
    if i == |s| then [s] else [s[..i]] + Split(s[i + 1..], c)
  }

  function Join<T>(parts: seq<seq<T>>, c: T): seq<T> {
    if parts == [] then [] else if |parts| == 1 then parts[0] else parts[0] + [c] + Join(parts[1..], c)
  }

  /** Splitting undoes joining when no part holds the separator. */
  lemma {:induction false} SplitJoin<T>(parts: seq<seq<T>>, c: T)
    requires parts != [] && forall p :: p in parts ==> c !in p
    ensures Split(Join(parts, c), c) == parts
  {
    if |parts| == 1 {
      IndexIs(parts[0], c, []);
    } else {
      var rest := Join(parts[1..], c);
      var s := parts[0] + [c] + rest;
      IndexIs(parts[0], c, rest);
      assert s[..|parts[0]|] == parts[0] && s[|parts[0]| + 1..] == rest;
      SplitJoin(parts[1..], c);
    }
  }

  /** strings.Fields: the runs between white space. */
  function Fields(s: string): seq<string> {
    if s == "" then []
    else if IsSpace(s[0]) then Fields(s[1..])
    else
      var n := WordLen(s);
      [s[..n]] + Fields(s[n..])
  }

  function WordLen(s: string): (n: nat)
    ensures n <= |s| && (s != "" && !IsSpace(s[0]) ==> n > 0)
    ensures forall i :: 0 <= i < n ==> !IsSpace(s[i])
    ensures n < |s| ==> IsSpace(s[n])
  {
    if s == "" || IsSpace(s[0]) then 0 else 1 + WordLen(s[1..])
  }

  /** len(s) of the UTF-8 form. */
  function ByteLen(s: string): nat {
    if s == "" then 0
    else
      var r := s[0] as int;
      (if r < 0x80 then 1 else if r < 0x800 then 2 else if r < 0x10000 then 3 else 4) + ByteLen(s[1..])
  }

  /** The bytes of a text of characters below U+0080. */
  function Ascii(s: string): (r: Str)
    requires forall i :: 0 <= i < |s| ==> s[i] as int < 0x80
    ensures |r| == |s| && forall i :: 0 <= i < |s| ==> r[i] as int == s[i] as int
  {
    seq(|s|, i requires 0 <= i < |s| => s[i] as int as byte)
  }

  // ── what these functions do ──────────

  predicate Blank(s: string) { forall i :: 0 <= i < |s| ==> IsSpace(s[i]) }

  lemma IsSpaceIs(c: char)
    ensures IsSpace(c) <==> c as int in {
      0x09, 0x0A, 0x0B, 0x0C, 0x0D, 0x20, 0x85, 0xA0, 0x1680, 0x2000, 0x2001, 0x2002, 0x2003, 0x2004, 0x2005, 0x2006,
      0x2007, 0x2008, 0x2009, 0x200A, 0x2028, 0x2029, 0x202F, 0x205F, 0x3000}
  {}

  /** Trimming takes off all white space at both ends and nothing else. */
  lemma TrimIs(a: string, s: string, b: string)
    requires Blank(a) && Blank(b) && (s != "" ==> !IsSpace(s[0]) && !IsSpace(s[|s| - 1]))
    ensures Trim(a + s + b) == s
  {
    hide IsSpace;
    assert a + s + b == a + (s + b);
    LeftTrimmed(a, s + b);
    if s == "" {
      assert s + b == b;
      LeftTrimmed(b, "");
      assert b + "" == b;
    } else {
      RightTrimmed(s, b);
    }
  }

  lemma {:induction false} LeftTrimmed(a: string, t: string)
    requires Blank(a)
    ensures TrimLeft(a + t) == TrimLeft(t)
  {
    hide IsSpace;
    if a == "" {
      assert a + t == t;
    } else {
      assert (a + t)[1..] == a[1..] + t;
      LeftTrimmed(a[1..], t);
    }
  }

  lemma {:induction false} RightTrimmed(t: string, b: string)
    requires Blank(b)
    ensures TrimRight(t + b) == TrimRight(t)
  {
    hide IsSpace;
    if b == "" {
      assert t + b == t;
    } else {
      assert (t + b)[..|t + b| - 1] == t + b[..|b| - 1];
      RightTrimmed(t, b[..|b| - 1]);
    }
  }

  /** And every text is one that has been trimmed so. */
  lemma TrimSplits(t: string) returns (a: string, b: string)
    ensures Blank(a) && Blank(b) && t == a + Trim(t) + b
    ensures Trim(t) != "" ==> !IsSpace(Trim(t)[0]) && !IsSpace(Trim(t)[|Trim(t)| - 1])
  {
    hide IsSpace;
    a := LeftSplit(t);
    b := RightSplit(TrimLeft(t));
    assert t == a + (Trim(t) + b);
  }

  lemma {:induction false} LeftSplit(t: string) returns (a: string)
    ensures Blank(a) && t == a + TrimLeft(t) && (TrimLeft(t) != "" ==> !IsSpace(TrimLeft(t)[0]))
  {
    hide IsSpace;
    if t != "" && IsSpace(t[0]) {
      a := LeftSplit(t[1..]);
      a := [t[0]] + a;
      assert t == [t[0]] + t[1..];
    } else {
      a := "";
    }
  }

  lemma {:induction false} RightSplit(t: string) returns (b: string)
    ensures Blank(b) && t == TrimRight(t) + b
    ensures TrimRight(t) != "" ==> TrimRight(t)[0] == t[0] && !IsSpace(TrimRight(t)[|TrimRight(t)| - 1])
  {
    hide IsSpace;
    if t != "" && IsSpace(t[|t| - 1]) {
      b := RightSplit(t[..|t| - 1]);
      b := b + [t[|t| - 1]];
      assert t == t[..|t| - 1] + [t[|t| - 1]];
    } else {
      b := "";
    }
  }

  // A word and the white space before it.
  datatype Word = Word(gap: string, text: string)

  predicate Words(ws: seq<Word>) {
    && (forall i :: 0 <= i < |ws| ==> Blank(ws[i].gap) && ws[i].text != "")
    && (forall i, j :: 0 <= i < |ws| && 0 <= j < |ws[i].text| ==> !IsSpace(ws[i].text[j]))
    && forall i :: 0 < i < |ws| ==> ws[i].gap != ""
  }

  function Spread(ws: seq<Word>): string { if ws == [] then "" else ws[0].gap + ws[0].text + Spread(ws[1..]) }

  function Texts(ws: seq<Word>): seq<string> { if ws == [] then [] else [ws[0].text] + Texts(ws[1..]) }

  /** Fields are the words of a text, however it spreads them. */
  lemma {:induction false} FieldsAre(ws: seq<Word>, end: string)
    requires Words(ws) && Blank(end)
    ensures Fields(Spread(ws) + end) == Texts(ws)
    decreases |ws|
  {
    hide IsSpace;
    if ws == [] {
      assert Spread(ws) + end == end + "";
      GapSkipped(end, "");
    } else {
      var w, more := ws[0], Spread(ws[1..]) + end;
      assert Spread(ws) + end == w.gap + (w.text + more);
      GapSkipped(w.gap, w.text + more);
      SpreadStarts(ws[1..], end);
      WordIs(w.text, more);
      FieldsAre(ws[1..], end);
      assert (w.text + more)[..|w.text|] == w.text && (w.text + more)[|w.text|..] == more;
      assert (w.text + more)[0] == w.text[0];
    }
  }

  lemma SpreadStarts(ws: seq<Word>, end: string)
    requires Words(ws) && Blank(end) && (ws != [] ==> ws[0].gap != "")
    ensures Spread(ws) + end != "" ==> IsSpace((Spread(ws) + end)[0])
  {
    hide IsSpace;
    if ws != [] { assert Spread(ws) + end == ws[0].gap + (ws[0].text + Spread(ws[1..]) + end); }
  }

  lemma {:induction false} GapSkipped(gap: string, t: string)
    requires Blank(gap)
    ensures Fields(gap + t) == Fields(t)
  {
    hide IsSpace;
    if gap == "" {
      assert gap + t == t;
    } else {
      assert (gap + t)[1..] == gap[1..] + t;
      GapSkipped(gap[1..], t);
    }
  }

  lemma {:induction false} WordIs(w: string, more: string)
    requires forall i :: 0 <= i < |w| ==> !IsSpace(w[i])
    requires more != "" ==> IsSpace(more[0])
    ensures WordLen(w + more) == |w|
  {
    if w == "" {
      assert w + more == more;
    } else {
      WordIs(w[1..], more);
      assert (w + more)[1..] == w[1..] + more;
    }
  }
}
