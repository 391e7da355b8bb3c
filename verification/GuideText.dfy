/** What the text functions of the guide do, on every text. */
module GuideText {
  import opened JsonValue
  import opened Guide
  import T = Text

  // ── slugs ──────────

  /** The characters a heading loses: backquote * _ and straight and curly quotes. */
  lemma DroppedAre(c: char)
    ensures IsDropped(c) <==> c in "`*_\"'\U{201C}\U{201D}\U{2018}\U{2019}"
    ensures IsSlugChar(c) <==> c in "abcdefghijklmnopqrstuvwxyz0123456789"
  {}

  /** A word of a heading: lower-cased and with the dropped characters gone it is the slug.  Of
      the text before it, that leaves gap. */
  datatype Word = Word(before: string, gap: string, text: string, slug: string)

  // Lower-casing and dropping leaves this of a text.
  ghost predicate Leaves(t: string, lower: char -> char, left: string)
    decreases |t|
  {
    if t == "" then left == ""
    else if IsDropped(lower(t[0])) then Leaves(t[1..], lower, left)
    else left != "" && left[0] == lower(t[0]) && Leaves(t[1..], lower, left[1..])
  }

  predicate AllSlug(s: string) { forall i :: 0 <= i < |s| ==> IsSlugChar(s[i]) }

  predicate NoneSlug(s: string) { forall i :: 0 <= i < |s| ==> !IsSlugChar(s[i]) }

  ghost predicate WordOk(w: Word, lower: char -> char) {
    && Leaves(w.before, lower, w.gap) && NoneSlug(w.gap)
    && Leaves(w.text, lower, w.slug) && AllSlug(w.slug) && w.slug != ""
  }

  ghost predicate WordsOk(ws: seq<Word>, lower: char -> char) {
    && (forall i :: 0 <= i < |ws| ==> WordOk(ws[i], lower))
    && forall i :: 0 < i < |ws| ==> ws[i].gap != ""
  }

  function Heading(ws: seq<Word>): string { if ws == [] then "" else ws[0].before + ws[0].text + Heading(ws[1..]) }

  function Joined(ws: seq<Word>): string {
    if ws == [] then "" else if |ws| == 1 then ws[0].slug else ws[0].slug + "-" + Joined(ws[1..])
  }

  function LeftOf(ws: seq<Word>): string { if ws == [] then "" else ws[0].gap + ws[0].slug + LeftOf(ws[1..]) }

  lemma {:induction false} LeavesIs(t: string, lower: char -> char, left: string)
    requires Leaves(t, lower, left)
    ensures Dropped(Lowered(t, lower)) == left
    decreases |t|
  {
    hide IsDropped;
    if t != "" {
      var l := Lowered(t, lower);
      assert l[0] == lower(t[0]) && l[1..] == Lowered(t[1..], lower);
      if IsDropped(lower(t[0])) {
        LeavesIs(t[1..], lower, left);
      } else {
        LeavesIs(t[1..], lower, left[1..]);
        assert left == [left[0]] + left[1..];
      }
    }
  }

  lemma {:induction false} LoweredConcat(a: string, b: string, lower: char -> char)
    ensures Dropped(Lowered(a + b, lower)) == Dropped(Lowered(a, lower)) + Dropped(Lowered(b, lower))
  {
    hide IsDropped;
    if a == "" {
      assert a + b == b;
    } else {
      assert (a + b)[1..] == a[1..] + b;
      LoweredConcat(a[1..], b, lower);
      var la, lab := Lowered(a, lower), Lowered(a + b, lower);
      assert la[1..] == Lowered(a[1..], lower) && lab[1..] == Lowered(a[1..] + b, lower) && la[0] == lab[0];
    }
  }

  lemma {:induction false} HeadingLeaves(ws: seq<Word>, end: string, lower: char -> char)
    requires WordsOk(ws, lower)
    ensures Dropped(Lowered(Heading(ws) + end, lower)) == LeftOf(ws) + Dropped(Lowered(end, lower))
    decreases |ws|
  {
    hide Leaves, IsSlugChar, Dropped, Lowered;
    if ws == [] {
      assert "" + end == end;
    } else {
      var w := ws[0];
      var more := Heading(ws[1..]) + end;
      assert Heading(ws) + end == w.before + (w.text + more);
      LoweredConcat(w.before, w.text + more, lower);
      LoweredConcat(w.text, more, lower);
      LeavesIs(w.before, lower, w.gap);
      LeavesIs(w.text, lower, w.slug);
      HeadingLeaves(ws[1..], end, lower);
    }
  }

  lemma {:induction false} GapHyphen(gap: string, rest: string, inRun: bool)
    requires NoneSlug(gap)
    ensures Hyphened(gap + rest, inRun) ==
      (if inRun || gap == "" then "" else "-") + Hyphened(rest, inRun || gap != "")
  {
    hide IsSlugChar;
    if gap == "" {
      assert gap + rest == rest;
    } else {
      assert (gap + rest)[1..] == gap[1..] + rest;
      GapHyphen(gap[1..], rest, true);
    }
  }

  lemma {:induction false} WordKept(w: string, rest: string, inRun: bool)
    requires AllSlug(w)
    ensures Hyphened(w + rest, inRun) == w + Hyphened(rest, inRun && w == "")
  {
    hide IsSlugChar;
    if w == "" {
      assert w + rest == rest;
    } else {
      assert (w + rest)[1..] == w[1..] + rest;
      WordKept(w[1..], rest, false);
      assert w == [w[0]] + w[1..];
    }
  }

  function Hyphen(gap: string): string { if gap == "" then "" else "-" }

  // The words from here on, hyphened.
  lemma {:induction false} LeftHyphened(ws: seq<Word>, e: string, lower: char -> char)
    requires ws != [] && WordsOk(ws, lower) && NoneSlug(e)
    ensures Hyphened(LeftOf(ws) + e, false) == Hyphen(ws[0].gap) + Joined(ws) + Hyphen(e)
    decreases |ws|
  {
    hide Leaves, IsSlugChar, Hyphened;
    var w := ws[0];
    var rest := LeftOf(ws[1..]) + e;
    assert LeftOf(ws) + e == w.gap + (w.slug + rest);
    GapHyphen(w.gap, w.slug + rest, false);
    WordKept(w.slug, rest, w.gap != "");
    var tail := Hyphened(rest, false);
    assert Hyphened(LeftOf(ws) + e, false) == Hyphen(w.gap) + (w.slug + tail);
    if |ws| == 1 {
      LastHyphened(ws, e);
    } else {
      LeftHyphened(ws[1..], e, lower);
      assert ws[1..][0] == ws[1];
      JoinedMore(ws, Hyphen(e));
    }
  }

  lemma LastHyphened(ws: seq<Word>, e: string)
    requires |ws| == 1 && NoneSlug(e)
    ensures Hyphened(LeftOf(ws[1..]) + e, false) == Hyphen(e) && Joined(ws) == ws[0].slug
  {
    hide Hyphened;
    assert LeftOf(ws[1..]) + e == e + "";
    GapHyphen(e, "", false);
    NoHyphens();
  }

  lemma JoinedMore(ws: seq<Word>, tail: string)
    requires |ws| > 1
    ensures ws[0].slug + ("-" + Joined(ws[1..]) + tail) == Joined(ws) + tail
  {
    assert Joined(ws) == ws[0].slug + "-" + Joined(ws[1..]);
    hide Joined;
    Regrouped(ws[0].slug, Joined(ws[1..]), tail);
  }

  lemma Regrouped(a: string, b: string, c: string)
    ensures a + ("-" + b + c) == a + "-" + b + c
  {}

  lemma NoHyphens()
    ensures Hyphened("", true) == "" && Hyphened("", false) == ""
  {}

  lemma {:induction false} JoinedEnds(ws: seq<Word>, lower: char -> char)
    requires ws != [] && WordsOk(ws, lower)
    ensures Joined(ws) != "" && Joined(ws)[0] != '-' && Joined(ws)[|Joined(ws)| - 1] != '-'
    decreases |ws|
  {
    hide Leaves;
    assert WordOk(ws[0], lower) && IsSlugChar(ws[0].slug[0]) && IsSlugChar(ws[0].slug[|ws[0].slug| - 1]);
    if |ws| > 1 {
      JoinedEnds(ws[1..], lower);
      var j := Joined(ws[1..]);
      assert Joined(ws) == ws[0].slug + "-" + j;
    }
  }

  lemma TrimsTo(j: string, before: string, after: string)
    requires j != "" && j[0] != '-' && j[|j| - 1] != '-'
    ensures TrimHyphens(Hyphen(before) + j + Hyphen(after)) == j
  {
    var r := j + Hyphen(after);
    assert TrimHyphens(j) == j;
    assert TrimHyphens(r) == j by { if after == "" { assert r == j; } else { assert r[..|r| - 1] == j; } }
    assert Hyphen(before) + j + Hyphen(after) == Hyphen(before) + r;
    if before != "" { assert (Hyphen(before) + r)[1..] == r; } else { assert Hyphen(before) + r == r; }
  }

  /** MAIN: the slug of a heading is its words, lower-cased and without the dropped characters,
      joined by single hyphens, whatever stands between, before and after them. */
  lemma SlugifyIs(ws: seq<Word>, end: string, e: string, lower: char -> char)
    requires ws != [] && WordsOk(ws, lower) && Leaves(end, lower, e) && NoneSlug(e)
    ensures Slugify(Heading(ws) + end, lower) == Joined(ws)
  {
    hide *;
    JoinedEnds(ws, lower);
    HeadingLeaves(ws, end, lower);
    LeavesIs(end, lower, e);
    LeftHyphened(ws, e, lower);
    TrimsTo(Joined(ws), ws[0].gap, e);
    SlugifySteps(Heading(ws) + end, lower);
  }

  lemma SlugifySteps(title: string, lower: char -> char)
    ensures Slugify(title, lower) == TrimHyphens(Hyphened(Dropped(Lowered(title, lower)), false))
  {
    hide TrimHyphens, Hyphened, Dropped, Lowered;
  }

  /** A heading that leaves no slug character has no slug. */
  lemma SlugifyNothing(title: string, e: string, lower: char -> char)
    requires Leaves(title, lower, e) && NoneSlug(e)
    ensures Slugify(title, lower) == ""
  {
    LeavesIs(title, lower, e);
    GapHyphen(e, "", false);
    NoHyphens();
    assert e + "" == e;
    hide Hyphened, Dropped, Lowered;
    assert TrimHyphens("") == "";
    assert "-"[1..] == "";
    assert TrimHyphens("-") == TrimHyphens("");
  }

  /** A section gets its heading's slug, or section-N as the N-th; when that is taken, the
      heading's slug with the least free number from 2 on. */
  lemma SlugForIs(heading: string, taken: seq<string>, lower: char -> char)
    ensures var s := Slugify(heading, lower);
      var first := if s != "" then s else "section-" + Decimal(|taken| + 1);
      var r := SlugFor(heading, taken, lower);
      if first !in taken then r == first
      else exists n ::
        2 <= n && r == s + "-" + Decimal(n) && forall m :: 2 <= m < n ==> s + "-" + Decimal(m) in taken
  {
    hide Slugify, Decimal;
    var s := Slugify(heading, lower);
    assert "section" + "-" == "section-";
    if FirstChoice(heading, |taken|, lower) in taken {
      SomeFree(s, taken);
      var n := FirstFree(s, taken, 2);
      forall m | 2 <= m < n ensures s + "-" + Decimal(m) in taken { assert !FreeAt(s, taken, m); }
    }
  }

  // ── lines ──────────

  /** The title is that of the first line that starts with one hash and a space. */
  lemma {:induction false} TitleIs(lines: seq<string>)
    ensures forall i :: FirstTitled(lines, i) ==> TitleOf(lines) == T.Trim(lines[i][2..])
    ensures (forall i :: 0 <= i < |lines| ==> !Titled(lines[i])) ==> TitleOf(lines) == ""
  {
    hide T.Trim;
    if lines != [] && !Titled(lines[0]) {
      TitleIs(lines[1..]);
      assert forall i :: 0 < i < |lines| ==> lines[i] == lines[1..][i - 1];
    }
  }

  predicate FirstTitled(lines: seq<string>, i: int) {
    0 <= i < |lines| && Titled(lines[i]) && forall j :: 0 <= j < i ==> !Titled(lines[j])
  }

  predicate Titled(line: string) { |line| >= 2 && line[0] == '#' && line[1] == ' ' }

  // Tab, line feed, form feed, carriage return and space.
  predicate FenceBlank(s: string) { forall i :: 0 <= i < |s| ==> s[i] as int in {9, 10, 12, 13, 32} }

  /** A fence is three backquotes or tildes after white space. */
  predicate FenceAfter(blank: string, line: string) {
    && |blank| + 3 <= |line| && line[..|blank|] == blank && FenceBlank(blank)
    && (line[|blank|..|blank| + 3] == "```" || line[|blank|..|blank| + 3] == "~~~")
  }

  lemma {:induction false} FenceIs(line: string)
    ensures IsFence(line) <==> exists blank :: FenceAfter(blank, line)
  {
    if line != "" && FenceSpace(line[0]) {
      FenceIs(line[1..]);
      if blank :| FenceAfter(blank, line[1..]) { FenceLonger(blank, line); }
      if blank :| FenceAfter(blank, line) { FenceShorter(blank, line); }
    } else {
      if IsFence(line) { assert FenceAfter("", line); }
      if blank :| FenceAfter(blank, line) {
        assert forall i :: 0 <= i < |blank| ==> blank[i] == line[..|blank|][i] == line[i];
        assert |blank| == 0;
      }
    }
  }

  lemma FenceLonger(blank: string, line: string)
    requires line != "" && FenceSpace(line[0]) && FenceAfter(blank, line[1..])
    ensures FenceAfter([line[0]] + blank, line)
  {
    var n := |blank|;
    assert line[1..][..n] == line[1..n + 1] && line[..n + 1] == [line[0]] + line[1..n + 1];
    assert line[1..][n..n + 3] == line[n + 1..n + 4];
  }

  lemma FenceShorter(blank: string, line: string)
    requires line != "" && FenceSpace(line[0]) && FenceAfter(blank, line)
    ensures blank != "" && FenceAfter(blank[1..], line[1..])
  {
    var n := |blank|;
    assert line[n..n + 3][0] == line[n];
    assert n != 0;
    assert line[1..][..n - 1] == line[..n][1..];
    assert line[1..][n - 1..n + 2] == line[n..n + 3];
  }

  function FenceLines(lines: seq<string>): nat {
    if lines == [] then 0 else FenceLines(lines[..|lines| - 1]) + if IsFence(lines[|lines| - 1]) then 1 else 0
  }

  /** Text is fenced after an odd number of fence lines. */
  lemma {:induction false} FencedIs(lines: seq<string>)
    ensures Fenced(lines) <==> FenceLines(lines) % 2 == 1
  {
    hide IsFence;
    if lines != [] { FencedIs(lines[..|lines| - 1]); }
  }

  /** A line opens a section if it starts with two hashes and a space, and after it no fence
      is open. */
  lemma OpensIs(lines: seq<string>, i: nat)
    requires i < |lines|
    ensures Opens(lines, i) <==>
      FenceLines(lines[..i + 1]) % 2 == 0 && |lines[i]| >= 3 && lines[i][0] == '#' == lines[i][1] && lines[i][2] == ' '
  {
    FencedIs(lines[..i + 1]);
    hide Fenced;
    if |lines[i]| >= 3 { assert lines[i][..3] == [lines[i][0], lines[i][1], lines[i][2]]; }
  }

  const CRLF: string := [13 as char, 10 as char]

  predicate NoCrlf(s: string) { forall i :: 0 < i < |s| ==> !(s[i] as int == 10 && s[i - 1] as int == 13) }

  /** Each carriage return and line feed becomes a line feed, and nothing else changes. */
  lemma {:induction false} UnixIs(a: string, b: string)
    requires NoCrlf(a)
    ensures UnixLines(a + CRLF + b) == a + [LF] + UnixLines(b)
  {
    if a == "" {
      assert a + CRLF + b == CRLF + b && (CRLF + b)[2..] == b;
    } else {
      var t := a + CRLF + b;
      UnixIs(a[1..], b);
      assert t[1..] == a[1..] + CRLF + b && t[0] == a[0];
      assert if |a| == 1 then t[1] as int == 13 else t[1] == a[1];
      assert !(t[0] as int == 13 && t[1] as int == 10);
      assert a == [a[0]] + a[1..];
    }
  }

  lemma {:induction false} UnixKeeps(a: string)
    requires NoCrlf(a)
    ensures UnixLines(a) == a
  {
    if a != "" { UnixKeeps(a[1..]); }
  }

  // ── lines together ──────────

  function Lines(ls: seq<string>): string {
    if ls == [] then "" else if |ls| == 1 then ls[0] else ls[0] + "\n" + Lines(ls[1..])
  }

  lemma {:induction false} LinesAre(ls: seq<string>)
    ensures Lines(ls) == T.Join(ls, 10 as char)
  {
    assert "\n" == [10 as char];
    if |ls| > 1 { LinesAre(ls[1..]); }
  }

  /** A text is its lines, with a line feed between two and none inside. */
  lemma {:induction false} SplitIs(s: string)
    ensures var ls := T.Split(s, 10 as char);
      Lines(ls) == s && forall i :: 0 <= i < |ls| ==> '\n' !in ls[i]
    decreases |s|
  {
    var i := T.Index(s, 10 as char);
    var ls := T.Split(s, 10 as char);
    assert '\n' == 10 as char;
    hide Lines, T.Index;
    if i == |s| {
      assert s[..i] == s && ls == [s];
      OneLine(s);
    } else {
      SplitIs(s[i + 1..]);
      var more := T.Split(s[i + 1..], 10 as char);
      assert ls == [s[..i]] + more && ls[1..] == more;
      FirstLine(s[..i], more);
      assert s == s[..i] + "\n" + s[i + 1..];
    }
  }

  lemma OneLine(s: string)
    ensures Lines([s]) == s
  {}

  lemma FirstLine(l: string, more: seq<string>)
    requires more != []
    ensures Lines([l] + more) == l + "\n" + Lines(more)
  {
    assert ([l] + more)[1..] == more;
  }

  /** A section's text is its lines, without white space at either end. */
  lemma ClosedIs(b: Building)
    ensures Closed(b) == Section(b.slug, b.title, T.Trim(Lines(b.lines)))
  {
    LinesAre(b.lines);
    hide T.Trim;
  }
}
