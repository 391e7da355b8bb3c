/** ParseDoc: a Markdown guide cut into sections at its unfenced "## " headings. */
module Guide {
  import opened JsonValue
  import O = JsOrder
  import T = Text

  // ── slugs ──────────

  predicate IsSlugChar(c: char) { 'a' <= c <= 'z' || '0' <= c <= '9' }

  /** Backquote, asterisk, underscore and the straight and curly quotes. */
  predicate IsDropped(c: char) {
    var r := c as int;
    r == 0x60 || r == 0x2A || r == 0x5F || r == 0x22 || r == 0x27 || r == 0x201C || r == 0x201D || r == 0x2018 ||
      r == 0x2019
  }

  function Lowered(s: string, lower: char -> char): string {
    if s == "" then "" else [lower(s[0])] + Lowered(s[1..], lower)
  }

  function Dropped(s: string): string {
    if s == "" then "" else (if IsDropped(s[0]) then "" else [s[0]]) + Dropped(s[1..])
  }

  /** Each run of other characters becomes one hyphen. */
  function Hyphened(s: string, inRun: bool): string {
    if s == "" then ""
    else if IsSlugChar(s[0]) then [s[0]] + Hyphened(s[1..], false)
    else (if inRun then "" else "-") + Hyphened(s[1..], true)
  }

  function TrimHyphens(s: string): string {
    if s != "" && s[0] == '-' then TrimHyphens(s[1..])
    else if s != "" && s[|s| - 1] == '-' then TrimHyphens(s[..|s| - 1])
    else s
  }

  function Slugify(title: string, lower: char -> char): string {
    TrimHyphens(Hyphened(Dropped(Lowered(title, lower)), false))
  }

  /** ^[a-z0-9]+(-[a-z0-9]+)*$: words joined by single hyphens. */
  predicate IsSlug(s: string) {
    && s != "" && s[0] != '-' && s[|s| - 1] != '-'
    && (forall i :: 0 <= i < |s| ==> IsSlugChar(s[i]) || s[i] == '-')
    && forall i :: 0 <= i < |s| - 1 ==> !(s[i] == '-' && s[i + 1] == '-')
  }

  // No character but slug ones, no two hyphens together.
  predicate Loose(s: string) {
    && (forall i :: 0 <= i < |s| ==> IsSlugChar(s[i]) || s[i] == '-')
    && forall i :: 0 <= i < |s| - 1 ==> !(s[i] == '-' && s[i + 1] == '-')
  }

  lemma {:induction false} HyphenedLoose(s: string, inRun: bool)
    ensures Loose(Hyphened(s, inRun))
    ensures inRun && Hyphened(s, inRun) != "" ==> Hyphened(s, inRun)[0] != '-'
  {
    if s != "" { HyphenedLoose(s[1..], !IsSlugChar(s[0])); }
  }

  lemma {:induction false} TrimmedSlug(s: string)
    requires Loose(s)
    ensures TrimHyphens(s) == "" || IsSlug(TrimHyphens(s))
    decreases |s|
  {
    if s != "" && s[0] == '-' {
      assert forall i :: 0 <= i < |s[1..]| ==> s[1..][i] == s[i + 1];
      TrimmedSlug(s[1..]);
    } else if s != "" && s[|s| - 1] == '-' {
      TrimmedSlug(s[..|s| - 1]);
    }
  }

  /** Slugify gives a section slug, or nothing. */
  lemma SlugifyShape(title: string, lower: char -> char)
    ensures Slugify(title, lower) == "" || IsSlug(Slugify(title, lower))
  {
    HyphenedLoose(Dropped(Lowered(title, lower)), false);
    TrimmedSlug(Hyphened(Dropped(Lowered(title, lower)), false));
  }

  /** n in decimal. */
  function Decimal(n: nat): (s: string)
    ensures |s| > 0 && forall i :: 0 <= i < |s| ==> '0' <= s[i] <= '9'
  {
    var b := O.Itoa(n);
    seq(|b|, i requires 0 <= i < |b| => (assert O.IsDigitByte(b[i]); b[i] as char))
  }

  lemma DecimalInjective(m: nat, n: nat)
    requires Decimal(m) == Decimal(n)
    ensures m == n
  {
    var a, b := O.Itoa(m), O.Itoa(n);
    assert |a| == |b|;
    forall i | 0 <= i < |a| ensures a[i] == b[i] {
      assert Decimal(m)[i] == a[i] as char && Decimal(n)[i] == b[i] as char;
    }
    assert a == b;
  }

  function Numbered(base: string, n: nat): string { base + "-" + Decimal(n) }

  lemma NumberedInjective(base: string, m: nat, n: nat)
    requires Numbered(base, m) == Numbered(base, n)
    ensures m == n
  {
    assert Numbered(base, m)[|base| + 1..] == Decimal(m);
    assert Numbered(base, n)[|base| + 1..] == Decimal(n);
    DecimalInjective(m, n);
  }

  lemma NumberedSlug(base: string, n: nat)
    requires IsSlug(base)
    ensures IsSlug(Numbered(base, n))
  {
    var s := Numbered(base, n);
    var d := Decimal(n);
    assert forall i :: 0 <= i < |base| ==> s[i] == base[i];
    assert s[|base|] == '-';
    assert forall i :: 0 <= i < |d| ==> s[|base| + 1 + i] == d[i];
    forall i | |base| < i < |s| ensures '0' <= s[i] <= '9' {
      assert s[i] == d[i - |base| - 1];
    }
  }

  // ── a free suffix always turns up ──────────

  function Candidates(base: string, k: nat): set<string> {
    if k == 0 then {} else Candidates(base, k - 1) + {Numbered(base, k + 1)}
  }

  lemma {:induction false} CandidatesAre(base: string, k: nat)
    ensures forall x :: x in Candidates(base, k) ==> exists n :: 2 <= n < k + 2 && x == Numbered(base, n)
  {
    hide Numbered;
    if k > 0 { CandidatesAre(base, k - 1); }
  }

  lemma NextCandidate(base: string, k: nat)
    requires k > 0
    ensures Numbered(base, k + 1) !in Candidates(base, k - 1)
  {
    CandidatesAre(base, k - 1);
    hide Numbered;
    forall n | 2 <= n < k + 1 ensures Numbered(base, k + 1) != Numbered(base, n) {
      if Numbered(base, k + 1) == Numbered(base, n) { NumberedInjective(base, k + 1, n); }
    }
  }

  lemma {:induction false} CandidatesCount(base: string, k: nat)
    ensures |Candidates(base, k)| == k
  {
    hide Numbered;
    if k > 0 {
      CandidatesCount(base, k - 1);
      NextCandidate(base, k);
      assert Candidates(base, k) == Candidates(base, k - 1) + {Numbered(base, k + 1)};
    }
  }

  function SetOf(slugs: seq<string>): set<string> { set s | s in slugs }

  lemma {:induction false} SetSize(slugs: seq<string>)
    ensures |SetOf(slugs)| <= |slugs|
  {
    if slugs != [] {
      SetSize(slugs[1..]);
      assert SetOf(slugs) == {slugs[0]} + SetOf(slugs[1..]);
    }
  }

  lemma SubsetSize(a: set<string>, b: set<string>)
    requires a <= b
    ensures |a| <= |b|
  {
    assert b == a + (b - a);
    assert |b| == |a| + |b - a|;
  }

  predicate FreeAt(base: string, slugs: seq<string>, n: nat) { Numbered(base, n) !in slugs }

  lemma AllTaken(base: string, slugs: seq<string>, k: nat)
    requires forall n :: 2 <= n < k + 2 ==> !FreeAt(base, slugs, n)
    ensures Candidates(base, k) <= SetOf(slugs)
  {
    CandidatesAre(base, k);
    hide Numbered;
    forall x | x in Candidates(base, k) ensures x in SetOf(slugs) {
      var n :| 2 <= n < k + 2 && x == Numbered(base, n);
      assert !FreeAt(base, slugs, n);
    }
  }

  /** Pigeonhole: among one more numbered forms than there are taken slugs one is free,
      and one fewer suffices when the bare form is itself taken. */
  lemma SomeFree(base: string, slugs: seq<string>)
    ensures exists n :: 2 <= n < |slugs| + 3 && FreeAt(base, slugs, n)
    ensures base in slugs ==> exists n :: 2 <= n < |slugs| + 2 && FreeAt(base, slugs, n)
  {
    hide FreeAt, Candidates;
    SetSize(slugs);
    if forall n :: 2 <= n < |slugs| + 3 ==> !FreeAt(base, slugs, n) {
      CandidatesCount(base, |slugs| + 1);
      AllTaken(base, slugs, |slugs| + 1);
      SubsetSize(Candidates(base, |slugs| + 1), SetOf(slugs));
    }
    if base in slugs && forall n :: 2 <= n < |slugs| + 2 ==> !FreeAt(base, slugs, n) {
      var c := Candidates(base, |slugs|);
      CandidatesCount(base, |slugs|);
      AllTaken(base, slugs, |slugs|);
      assert forall n: nat :: |Numbered(base, n)| > |base|;
      CandidatesAre(base, |slugs|);
      assert base !in c;
      SubsetSize(c + {base}, SetOf(slugs));
    }
  }

  /** The first number from n on that makes a free slug. */
  function FirstFree(base: string, slugs: seq<string>, n: nat): (r: nat)
    requires exists m :: n <= m < |slugs| + 3 && FreeAt(base, slugs, m)
    ensures n <= r < |slugs| + 3 && FreeAt(base, slugs, r) && forall m :: n <= m < r ==> !FreeAt(base, slugs, m)
    decreases |slugs| + 3 - n
  {
    if FreeAt(base, slugs, n) then n else FirstFree(base, slugs, n + 1)
  }

  const SECTION := "section"

  function FirstChoice(heading: string, count: nat, lower: char -> char): string {
    var s := Slugify(heading, lower);
    if s == "" then Numbered(SECTION, count + 1) else s
  }

  /** The slug a heading gets after the slugs already taken. */
  function SlugFor(heading: string, taken: seq<string>, lower: char -> char): (r: string)
    ensures r !in taken
  {
    var first := FirstChoice(heading, |taken|, lower);
    if first !in taken then first
    else
      SomeFree(Slugify(heading, lower), taken);
      Numbered(Slugify(heading, lower), FirstFree(Slugify(heading, lower), taken, 2))
  }

  function Slugs(headings: seq<string>, lower: char -> char): (r: seq<string>)
    ensures |r| == |headings|
  {
    if headings == [] then []
    else
      var front := Slugs(headings[..|headings| - 1], lower);
      front + [SlugFor(headings[|headings| - 1], front, lower)]
  }

  /** MAIN: no two sections share a slug. */
  lemma {:induction false} SlugsDistinct(headings: seq<string>, lower: char -> char)
    ensures forall i, j :: 0 <= i < j < |headings| ==> Slugs(headings, lower)[i] != Slugs(headings, lower)[j]
    decreases |headings|
  {
    hide SlugFor;
    if headings != [] { SlugsDistinct(headings[..|headings| - 1], lower); }
  }

  lemma SectionIsSlug()
    ensures IsSlug(SECTION)
  {}

  /** MAIN: a section's slug has the promised shape, except exactly when its heading
      leaves nothing to slugify and the stand-in section-N is already taken. */
  lemma SlugShape(heading: string, taken: seq<string>, lower: char -> char)
    ensures IsSlug(SlugFor(heading, taken, lower))
      <==> !(Slugify(heading, lower) == "" && Numbered(SECTION, |taken| + 1) in taken)
  {
    hide Slugify, IsSlug;
    SlugifyShape(heading, lower);
    SectionIsSlug();
    NumberedSlug(SECTION, |taken| + 1);
    var first := FirstChoice(heading, |taken|, lower);
    if first in taken {
      var base := Slugify(heading, lower);
      SomeFree(base, taken);
      var n := FirstFree(base, taken, 2);
      if base == "" { HyphenFirst(n); } else { NumberedSlug(base, n); }
    }
  }

  lemma HyphenFirst(n: nat)
    ensures !IsSlug(Numbered("", n))
  {
    assert Numbered("", n)[0] == '-';
  }

  lemma {:induction false} LowerIdentity(s: string, lower: char -> char)
    requires forall i :: 0 <= i < |s| ==> lower(s[i]) == s[i]
    ensures Lowered(s, lower) == s
  {
    if s != "" { LowerIdentity(s[1..], lower); }
  }

  lemma {:induction false} DropNothing(s: string)
    requires forall i :: 0 <= i < |s| ==> !IsDropped(s[i])
    ensures Dropped(s) == s
  {
    if s != "" { DropNothing(s[1..]); }
  }

  lemma {:induction false} HyphenNothing(s: string, inRun: bool)
    requires Loose(s) && (inRun && s != "" ==> s[0] != '-')
    ensures Hyphened(s, inRun) == s
  {
    if s != "" {
      assert forall i :: 0 <= i < |s[1..]| ==> s[1..][i] == s[i + 1];
      HyphenNothing(s[1..], !IsSlugChar(s[0]));
      assert s == [s[0]] + s[1..];
    }
  }

  /** A slug is its own slug. */
  lemma SlugFixed(s: string, lower: char -> char)
    requires IsSlug(s) && forall i :: 0 <= i < |s| ==> lower(s[i]) == s[i]
    ensures Slugify(s, lower) == s
  {
    LowerIdentity(s, lower);
    DropNothing(s);
    HyphenNothing(s, false);
  }

  /** A heading "section-2" followed by one of punctuation alone: the second one's slug
      is "-2", which no section argument may be. */
  lemma BadSlug(lower: char -> char)
    requires forall c :: IsSlugChar(c) || c == '-' || c == '?' ==> lower(c) == c
    ensures var taken := Numbered(SECTION, 2);
      Slugs([taken, "?"], lower) == [taken, Numbered("", 2)] && !IsSlug(Numbered("", 2))
  {
    var taken := Numbered(SECTION, 2);
    var h := [taken, "?"];
    assert h[..1] == [taken] && h[..1][..0] == [];
    SectionIsSlug();
    NumberedSlug(SECTION, 2);
    SlugFixed(taken, lower);
    NothingToSlugify(lower);
    HyphenFirst(2);
    hide Slugify, Numbered, IsSlug;
    assert Slugs(h[..1], lower) == [taken];
    NumberedShort();
    assert FreeAt("", [taken], 2);
    SomeFree("", [taken]);
    assert FirstFree("", [taken], 2) == 2;
  }

  lemma NumberedShort()
    ensures Numbered("", 2) != Numbered(SECTION, 2)
  {
    assert Numbered("", 2)[0] == '-' && Numbered(SECTION, 2)[0] == 's';
  }

  lemma NothingToSlugify(lower: char -> char)
    requires lower('?') == '?'
    ensures Slugify("?", lower) == ""
  {
    assert "?"[1..] == "" && "-"[1..] == "";
    assert Lowered("?", lower) == "?" + "";
    assert Dropped("?") == "?" + "";
    assert Hyphened("?", false) == "-" + "";
    assert TrimHyphens("-") == TrimHyphens("");
  }

  // ── sections ──────────

  predicate FenceSpace(c: char) { c == ' ' || c as int == 9 || c as int == 10 || c as int == 12 || c as int == 13 }

  predicate HasPrefix(s: string, p: string) { |s| >= |p| && s[..|p|] == p }

  predicate IsFence(line: string) {
    if line != "" && FenceSpace(line[0]) then IsFence(line[1..]) else HasPrefix(line, "```") || HasPrefix(line, "~~~")
  }

  /** Whether the text after these lines is inside a fence. */
  predicate Fenced(lines: seq<string>) {
    lines != [] && (IsFence(lines[|lines| - 1]) != Fenced(lines[..|lines| - 1]))
  }

  /** Line i opens a section. */
  predicate Opens(lines: seq<string>, i: nat)
    requires i < |lines|
  {
    !Fenced(lines[..i + 1]) && HasPrefix(lines[i], "## ")
  }

  datatype Building = Building(slug: string, title: string, lines: seq<string>)

  datatype Section = Section(slug: string, title: string, text: string)

  // A section once its lines are all there.
  function Closed(b: Building): Section { Section(b.slug, b.title, T.Trim(T.Join(b.lines, 10 as char))) }

  datatype Doc = Doc(title: string, intro: string, sections: seq<Section>)

  function AllLines(sections: seq<Building>): seq<string> {
    if sections == [] then [] else AllLines(sections[..|sections| - 1]) + sections[|sections| - 1].lines
  }

  function Headings(sections: seq<Building>): (r: seq<string>)
    ensures |r| == |sections| && forall i :: 0 <= i < |r| ==> r[i] == sections[i].title
  {
    seq(|sections|, i requires 0 <= i < |sections| => sections[i].title)
  }

  function SlugsOf(sections: seq<Building>): (r: seq<string>)
    ensures |r| == |sections| && forall i :: 0 <= i < |r| ==> r[i] == sections[i].slug
  {
    seq(|sections|, i requires 0 <= i < |sections| => sections[i].slug)
  }

  /** The lines that open sections, in order. */
  function Openers(lines: seq<string>): (r: seq<nat>)
    ensures forall i :: 0 <= i < |r| ==> r[i] < |lines|
  {
    if lines == [] then []
    else
      var front := lines[..|lines| - 1];
      Openers(front) + if Opens(lines, |lines| - 1) then [|lines| - 1] else []
  }

  /** Section k is the lines from its opener to the next one. */
  ghost predicate CutRight(lines: seq<string>, intro: seq<string>, sections: seq<Building>) {
    var o := Openers(lines);
    && |sections| == |o|
    && intro == lines[..if o == [] then |lines| else o[0]]
    && forall k: nat :: k < |o| ==> SectionAt(lines, o, sections[k], k)
  }

  ghost predicate SectionAt(lines: seq<string>, o: seq<nat>, b: Building, k: nat)
    requires k < |o| && forall i :: 0 <= i < |o| ==> o[i] < |lines|
  {
    && |lines[o[k]]| >= 3 && b.title == T.Trim(lines[o[k]][3..])
    && var end := if k + 1 < |o| then o[k + 1] else |lines|;
       o[k] < end && b.lines == lines[o[k]..end]
  }

  lemma AddToIntro(lines: seq<string>, intro: seq<string>, line: string)
    requires CutRight(lines, intro, []) && !Opens(lines + [line], |lines|)
    ensures CutRight(lines + [line], intro + [line], [])
  {
    hide Opens;
    var more := lines + [line];
    assert more[..|lines|] == lines;
    assert Openers(more) == Openers(lines) + [];
  }

  lemma AddToLast(lines: seq<string>, intro: seq<string>, sections: seq<Building>, line: string)
    requires CutRight(lines, intro, sections) && !Opens(lines + [line], |lines|) && sections != []
    ensures var last := sections[|sections| - 1];
      CutRight(lines + [line], intro, sections[..|sections| - 1] + [last.(lines := last.lines + [line])])
  {
    hide Opens, T.Trim;
    var more := lines + [line];
    assert more[..|lines|] == lines;
    assert Openers(more) == Openers(lines) + [];
    hide Openers;
    var o := Openers(lines);
    var last := sections[|sections| - 1];
    var r := sections[..|sections| - 1] + [last.(lines := last.lines + [line])];
    forall k: nat | k < |o| ensures SectionAt(more, o, r[k], k) {
      assert SectionAt(lines, o, sections[k], k);
      if k + 1 < |o| {
        assert r[k] == sections[k] && more[o[k]..o[k + 1]] == lines[o[k]..o[k + 1]];
      } else {
        assert more[o[k]..|more|] == lines[o[k]..|lines|] + [line];
      }
    }
    assert more[..o[0]] == lines[..o[0]];
  }

  lemma AddSection(lines: seq<string>, intro: seq<string>, sections: seq<Building>, line: string, slug: string)
    requires CutRight(lines, intro, sections) && Opens(lines + [line], |lines|)
    ensures |line| >= 3 && CutRight(lines + [line], intro, sections + [Building(slug, T.Trim(line[3..]), [line])])
  {
    hide T.Trim, Fenced;
    var more := lines + [line];
    assert more[..|lines|] == lines;
    assert |line| >= 3;
    hide Opens;
    var o := Openers(lines);
    assert Openers(more) == o + [|lines|];
    hide Openers;
    var p := o + [|lines|];
    var r := sections + [Building(slug, T.Trim(line[3..]), [line])];
    forall k: nat | k < |p| ensures SectionAt(more, p, r[k], k) {
      if k < |o| {
        assert SectionAt(lines, o, sections[k], k);
        var end := if k + 1 < |o| then o[k + 1] else |lines|;
        assert p[k + 1] == end && more[o[k]..end] == lines[o[k]..end];
      } else {
        assert more[|lines|..|more|] == [line];
      }
    }
    assert more[..p[0]] == lines[..p[0]];
  }

  lemma {:induction false} FirstIsFree(base: string, taken: seq<string>, from: nat, n: nat)
    requires from <= n < |taken| + 3 && FreeAt(base, taken, n) && forall m :: from <= m < n ==> !FreeAt(base, taken, m)
    ensures FirstFree(base, taken, from) == n
    decreases n - from
  {
    hide FreeAt;
    if from < n { FirstIsFree(base, taken, from + 1, n); }
  }

  /** The suffix loop: the first free numbered slug. */
  method FreeSlug(heading: string, taken: seq<string>, lower: char -> char) returns (slug: string)
    ensures slug == SlugFor(heading, taken, lower)
  {
    hide Slugify, Numbered, FirstFree;
    slug := FirstChoice(heading, |taken|, lower);
    if slug !in taken { return; }
    var base := Slugify(heading, lower);
    SomeFree(base, taken);
    slug := Numbered(base, 2);
    var n := 2;
    while slug in taken
      invariant 2 <= n < |taken| + 3 && slug == Numbered(base, n)
      invariant forall m :: 2 <= m < n ==> !FreeAt(base, taken, m)
      decreases |taken| + 3 - n
    {
      assert !FreeAt(base, taken, n);
      n := n + 1;
      slug := Numbered(base, n);
    }
    FirstIsFree(base, taken, 2, n);
  }

  lemma FencedMore(lines: seq<string>, i: nat)
    requires i < |lines|
    ensures lines[..i + 1] == lines[..i] + [lines[i]]
    ensures Fenced(lines[..i + 1]) == (IsFence(lines[i]) != Fenced(lines[..i]))
    ensures Opens(lines[..i] + [lines[i]], i) <==> !Fenced(lines[..i + 1]) && HasPrefix(lines[i], "## ")
  {
    assert lines[..i + 1] == lines[..i] + [lines[i]];
    assert lines[..i + 1][..i] == lines[..i] && lines[..i + 1][..i + 1] == lines[..i + 1];
  }

  /** What the section loop has built once it has read these lines. */
  ghost predicate Built(lines: seq<string>, intro: seq<string>, sections: seq<Building>, lower: char -> char) {
    && CutRight(lines, intro, sections)
    && intro + AllLines(sections) == lines
    && SlugsOf(sections) == Slugs(Headings(sections), lower)
  }

  lemma NothingBuilt(lower: char -> char)
    ensures Built([], [], [], lower) && !Fenced([])
  {}

  lemma IntroBuilt(lines: seq<string>, intro: seq<string>, line: string, lower: char -> char)
    requires Built(lines, intro, [], lower) && !Opens(lines + [line], |lines|)
    ensures Built(lines + [line], intro + [line], [], lower)
  {
    hide CutRight, Opens;
    AddToIntro(lines, intro, line);
  }

  lemma JoinMore(a: seq<string>, b: seq<string>, line: string)
    ensures a + (b + [line]) == a + b + [line]
  {}

  lemma LastBuilt(lines: seq<string>, intro: seq<string>, sections: seq<Building>, line: string, lower: char -> char)
    requires Built(lines, intro, sections, lower) && !Opens(lines + [line], |lines|) && sections != []
    ensures var last := sections[|sections| - 1];
      Built(lines + [line], intro, sections[..|sections| - 1] + [last.(lines := last.lines + [line])], lower)
  {
    hide CutRight, Opens, AllLines, SlugsOf, Headings, Slugs;
    AddToLast(lines, intro, sections, line);
    ExtendLast(sections, line);
    JoinMore(intro, AllLines(sections), line);
  }

  lemma LongLine(lines: seq<string>, line: string)
    requires Opens(lines + [line], |lines|)
    ensures |line| >= 3
  {}

  lemma SectionBuilt(lines: seq<string>, intro: seq<string>, sections: seq<Building>, line: string, lower: char -> char)
    requires Built(lines, intro, sections, lower) && Opens(lines + [line], |lines|)
    ensures |line| >= 3
    ensures var heading := T.Trim(line[3..]);
            var slug := SlugFor(heading, SlugsOf(sections), lower);
      Built(lines + [line], intro, sections + [Building(slug, heading, [line])], lower)
  {
    LongLine(lines, line);
    hide CutRight, Opens, AllLines, SlugsOf, Headings, Slugs, SlugFor, T.Trim;
    var heading := T.Trim(line[3..]);
    var slug := SlugFor(heading, SlugsOf(sections), lower);
    var b := Building(slug, heading, [line]);
    AddSection(lines, intro, sections, line, slug);
    AppendSection(sections, b, lower);
    JoinMore(intro, AllLines(sections), line);
  }

  /** MAIN: the section loop.  Introduction and sections together are the lines in order,
      cut exactly at the unfenced headings, and the slugs are those of the headings. */
  method CutSections(lines: seq<string>, lower: char -> char) returns (intro: seq<string>, sections: seq<Building>)
    ensures CutRight(lines, intro, sections)
    ensures intro + AllLines(sections) == lines
    ensures SlugsOf(sections) == Slugs(Headings(sections), lower)
  {
    hide CutRight, AllLines, Slugs, Headings;
    intro, sections := [], [];
    var fenced := false;
    NothingBuilt(lower);
    for i := 0 to |lines|
      invariant fenced == Fenced(lines[..i]) && Built(lines[..i], intro, sections, lower)
    {
      hide SlugFor, T.Trim, IsFence, Fenced, Opens, Built;
      var line := lines[i];
      FencedMore(lines, i);
      if IsFence(line) { fenced := !fenced; }
      if !fenced && HasPrefix(line, "## ") {
        SectionBuilt(lines[..i], intro, sections, line, lower);
        var heading := T.Trim(line[3..]);
        var slug := FreeSlug(heading, SlugsOf(sections), lower);
        sections := sections + [Building(slug, heading, [line])];
      } else if sections != [] {
        LastBuilt(lines[..i], intro, sections, line, lower);
        var last := sections[|sections| - 1];
        sections := sections[..|sections| - 1] + [last.(lines := last.lines + [line])];
      } else {
        IntroBuilt(lines[..i], intro, line, lower);
        intro := intro + [line];
      }
    }
    assert lines[..|lines|] == lines;
  }

  lemma AppendSection(sections: seq<Building>, b: Building, lower: char -> char)
    ensures AllLines(sections + [b]) == AllLines(sections) + b.lines
    ensures SlugsOf(sections + [b]) == SlugsOf(sections) + [b.slug]
    ensures Slugs(Headings(sections + [b]), lower) ==
      Slugs(Headings(sections), lower) + [SlugFor(b.title, Slugs(Headings(sections), lower), lower)]
  {
    hide SlugFor;
    assert (sections + [b])[..|sections|] == sections;
    var h := Headings(sections + [b]);
    assert h[..|sections|] == Headings(sections);
  }

  lemma ExtendLast(sections: seq<Building>, line: string)
    requires sections != []
    ensures var last := sections[|sections| - 1];
            var r := sections[..|sections| - 1] + [last.(lines := last.lines + [line])];
      AllLines(r) == AllLines(sections) + [line] && SlugsOf(r) == SlugsOf(sections) && Headings(r) == Headings(sections)
  {
    var last := sections[|sections| - 1];
    var r := sections[..|sections| - 1] + [last.(lines := last.lines + [line])];
    assert r[..|r| - 1] == sections[..|sections| - 1];
  }

  /** strings.ReplaceAll of CRLF by LF. */
  function UnixLines(s: string): string {
    if s == "" then ""
    else if |s| >= 2 && s[0] as int == 13 && s[1] as int == 10 then [10 as char] + UnixLines(s[2..])
    else [s[0]] + UnixLines(s[1..])
  }

  /** The first "# " line, fenced or not. */
  function TitleOf(lines: seq<string>): string {
    if lines == [] then "" else if HasPrefix(lines[0], "# ") then T.Trim(lines[0][2..]) else TitleOf(lines[1..])
  }

  /** ParseDoc: title from the first "# " line, introduction and sections trimmed. */
  method ParseDoc(markdown: string, lower: char -> char)
    returns (doc: Doc, ghost intro: seq<string>, ghost cut: seq<Building>)
    ensures var lines := T.Split(UnixLines(markdown), 10 as char);
      && CutRight(lines, intro, cut) && intro + AllLines(cut) == lines
      && doc.title == TitleOf(lines)
      && doc.intro == T.Trim(T.Join(intro, 10 as char))
      && |doc.sections| == |cut|
      && (forall k :: 0 <= k < |cut| ==> doc.sections[k] == Closed(cut[k]))
    ensures SlugsOf(cut) == Slugs(Headings(cut), lower)
    ensures forall i, j :: 0 <= i < j < |doc.sections| ==> doc.sections[i].slug != doc.sections[j].slug
  {
    hide CutRight, T.Trim, T.Join, AllLines, UnixLines;
    var lines := T.Split(UnixLines(markdown), 10 as char);
    var title := "";
    assert lines[0..] == lines;
    for i := 0 to |lines|
      invariant title == "" && TitleOf(lines) == TitleOf(lines[i..])
    {
      assert lines[i..][0] == lines[i] && lines[i..][1..] == lines[i + 1..];
      if HasPrefix(lines[i], "# ") {
        title := T.Trim(lines[i][2..]);
        break;
      }
    }
    var head, sections := CutSections(lines, lower);
    SlugsDistinct(Headings(sections), lower);
    assert forall i :: 0 <= i < |sections| ==> SlugsOf(sections)[i] == sections[i].slug;
    intro, cut := head, sections;
    var out := [];
    for k := 0 to |sections|
      invariant |out| == k
      invariant forall j :: 0 <= j < k ==> out[j] == Closed(cut[j])
    {
      out := out + [Closed(sections[k])];
    }
    doc := Doc(title, T.Trim(T.Join(head, 10 as char)), out);
  }

  // ── a document with a bad slug ──────────

  const LF: char := 10 as char
  const FIRST_LINE := "## section-2"
  const SECOND_LINE := "## ?"
  const BAD_LINES: seq<string> := [FIRST_LINE, SECOND_LINE]
  const BAD_TEXT := FIRST_LINE + [LF] + SECOND_LINE

  lemma {:induction false} UnixAlready(s: string)
    requires forall i :: 0 <= i < |s| ==> s[i] as int != 13
    ensures UnixLines(s) == s
  {
    if s != "" {
      UnixAlready(s[1..]);
      assert s == [s[0]] + s[1..];
    }
  }

  lemma BadTextLines()
    ensures T.Split(UnixLines(BAD_TEXT), LF) == BAD_LINES
  {
    UnixAlready(BAD_TEXT);
    assert BAD_LINES[1..] == [SECOND_LINE];
    assert T.Join(BAD_LINES[1..], LF) == SECOND_LINE;
    assert T.Join(BAD_LINES, LF) == BAD_TEXT;
    T.SplitJoin(BAD_LINES, LF);
  }

  lemma BadOpeners()
    ensures Openers(BAD_LINES) == [0, 1]
  {
    var a := BAD_LINES[..1];
    assert a[..0] == [] && a == [FIRST_LINE] && a[..1] == a && BAD_LINES[..2] == BAD_LINES;
    assert !IsFence(FIRST_LINE) && !IsFence(SECOND_LINE);
    assert !Fenced(a) && !Fenced(BAD_LINES);
    assert FIRST_LINE[..3] == "## " && SECOND_LINE[..3] == "## ";
    assert Opens(a, 0) && Opens(BAD_LINES, 1);
    assert Openers(a) == [] + [0];
  }

  lemma BadHeadings(intro: seq<string>, cut: seq<Building>)
    requires CutRight(BAD_LINES, intro, cut)
    ensures |cut| == 2 && Headings(cut) == ["section-2", "?"]
  {
    BadOpeners();
    hide Openers, T.Trim;
    assert SectionAt(BAD_LINES, [0, 1], cut[0], 0) && SectionAt(BAD_LINES, [0, 1], cut[1], 1);
    assert FIRST_LINE[3..] == "section-2" && SECOND_LINE[3..] == "?";
    T.Untrimmed("section-2");
    T.Untrimmed("?");
  }

  /** However ParseDoc's contract is met, this document's second section gets the slug -2. */
  lemma BadDocument(lower: char -> char, intro: seq<string>, cut: seq<Building>)
    requires forall c :: IsSlugChar(c) || c == '-' || c == '?' ==> lower(c) == c
    requires CutRight(T.Split(UnixLines(BAD_TEXT), LF), intro, cut) && SlugsOf(cut) == Slugs(Headings(cut), lower)
    ensures |cut| == 2 && cut[1].slug == "-2" && !IsSlug("-2")
  {
    hide CutRight, Slugs, IsSlug, UnixLines, T.Split;
    BadTextLines();
    BadHeadings(intro, cut);
    BadSlug(lower);
    assert Numbered(SECTION, 2) == "section-2" && Numbered("", 2) == "-2";
    assert SlugsOf(cut)[1] == cut[1].slug;
  }
}
