/** parseRange: a Range header as sorted, merged byte ranges (RFC 9110 section 14.1.2). */
module Ranges {
  import opened JsonValue
  import T = Text

  datatype Range = Range(start: int, end: int)

  const MAX_INT64 := 0x7FFF_FFFF_FFFF_FFFF

  predicate AllDigits(s: string) { forall i :: 0 <= i < |s| ==> T.IsDigit(s[i]) }

  /** The number a digit string denotes, however large. */
  function Digits(s: string): nat
    requires AllDigits(s)
  {
    if s == "" then 0
    else
      assert T.IsDigit(s[|s| - 1]);
      10 * Digits(s[..|s| - 1]) + (s[|s| - 1] as int - '0' as int)
  }

  /** strconv.ParseInt(s, 10, 64) */
  function ParseInt(s: string): (r: Option<int>)
    ensures r.Some? ==> -MAX_INT64 - 1 <= r.value <= MAX_INT64
  {
    var signed := s != "" && (s[0] == '+' || s[0] == '-');
    var ds := if signed then s[1..] else s;
    if ds == "" || !AllDigits(ds) then None
    else
      var n: int := Digits(ds);
      var v := if signed && s[0] == '-' then -n else n;
      if -MAX_INT64 - 1 <= v <= MAX_INT64 then Some(v) else None
  }

  /** int64 arithmetic. */
  function Wrap(n: int): int { (n + MAX_INT64 + 1) % (2 * MAX_INT64 + 2) - MAX_INT64 - 1 }

  /** One spec of the header: two texts around its first hyphen, or none. */
  datatype Spec = NoHyphen | Spec(first: string, last: string)

  function CutSpec(text: string): Spec {
    var t := T.Trim(text);
    var i := T.Index(t, '-');
    if i == |t| then NoHyphen else Spec(T.Trim(t[..i]), T.Trim(t[i + 1..]))
  }

  /** The range a spec selects, if it is well formed and satisfiable. */
  function Clamp(size: nat, spec: Spec): Option<Range> {
    if spec.NoHyphen? then None
    else
      var a := ParseInt(spec.first);
      var b := ParseInt(spec.last);
      var (start, end, ok) :=
        if spec.first == "" && b.Some? then
          var s := Wrap(size - b.value);
          (if b.value > 0 && s < 0 then 0 else s, size - 1, true)
        else if a.Some? && spec.last == "" then (a.value, size - 1, true)
        else if a.Some? && b.Some? then (a.value, b.value, true)
        else (0, 0, false);
      var e := if end > size - 1 then size - 1 else end;
      if !ok || start > e || start < 0 then None else Some(Range(start, e))
  }

  predicate In(p: int, r: Range) { r.start <= p <= r.end }

  // ── what a spec means, and how the code reads it ──────────

  /** RFC 9110's range-spec with optional white space around it: digits, a hyphen,
      digits, one side possibly empty. */
  predicate WellFormed(text: string) {
    var t := T.Trim(text);
    var i := T.Index(t, '-');
    && (forall k :: 0 <= k < |text| && T.IsSpace(text[k]) ==> text[k] == ' ' || text[k] == '\t')
    && i < |t| && |t| > 1 && AllDigits(t[..i]) && AllDigits(t[i + 1..])
  }

  /** The literals on both sides of the hyphen. */
  function Literals(text: string): (r: (string, string))
    requires WellFormed(text)
    ensures AllDigits(r.0) && AllDigits(r.1)
  {
    var t := T.Trim(text);
    var i := T.Index(t, '-');
    (t[..i], t[i + 1..])
  }

  /** The bytes section 14.1.2 says a spec selects: the last n, or from first on, up to
      last.  Its numbers are unbounded; a malformed spec selects nothing. */
  predicate Selects(size: nat, text: string, p: int) {
    && WellFormed(text)
    && 0 <= p < size
    && var (a, b) := Literals(text);
    if a == "" then size - Digits(b) <= p else Digits(a) <= p && (b == "" || p <= Digits(b))
  }

  /** A well-formed spec that selects something and whose second literal does not fit
      64 bits. */
  predicate Oversized(size: nat, text: string) {
    && WellFormed(text)
    && var (a, b) := Literals(text);
    && Digits(b) > MAX_INT64
    && if a == "" then size > 0 else Digits(a) < size
  }

  /** A malformed spec whose two texts, signs and inner blanks allowed, are 64-bit
      numbers that name a range of the file. */
  predicate Lenient(size: nat, text: string) {
    && !WellFormed(text)
    && CutSpec(text).Spec?
    && var (first, last) := (CutSpec(text).first, CutSpec(text).last);
    var (a, b) := (ParseInt(first), ParseInt(last));
    if first == "" then b.Some? && b.value > 0 && size > 0
    else a.Some? && 0 <= a.value < size && (last == "" || (b.Some? && a.value <= b.value))
  }

  /** The bytes two texts name when read as signed 64-bit numbers. */
  predicate Reads(size: nat, spec: Spec, p: int) {
    && spec.Spec?
    && 0 <= p < size
    && var a, b := ParseInt(spec.first), ParseInt(spec.last);
    if spec.first == "" then b.Some? && size - b.value <= p
    else a.Some? && 0 <= a.value <= p && (spec.last == "" || (b.Some? && p <= b.value))
  }

  /** The bytes the code takes for a spec. */
  predicate Taken(size: nat, text: string, p: int) {
    Clamp(size, CutSpec(text)).Some? && In(p, Clamp(size, CutSpec(text)).value)
  }

  lemma WrapIn(n: int)
    requires -MAX_INT64 - 1 <= n <= MAX_INT64
    ensures Wrap(n) == n
  {}

  lemma WrapOver(n: int)
    requires MAX_INT64 < n <= 2 * MAX_INT64 + 1
    ensures Wrap(n) < 0
  {}

  /** Clamping takes exactly the bytes its signed 64-bit reading names. */
  lemma ClampReads(size: nat, spec: Spec, p: int)
    requires size <= MAX_INT64
    ensures Reads(size, spec, p) <==> Clamp(size, spec).Some? && In(p, Clamp(size, spec).value)
    ensures Clamp(size, spec).Some? ==> var r := Clamp(size, spec).value; 0 <= r.start <= r.end < size
  {
    if spec.Spec? {
      assert ParseInt("").None?;
      var b := ParseInt(spec.last);
      if b.Some? {
        if size - b.value <= MAX_INT64 { WrapIn(size - b.value); } else { WrapOver(size - b.value); }
      }
    }
  }

  lemma DigitsOnly(s: string)
    requires AllDigits(s)
    ensures T.Trim(s) == s
    ensures ParseInt(s) == if s == "" || Digits(s) > MAX_INT64 then None else Some(Digits(s))
  {}

  /** How the code reads a well-formed spec. */
  lemma LiteralsRead(text: string)
    requires WellFormed(text)
    ensures CutSpec(text) == Spec(Literals(text).0, Literals(text).1)
  {
    DigitsOnly(Literals(text).0);
    DigitsOnly(Literals(text).1);
  }

  /** On a well-formed spec the code takes what is selected, or, when a literal that
      matters is oversized, nothing. */
  lemma WellFormedTaken(size: nat, text: string, p: int)
    requires size <= MAX_INT64 && WellFormed(text)
    ensures Taken(size, text, p) <==> Selects(size, text, p) && !Oversized(size, text)
  {
    hide WellFormed, Literals, CutSpec, Clamp, ParseInt, Digits;
    LiteralsRead(text);
    DigitsOnly(Literals(text).0);
    DigitsOnly(Literals(text).1);
    NonEmpty(text);
    ClampReads(size, CutSpec(text), p);
  }

  lemma NonEmpty(text: string)
    requires WellFormed(text)
    ensures Literals(text).0 != "" || Literals(text).1 != ""
    ensures Digits("") == 0
  {}

  /** MAIN: byte by byte, what the code takes for a spec: what the RFC selects unless a
      literal is oversized, and what a lenient one names. */
  lemma TakenIs(size: nat, text: string, p: int)
    requires size <= MAX_INT64
    ensures Taken(size, text, p) <==>
      (Selects(size, text, p) && !Oversized(size, text)) || (Lenient(size, text) && Reads(size, CutSpec(text), p))
  {
    hide WellFormed, Clamp, CutSpec, ParseInt, Digits;
    if WellFormed(text) { WellFormedTaken(size, text, p); } else { ClampReads(size, CutSpec(text), p); }
  }

  /** MAIN: the code takes exactly the bytes the RFC selects if and only if no literal that
      matters is oversized and the spec is not a lenient one. */
  lemma ClampExact(size: nat, text: string)
    requires size <= MAX_INT64
    ensures (forall p :: Taken(size, text, p) <==> Selects(size, text, p)) <==>
      !Oversized(size, text) && !Lenient(size, text)
  {
    hide WellFormed, CutSpec, Clamp, ParseInt, Digits, Taken;
    forall p ensures Taken(size, text, p) <==>
      (Selects(size, text, p) && !Oversized(size, text)) || (Lenient(size, text) && Reads(size, CutSpec(text), p))
    {
      TakenIs(size, text, p);
    }
    if Oversized(size, text) {
      var p := if Literals(text).0 == "" then size - 1 else Digits(Literals(text).0);
      assert Selects(size, text, p) && !Taken(size, text, p);
    } else if Lenient(size, text) {
      var s := CutSpec(text);
      var p := if s.first == "" then size - 1 else ParseInt(s.first).value;
      assert Reads(size, s, p) && Taken(size, text, p) && !Selects(size, text, p);
    }
  }

  // ── witnesses ──────────

  lemma Written(a: string, b: string)
    requires AllDigits(a) && AllDigits(b) && (a != "" || b != "")
    ensures WellFormed(a + "-" + b) && Literals(a + "-" + b) == (a, b)
  {
    hide Digits;
    var text := a + "-" + b;
    T.IndexIs(a, '-', b);
    T.Untrimmed(text);
    assert text[..|a|] == a && text[|a| + 1..] == b;
  }

  const TWO_TO_63 := "9223372036854775808"

  lemma DigitsStep(s: string, i: nat, n: nat)
    requires i < |s| && AllDigits(s) && Digits(s[..i]) == n
    ensures Digits(s[..i + 1]) == 10 * n + (s[i] as int - '0' as int)
  {
    assert s[..i + 1][..i] == s[..i];
  }

  lemma Prefix0()
    ensures AllDigits(TWO_TO_63) && Digits(TWO_TO_63[..0]) == 0
  {}

  lemma Prefix5()
    ensures AllDigits(TWO_TO_63) && Digits(TWO_TO_63[..5]) == 92233
  {
    hide Digits, AllDigits;
    Prefix0();
    DigitsStep(TWO_TO_63, 0, 0);
    DigitsStep(TWO_TO_63, 1, 9);
    DigitsStep(TWO_TO_63, 2, 92);
    DigitsStep(TWO_TO_63, 3, 922);
    DigitsStep(TWO_TO_63, 4, 9223);
  }

  lemma Prefix10()
    ensures AllDigits(TWO_TO_63) && Digits(TWO_TO_63[..10]) == 9223372036
  {
    hide Digits, AllDigits;
    Prefix5();
    DigitsStep(TWO_TO_63, 5, 92233);
    DigitsStep(TWO_TO_63, 6, 922337);
    DigitsStep(TWO_TO_63, 7, 9223372);
    DigitsStep(TWO_TO_63, 8, 92233720);
    DigitsStep(TWO_TO_63, 9, 922337203);
  }

  lemma Prefix15()
    ensures AllDigits(TWO_TO_63) && Digits(TWO_TO_63[..15]) == 922337203685477
  {
    hide Digits, AllDigits;
    Prefix10();
    DigitsStep(TWO_TO_63, 10, 9223372036);
    DigitsStep(TWO_TO_63, 11, 92233720368);
    DigitsStep(TWO_TO_63, 12, 922337203685);
    DigitsStep(TWO_TO_63, 13, 9223372036854);
    DigitsStep(TWO_TO_63, 14, 92233720368547);
  }

  lemma Value63()
    ensures AllDigits(TWO_TO_63) && Digits(TWO_TO_63) == MAX_INT64 + 1
  {
    hide Digits, AllDigits;
    Prefix15();
    DigitsStep(TWO_TO_63, 15, 922337203685477);
    DigitsStep(TWO_TO_63, 16, 9223372036854775);
    DigitsStep(TWO_TO_63, 17, 92233720368547758);
    DigitsStep(TWO_TO_63, 18, 922337203685477580);
    assert TWO_TO_63[..19] == TWO_TO_63;
  }

  lemma OneDigit(s: string)
    requires |s| == 1 && AllDigits(s)
    ensures Digits(s) == s[0] as int - '0' as int
  {
    DigitsStep(s, 0, 0);
    assert s[..1] == s;
  }

  /** A suffix length from 2^63 on selects the whole file and is dropped; so is a range
      whose last position is that large. */
  lemma OversizedDropped(size: nat, p: int)
    requires 0 < size <= MAX_INT64
    ensures Selects(size, "-" + TWO_TO_63, p) <==> 0 <= p < size
    ensures Selects(size, "0-" + TWO_TO_63, p) <==> 0 <= p < size
    ensures !Taken(size, "-" + TWO_TO_63, p) && !Taken(size, "0-" + TWO_TO_63, p)
  {
    hide Digits, WellFormed, Taken, Literals;
    Value63();
    Written("", TWO_TO_63);
    assert "" + "-" + TWO_TO_63 == "-" + TWO_TO_63;
    Written("0", TWO_TO_63);
    assert "0" + "-" + TWO_TO_63 == "0-" + TWO_TO_63;
    OneDigit("0");
    WellFormedTaken(size, "-" + TWO_TO_63, p);
    WellFormedTaken(size, "0-" + TWO_TO_63, p);
  }

  /** Signs are no part of a range-spec, and the code takes them. */
  lemma SignsTaken(size: nat, p: int)
    requires 4 < size <= MAX_INT64
    ensures !Selects(size, "+0-+4", p)
    ensures Taken(size, "+0-+4", p) <==> 0 <= p <= 4
  {
    hide Clamp, ParseInt, CutSpec;
    SignsCut();
    SignedDigit("+0");
    SignedDigit("+4");
    ClampReads(size, Spec("+0", "+4"), p);
  }

  lemma SignsCut()
    ensures CutSpec("+0-+4") == Spec("+0", "+4") && !WellFormed("+0-+4")
  {
    hide T.Index, Digits, T.Trim;
    var text := "+0-+4";
    T.Untrimmed(text);
    T.Untrimmed("+0");
    T.Untrimmed("+4");
    T.IndexIs("+0", '-', "+4");
    assert text == "+0" + ['-'] + "+4";
    assert text[..2] == "+0" && text[3..] == "+4" && text[..2][0] == '+';
  }

  lemma SignedDigit(s: string)
    requires |s| == 2 && s[0] == '+' && T.IsDigit(s[1])
    ensures ParseInt(s) == Some(s[1] as int - '0' as int)
  {
    hide Digits;
    OneDigit(s[1..]);
  }

  // ── merging ──────────

  predicate SortedBy(rs: seq<Range>) { forall i, j :: 0 <= i < j < |rs| ==> rs[i].start <= rs[j].start }

  /** Inside the file, ascending, with a gap between neighbours. */
  predicate Normal(rs: seq<Range>, size: nat) {
    && (forall i :: 0 <= i < |rs| ==> 0 <= rs[i].start <= rs[i].end < size)
    && forall i, j :: 0 <= i < j < |rs| ==> rs[i].end + 1 < rs[j].start
  }

  predicate Covers(rs: seq<Range>, p: int) { exists r :: r in rs && In(p, r) }

  method Swap(a: array<Range>, j: nat)
    requires 0 < j < a.Length
    modifies a
    ensures a[..] == old(a[..])[j := old(a[j - 1])][j - 1 := old(a[j])]
    ensures multiset(a[..]) == multiset(old(a[..]))
  {
    a[j], a[j - 1] := a[j - 1], a[j];
  }

  /** Element i moves down past every larger start. */
  method SinkInto(a: array<Range>, i: nat)
    requires i < a.Length && SortedBy(a[..i])
    modifies a
    ensures SortedBy(a[..i + 1]) && multiset(a[..]) == multiset(old(a[..]))
  {
    var j := i;
    while j > 0 && a[j].start < a[j - 1].start
      invariant 0 <= j <= i
      invariant forall x, y :: 0 <= x < y <= i && y != j ==> a[x].start <= a[y].start
      invariant multiset(a[..]) == multiset(old(a[..]))
    {
      Swap(a, j);
      j := j - 1;
    }
  }

  /** combine's first loop: insertion sort by neighbour swaps, in place. */
  method InsertionSort(a: array<Range>)
    modifies a
    ensures SortedBy(a[..]) && multiset(a[..]) == multiset(old(a[..]))
  {
    FewSorted(a[..]);
    hide SortedBy;
    if a.Length <= 1 { return; }
    var i := 1;
    while i < a.Length
      invariant 1 <= i <= a.Length && SortedBy(a[..i])
      invariant multiset(a[..]) == multiset(old(a[..]))
    {
      SinkInto(a, i);
      i := i + 1;
    }
    assert a[..i] == a[..];
  }

  lemma FewSorted(s: seq<Range>)
    ensures |s| >= 1 ==> SortedBy(s[..1])
    ensures |s| <= 1 ==> SortedBy(s)
  {}

  lemma CoversMore(rs: seq<Range>, r: Range, p: int)
    ensures Covers(rs + [r], p) <==> Covers(rs, p) || In(p, r)
  {
    if Covers(rs, p) {
      var x :| x in rs && In(p, x);
      assert x in rs + [r];
    }
    if In(p, r) { assert r in rs + [r]; }
  }

  /** combine's second loop: extend the last range or start a new one. */
  method Merge(rs: seq<Range>, size: nat) returns (merged: seq<Range>)
    requires rs != [] && SortedBy(rs) && forall i :: 0 <= i < |rs| ==> 0 <= rs[i].start <= rs[i].end < size
    ensures Normal(merged, size)
    ensures forall p :: Covers(merged, p) <==> Covers(rs, p)
  {
    hide Covers;
    merged := [rs[0]];
    assert rs[..1] == [rs[0]];
    for i := 1 to |rs|
      invariant Normal(merged, size) && merged != []
      invariant merged[|merged| - 1].start <= rs[i - 1].start
      invariant forall p :: Covers(merged, p) <==> Covers(rs[..i], p)
    {
      var r, last := rs[i], merged[|merged| - 1];
      ghost var front := merged[..|merged| - 1];
      assert rs[..i + 1] == rs[..i] + [r];
      assert merged == front + [last];
      assert last.start <= r.start;
      forall p ensures Covers(rs[..i + 1], p) <==> Covers(front, p) || In(p, last) || In(p, r) {
        CoversMore(rs[..i], r, p);
        CoversMore(front, last, p);
      }
      if r.start > last.end + 1 {
        forall p ensures Covers(merged + [r], p) <==> Covers(front, p) || In(p, last) || In(p, r) {
          CoversMore(front, last, p);
          CoversMore(merged, r, p);
        }
        merged := merged + [r];
      } else {
        var wider := Range(last.start, if r.end > last.end then r.end else last.end);
        forall p ensures Covers(front + [wider], p) <==> Covers(front, p) || In(p, last) || In(p, r) {
          CoversMore(front, wider, p);
        }
        merged := merged[..|merged| - 1] + [wider];
      }
    }
    assert rs[..|rs|] == rs;
  }

  predicate SomeTaken(size: nat, texts: seq<string>, p: int) { exists t :: t in texts && Taken(size, t, p) }

  predicate SomeSelects(size: nat, texts: seq<string>, p: int) { exists t :: t in texts && Selects(size, t, p) }

  predicate SomeLenient(size: nat, texts: seq<string>, p: int) {
    exists t :: t in texts && Lenient(size, t) && Reads(size, CutSpec(t), p)
  }

  predicate SomeFitting(size: nat, texts: seq<string>, p: int) {
    exists t :: t in texts && !Oversized(size, t) && Selects(size, t, p)
  }

  lemma TakenMore(size: nat, texts: seq<string>, t: string, p: int)
    ensures SomeTaken(size, texts + [t], p) <==> SomeTaken(size, texts, p) || Taken(size, t, p)
  {
    hide Taken;
    if SomeTaken(size, texts, p) {
      var x :| x in texts && Taken(size, x, p);
      assert x in texts + [t];
    }
    if Taken(size, t, p) { assert t in texts + [t]; }
  }

  /** The spec loop: every satisfiable range, in header order. */
  method Collect(size: nat, texts: seq<string>) returns (out: seq<Range>)
    requires size <= MAX_INT64
    ensures forall i :: 0 <= i < |out| ==> 0 <= out[i].start <= out[i].end < size
    ensures forall p :: Covers(out, p) <==> SomeTaken(size, texts, p)
  {
    hide CutSpec, Clamp, SomeTaken, Covers;
    out := [];
    NothingYet(size);
    for i := 0 to |texts|
      invariant forall k :: 0 <= k < |out| ==> 0 <= out[k].start <= out[k].end < size
      invariant forall p :: Covers(out, p) <==> SomeTaken(size, texts[..i], p)
    {
      var r := Clamp(size, CutSpec(texts[i]));
      ghost var was := out;
      assert texts[..i + 1] == texts[..i] + [texts[i]];
      if r.Some? { out := out + [r.value]; }
      ClampReads(size, CutSpec(texts[i]), 0);
      forall p ensures Covers(out, p) <==> SomeTaken(size, texts[..i + 1], p) {
        TakenMore(size, texts[..i], texts[i], p);
        if r.Some? { CoversMore(was, r.value, p); }
      }
    }
    assert texts[..|texts|] == texts;
  }

  lemma NothingYet(size: nat)
    ensures forall p :: !Covers([], p) && !SomeTaken(size, [], p)
  {}

  /** The specs after the first '='. */
  function Specs(header: string): seq<string> {
    var eq := T.Index(header, '=');
    if eq == |header| then [] else T.Split(header[eq + 1..], ',')
  }

  /** A header is a unit, the first '=', and the specs with commas between. */
  lemma SpecsAre(unit: string, specs: seq<string>)
    requires '=' !in unit && specs != [] && forall t :: t in specs ==> ',' !in t
    ensures Specs(unit + "=" + T.Join(specs, ',')) == specs
  {
    hide T.Join, T.Split;
    var list := T.Join(specs, ',');
    var header := unit + ['='] + list;
    T.IndexIs(unit, '=', list);
    assert unit + "=" + list == header && header[|unit| + 1..] == list;
    T.SplitJoin(specs, ',');
  }

  /** Taking over a whole header: the fitting selections and the lenient readings. */
  lemma SomeTakenIs(size: nat, texts: seq<string>, p: int)
    requires size <= MAX_INT64
    ensures SomeTaken(size, texts, p) <==> SomeFitting(size, texts, p) || SomeLenient(size, texts, p)
    ensures (forall t :: t in texts ==> !Oversized(size, t) && !Lenient(size, t)) ==>
      (SomeTaken(size, texts, p) <==> SomeSelects(size, texts, p))
  {
    hide Taken, Selects, Oversized, Lenient, Reads;
    forall t | t in texts
      ensures Taken(size, t, p) <==>
        (Selects(size, t, p) && !Oversized(size, t)) || (Lenient(size, t) && Reads(size, CutSpec(t), p))
    {
      TakenIs(size, t, p);
    }
  }

  /** MAIN: parseRange refuses only a header without '='; otherwise its ranges are in
      normal form.  They cover the bytes the well-formed specs select, but for the
      oversized ones, and what lenient specs name; without either kind they cover
      exactly the bytes RFC 9110 selects. */
  method ParseRange(size: nat, header: string) returns (r: Option<seq<Range>>)
    requires size <= MAX_INT64
    ensures r.None? <==> '=' !in header
    ensures r.Some? ==> Normal(r.value, size)
    ensures r.Some? ==>
      forall p :: Covers(r.value, p) <==> SomeFitting(size, Specs(header), p) || SomeLenient(size, Specs(header), p)
    ensures r.Some? && (forall t :: t in Specs(header) ==> !Oversized(size, t) && !Lenient(size, t)) ==>
      forall p :: Covers(r.value, p) <==> SomeSelects(size, Specs(header), p)
  {
    hide SomeTaken, SomeFitting, SomeLenient, SomeSelects, Oversized, Lenient, Covers;
    var eq := T.Index(header, '=');
    if eq == |header| {
      assert header[..eq] == header;
      return None;
    }
    var out := Collect(size, T.Split(header[eq + 1..], ','));
    forall p
      ensures SomeTaken(size, Specs(header), p) <==>
        SomeFitting(size, Specs(header), p) || SomeLenient(size, Specs(header), p)
      ensures (forall t :: t in Specs(header) ==> !Oversized(size, t) && !Lenient(size, t)) ==>
        (SomeTaken(size, Specs(header), p) <==> SomeSelects(size, Specs(header), p))
    {
      SomeTakenIs(size, Specs(header), p);
    }
    if out == [] { return Some([]); }
    var merged := Combine(out, size);
    r := Some(merged);
  }

  /** combine: sort in place, then merge. */
  method Combine(out: seq<Range>, size: nat) returns (merged: seq<Range>)
    requires out != [] && forall i :: 0 <= i < |out| ==> 0 <= out[i].start <= out[i].end < size
    ensures Normal(merged, size)
    ensures forall p :: Covers(merged, p) <==> Covers(out, p)
  {
    var a := new Range[|out|](i requires 0 <= i < |out| => out[i]);
    assert a[..] == out;
    InsertionSort(a);
    ghost var sorted := a[..];
    forall r ensures r in sorted <==> r in out {
      assert r in sorted <==> r in multiset(sorted);
      assert r in out <==> r in multiset(out);
    }
    assert forall p :: Covers(sorted, p) <==> Covers(out, p);
    forall i | 0 <= i < |sorted| ensures 0 <= sorted[i].start <= sorted[i].end < size {
      assert sorted[i] in out;
    }
    merged := Merge(a[..], size);
  }

  // ── normal form is unique ──────────

  lemma GapAfter(a: seq<Range>, size: nat)
    requires Normal(a, size) && a != []
    ensures !Covers(a, a[0].end + 1)
  {}

  lemma FirstRange(a: seq<Range>, b: seq<Range>, size: nat)
    requires Normal(a, size) && Normal(b, size) && a != [] && b != []
    requires forall p :: Covers(a, p) <==> Covers(b, p)
    ensures b[0].start <= a[0].start && b[0].end <= a[0].end
  {
    assert In(a[0].start, a[0]) && a[0] in a;
    assert Covers(b, a[0].start);
    if b[0].end > a[0].end {
      assert b[0] in b && In(a[0].end + 1, b[0]);
      GapAfter(a, size);
    }
  }

  lemma StartCovered(a: seq<Range>, size: nat)
    requires Normal(a, size) && a != []
    ensures Covers(a, a[0].start)
  {
    assert a[0] in a && In(a[0].start, a[0]);
  }

  /** Two normal lists that cover the same bytes are the same list: the result is
      determined by the bytes alone. */
  lemma {:induction false} NormalUnique(a: seq<Range>, b: seq<Range>, size: nat)
    requires Normal(a, size) && Normal(b, size)
    requires forall p :: Covers(a, p) <==> Covers(b, p)
    ensures a == b
  {
    if a == [] || b == [] {
      if a != [] { StartCovered(a, size); }
      if b != [] { StartCovered(b, size); }
    } else {
      FirstRange(a, b, size);
      FirstRange(b, a, size);
      hide Covers;
      forall p ensures Covers(a[1..], p) <==> Covers(b[1..], p) {
        RestCovers(a, size, p);
        RestCovers(b, size, p);
      }
      RestNormal(a, size);
      RestNormal(b, size);
      hide Normal;
      NormalUnique(a[1..], b[1..], size);
      assert a == [a[0]] + a[1..] && b == [b[0]] + b[1..];
    }
  }

  lemma RestNormal(a: seq<Range>, size: nat)
    requires Normal(a, size) && a != []
    ensures Normal(a[1..], size)
  {}

  lemma RestCovers(a: seq<Range>, size: nat, p: int)
    requires Normal(a, size) && a != []
    ensures Covers(a[1..], p) <==> Covers(a, p) && p > a[0].end
  {
    if Covers(a, p) && p > a[0].end {
      var r :| r in a && In(p, r);
      assert r in a[1..];
    }
  }
}
