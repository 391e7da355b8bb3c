/** Parse: the five-field text. */
module CronParse {
  import opened JsonValue
  import T = Text
  import U = Utf8
  import opened Calendar
  import opened Cron
  import opened CronWindow

  const MAX_LENGTH := 100

  datatype FieldSpec = FieldSpec(min: int, max: int)

  const FIELDS: seq<FieldSpec> :=
    [FieldSpec(0, 59), FieldSpec(0, 23), FieldSpec(1, 31), FieldSpec(1, 12), FieldSpec(0, 7)]

  datatype Error = TooLong | NotFiveFields(got: nat) | BadField(index: nat) | NeverFires
  datatype Parsed = Ok(s: Schedule) | Fail(e: Error)

  /** The UTF-8 form of a text. */
  function Bytes(s: string): Str { if s == "" then [] else U.EncodeRune(s[0] as int) + Bytes(s[1..]) }

  /** The limit of the expression's length counts the bytes of its UTF-8 form. */
  lemma {:induction false} ByteLenIs(s: string)
    ensures T.ByteLen(s) == |Bytes(s)|
  {
    if s != "" { ByteLenIs(s[1..]); }
  }

  /** One or two decimal digits, nothing else. */
  function Number(s: string): Option<int> {
    if s == "" || |s| > 2 || exists i :: 0 <= i < |s| && !T.IsDigit(s[i]) then None
    else if |s| == 1 then Some(s[0] as int - '0' as int)
    else Some(10 * (s[0] as int - '0' as int) + (s[1] as int - '0' as int))
  }

  /** lo, lo+step, and so on up to hi. */
  function Stepped(lo: int, hi: int, step: int): set<int>
    requires step > 0
    decreases hi - lo
  {
    if lo > hi then {} else {lo} + Stepped(lo + step, hi, step)
  }

  function Nth(lo: int, step: int, k: nat): int { lo + k * step }

  /** A stepped range holds the terms of the progression from lo that do not pass hi. */
  lemma {:induction false} SteppedMeans(lo: int, hi: int, step: int, v: int)
    requires step > 0
    ensures v in Stepped(lo, hi, step) <==> v <= hi && exists k: nat :: v == Nth(lo, step, k)
    ensures v in Stepped(lo, hi, step) ==> lo <= v
    decreases hi - lo
  {
    if lo <= hi {
      var next := lo + step;
      SteppedMeans(next, hi, step, v);
      if v == lo { assert v == Nth(lo, step, 0); }
      if k: nat :| v == Nth(next, step, k) { assert v == Nth(lo, step, k + 1); }
      if k: nat :| v == Nth(lo, step, k) {
        if k > 0 { assert v == Nth(next, step, k - 1); }
      }
    } else if k: nat :| v == Nth(lo, step, k) {
      assert k * step >= 0;
    }
  }

  /** The bounds of an item without its step. */
  function ParseRange(text: string, f: FieldSpec): Option<(int, int)> {
    if text == "*" then Some((f.min, f.max))
    else
      var dash := T.Index(text, '-');
      var lo := Number(text[..dash]);
      var hi := if dash < |text| then Number(text[dash + 1..]) else lo;
      if lo.None? || hi.None? || lo.value < f.min || hi.value > f.max || lo.value > hi.value then None
      else Some((lo.value, hi.value))
  }

  datatype Bounds = Bounds(lo: int, hi: int, step: int)

  /** The bounds and step an item gives. */
  function ParseBounds(item: string, f: FieldSpec): (r: Option<Bounds>)
    ensures r.Some? ==> f.min <= r.value.lo && r.value.hi <= f.max && r.value.step >= 1 && item != ""
    ensures r.Some? && f.min <= f.max ==> r.value.lo <= r.value.hi
  {
    if item == "" then None
    else
      var slash := T.Index(item, '/');
      var step := if slash < |item| then Number(item[slash + 1..]) else Some(1);
      var range := item[..slash];
      var badStep := step.None? || step.value < 1 || step.value > f.max;
      if slash < |item| && (badStep || (range != "*" && '-' !in range)) then None
      else match ParseRange(range, f)
        case None => None
        case Some((lo, hi)) => Some(Bounds(lo, hi, step.value))
  }

  function ParseItem(item: string, f: FieldSpec): Option<set<int>> {
    match ParseBounds(item, f)
    case None => None
    case Some(b) => Some(Stepped(b.lo, b.hi, b.step))
  }

  function ParseItems(items: seq<string>, f: FieldSpec): Option<set<int>> {
    if items == [] then Some({})
    else match (ParseItem(items[0], f), ParseItems(items[1..], f))
      case (Some(a), Some(b)) => Some(a + b)
      case _ => None
  }

  function ParseField(text: string, f: FieldSpec): Option<set<int>> { ParseItems(T.Split(text, ','), f) }

  /** parseField with its two loops, or-ing bits one by one. */
  method ParseFieldLoop(text: string, f: FieldSpec) returns (r: Option<set<int>>)
    ensures r == ParseField(text, f)
  {
    hide ParseBounds, Stepped;
    var items := T.Split(text, ',');
    var bits: set<int> := {};
    assert forall b: set<int> :: {} + b == b;
    for i := 0 to |items|
      invariant ParseField(text, f) == AddAll(bits, ParseItems(items[i..], f))
    {
      assert items[i..][0] == items[i] && items[i..][1..] == items[i + 1..];
      var bounds := ParseBounds(items[i], f);
      if bounds.None? { return None; }
      ghost var more := ParseItem(items[i], f).value;
      AddMore(bits, more, ParseItems(items[i + 1..], f));
      bits := OrBits(bits, bounds.value);
    }
    assert items[|items|..] == [];
    r := Some(bits);
  }

  method OrBits(start: set<int>, b: Bounds) returns (bits: set<int>)
    requires b.step > 0
    ensures bits == start + Stepped(b.lo, b.hi, b.step)
  {
    bits := start;
    var v := b.lo;
    while v <= b.hi
      invariant bits + Stepped(v, b.hi, b.step) == start + Stepped(b.lo, b.hi, b.step)
      decreases b.hi - v
    {
      bits := bits + {v};
      v := v + b.step;
    }
  }

  function AddAll(bits: set<int>, r: Option<set<int>>): Option<set<int>> {
    match r case None => None case Some(b) => Some(bits + b)
  }

  lemma AddMore(a: set<int>, b: set<int>, r: Option<set<int>>)
    ensures AddAll(a, AddAll(b, r)) == AddAll(a + b, r)
  {
    if r.Some? { assert a + (b + r.value) == a + b + r.value; }
  }

  // ── the whole expression ──────────

  /** The listed members of bits from m up to 59, ascending. */
  function Ascending(bits: set<int>, m: int): (r: seq<int>)
    requires m >= 0
    ensures forall x :: x in r <==> x in bits && m <= x < 60
    ensures forall i, j :: 0 <= i < j < |r| ==> r[i] < r[j]
    decreases 60 - m
  {
    if m >= 60 then []
    else
      var rest := Ascending(bits, m + 1);
      assert forall j :: 0 <= j < |rest| ==> rest[j] in rest;
      if m in bits then [m] + rest else rest
  }

  function Reversed(s: seq<int>): (r: seq<int>)
    ensures |r| == |s| && forall i :: 0 <= i < |s| ==> r[i] == s[|s| - 1 - i]
  {
    if s == [] then [] else Reversed(s[1..]) + [s[0]]
  }

  // 7 is Sunday too.
  function Sunday(dow: set<int>): set<int> { if 7 in dow then dow - {7} + {0} else dow }

  function Starred(text: string): bool { text != "" && text[0] == '*' }

  function Assemble(parts: seq<string>, sets: seq<set<int>>): Schedule
    requires |parts| == 5 && |sets| == 5
  {
    Schedule(sets[0], sets[1], sets[2], sets[3], Sunday(sets[4]), Starred(parts[2]), Starred(parts[4]),
             Ascending(sets[0], 0), Reversed(Ascending(sets[0], 0)))
  }

  /** Every field that parses is a non-empty set of values in range. */
  lemma {:induction false} ItemsInRange(items: seq<string>, f: FieldSpec)
    requires ParseItems(items, f).Some? && f.min <= f.max
    ensures forall v :: v in ParseItems(items, f).value ==> f.min <= v <= f.max
    ensures items != [] ==> exists v :: v in ParseItems(items, f).value
  {
    if items != [] {
      ItemsInRange(items[1..], f);
      var b := ParseBounds(items[0], f).value;
      assert b.lo in ParseItem(items[0], f).value;
      forall v | v in ParseItem(items[0], f).value ensures f.min <= v <= f.max {
        SteppedMeans(b.lo, b.hi, b.step, v);
      }
    }
  }

  ghost predicate FieldsParse(parts: seq<string>, sets: seq<set<int>>) {
    |parts| == 5 && |sets| == 5 && forall i :: 0 <= i < 5 ==> ParseField(parts[i], FIELDS[i]) == Some(sets[i])
  }

  /** Parse accepts a text of five good fields whose schedule fires in the days
      searched from 2000 on, and nothing else. */
  method Parse(expr: string) returns (r: Parsed)
    ensures T.ByteLen(expr) > MAX_LENGTH <==> r == Fail(TooLong)
    ensures r.Ok? ==> exists sets :: FieldsParse(T.Fields(expr), sets) && r.s == Assemble(T.Fields(expr), sets)
    ensures r.Ok? ==> Ready(r.s) && HasTime(r.s) && exists n :: IsNext(r.s, Y2000, Some(n))
    ensures r == Fail(NeverFires) <==>
      && T.ByteLen(expr) <= MAX_LENGTH
      && exists sets :: FieldsParse(T.Fields(expr), sets) && IsNext(Assemble(T.Fields(expr), sets), Y2000, None)
    ensures r.Fail? && r.e.BadField? ==> |T.Fields(expr)| == 5 && r.e.index < 5
    ensures r.Fail? && r.e.BadField? ==> ParseField(T.Fields(expr)[r.e.index], FIELDS[r.e.index]).None?
    ensures r.Fail? && r.e.BadField? ==>
      forall j :: 0 <= j < r.e.index ==> ParseField(T.Fields(expr)[j], FIELDS[j]).Some?
    ensures T.ByteLen(expr) <= MAX_LENGTH && |T.Fields(expr)| != 5 <==> r == Fail(NotFiveFields(|T.Fields(expr)|))
    ensures r.Fail? && r.e.NotFiveFields? ==> |T.Fields(expr)| != 5
  {
    hide ParseField, Assemble, Ready, HasTime, T.Fields, T.ByteLen;
    if T.ByteLen(expr) > MAX_LENGTH { return Fail(TooLong); }
    var parts := T.Fields(expr);
    if |parts| != 5 { return Fail(NotFiveFields(|parts|)); }
    var sets: seq<set<int>> := [];
    for i := 0 to 5
      invariant |sets| == i
      invariant forall j :: 0 <= j < i ==> ParseField(parts[j], FIELDS[j]) == Some(sets[j])
    {
      var bits := ParseFieldLoop(parts[i], FIELDS[i]);
      if bits.None? { return Fail(BadField(i)); }
      sets := sets + [bits.value];
    }
    var s := Assemble(parts, sets);
    assert FieldsParse(parts, sets);
    AssembledReady(parts, sets);
    OnlySets(parts, sets);
    var first := Next(s, Y2000);
    if first.None? { return Fail(NeverFires); }
    r := Ok(s);
  }

  lemma OnlySets(parts: seq<string>, sets: seq<set<int>>)
    requires FieldsParse(parts, sets)
    ensures forall other :: FieldsParse(parts, other) ==> other == sets
  {
    hide ParseField;
    forall other | FieldsParse(parts, other) ensures other == sets {
      forall i | 0 <= i < 5 ensures other[i] == sets[i] { assert Some(other[i]) == ParseField(parts[i], FIELDS[i]); }
    }
  }

  lemma AssembledReady(parts: seq<string>, sets: seq<set<int>>)
    requires FieldsParse(parts, sets)
    ensures var s := Assemble(parts, sets); Ready(s) && HasTime(s)
  {
    hide ParseItems, Sunday, Starred, Ascending, Reversed;
    assert ParseField(parts[0], FIELDS[0]) == Some(sets[0]) && ParseField(parts[1], FIELDS[1]) == Some(sets[1]);
    InRange(parts[0], FIELDS[0]);
    InRange(parts[1], FIELDS[1]);
    var m :| m in sets[0];
    var h :| h in sets[1];
  }

  lemma InRange(text: string, f: FieldSpec)
    requires ParseField(text, f).Some? && f.min <= f.max
    ensures exists v :: v in ParseField(text, f).value
    ensures forall v :: v in ParseField(text, f).value ==> f.min <= v <= f.max
  {
    ItemsInRange(T.Split(text, ','), f);
  }

  /** MAIN: a text of five good fields, free in its day fields, is accepted if and
      only if its schedule ever fires. */
  lemma AcceptedIffFires(parts: seq<string>, sets: seq<set<int>>, first: Option<int>)
    requires FieldsParse(parts, sets) && Free(Assemble(parts, sets))
    requires IsNext(Assemble(parts, sets), Y2000, first)
    ensures first.Some? <==> FiresEver(Assemble(parts, sets))
  {
    SearchesNeverMiss(Assemble(parts, sets), Y2000, first, None);
  }

  lemma EmptyField(f: FieldSpec)
    ensures ParseField("", f).None?
  {
    assert T.Split("", ',') == [""];
  }

  // Five fields: minute, hour, day of month, month, day of week.
  ghost predicate FiresAt(parts: seq<string>, sets: seq<set<int>>, t: int)
    requires FieldsParse(parts, sets) && parts[2] != "" && parts[4] != ""
  {
    var date, weekday := CivilOf(t / 1440), Weekday(t / 1440);
    var onDate := date.day in sets[2];
    var onWeekday := weekday in sets[4] || (weekday == 0 && 7 in sets[4]);
    && t % 60 in sets[0] && t / 60 % 24 in sets[1] && date.month in sets[3]
    && if parts[2][0] == '*' || parts[4][0] == '*' then onDate && onWeekday else onDate || onWeekday
  }

  /** MAIN: when the schedule of five good fields fires: minute, hour and month as listed, the
      day by both day fields if one starts with a star and by either if none does, and 7
      for Sunday as well as 0. */
  lemma FiresWhen(parts: seq<string>, sets: seq<set<int>>, t: int)
    requires FieldsParse(parts, sets)
    ensures parts[2] != "" && parts[4] != ""
    ensures Matches(Assemble(parts, sets), t) <==> FiresAt(parts, sets, t)
  {
    hide ParseField, CivilOf, Ascending, Reversed;
    assert ParseField(parts[2], FIELDS[2]) == Some(sets[2]) && ParseField(parts[4], FIELDS[4]) == Some(sets[4]);
    EmptyField(FIELDS[2]);
    EmptyField(FIELDS[4]);
    HourOfDay(t);
    assert 0 <= Weekday(t / 1440) <= 6;
  }

  lemma HourOfDay(t: int)
    ensures t % DAY / 60 == t / 60 % 24
  {
    var h, m := t / 60, t % 60;
    assert t == 60 * h + m;
    var d, k := h / 24, h % 24;
    assert h == 24 * d + k;
    Split(d, k, m);
  }

  /** For every text of five good fields: it fires and is refused exactly when a day of the
      400-year cycle matches and none of the window from 2000 does. */
  lemma RefusedIff(parts: seq<string>, sets: seq<set<int>>)
    requires FieldsParse(parts, sets)
    ensures var s := Assemble(parts, sets);
      IsNext(s, Y2000, None) && FiresEver(s) <==> SilentFrom2000(s) && SomeDayOfCycle(s)
  {
    AssembledReady(parts, sets);
    RefusedThoughFires(Assemble(parts, sets));
  }

  // ── the documented grammar ──────────

  /** A list item as the package comment writes the dialect. */
  datatype Item = Star | StarStep(step: nat) | One(n: nat) | Span(a: nat, b: nat) | SpanStep(a: nat, b: nat, step: nat)

  predicate ValidItem(i: Item, f: FieldSpec) {
    match i
    case Star => true
    case StarStep(n) => 1 <= n <= f.max
    case One(n) => f.min <= n <= f.max
    case Span(a, b) => f.min <= a <= b <= f.max
    case SpanStep(a, b, n) => f.min <= a <= b <= f.max && 1 <= n <= f.max
  }

  function Denotes(i: Item, f: FieldSpec): set<int>
    requires ValidItem(i, f)
  {
    match i
    case Star => Stepped(f.min, f.max, 1)
    case StarStep(n) => Stepped(f.min, f.max, n)
    case One(n) => {n as int}
    case Span(a, b) => Stepped(a, b, 1)
    case SpanStep(a, b, n) => Stepped(a, b, n)
  }

  function Decimal(n: nat): string
    requires n < 100
  {
    var lo := ('0' as int + n % 10) as char;
    if n < 10 then [lo] else [('0' as int + n / 10) as char, lo]
  }

  function Written(i: Item, f: FieldSpec): string
    requires ValidItem(i, f) && f.max < 100
  {
    match i
    case Star => "*"
    case StarStep(n) => "*" + "/" + Decimal(n)
    case One(n) => Decimal(n)
    case Span(a, b) => Decimal(a) + "-" + Decimal(b)
    case SpanStep(a, b, n) => Decimal(a) + "-" + Decimal(b) + "/" + Decimal(n)
  }

  lemma DecimalReads(n: nat)
    requires n < 100
    ensures Number(Decimal(n)) == Some(n)
    ensures forall c :: c in Decimal(n) ==> T.IsDigit(c)
    ensures 1 <= |Decimal(n)|
  {}

  lemma RangeReads(a: nat, b: nat, f: FieldSpec)
    requires f.min <= a <= b <= f.max < 100
    ensures ParseRange(Decimal(a) + "-" + Decimal(b), f) == Some((a as int, b as int))
    ensures '/' !in Decimal(a) + "-" + Decimal(b)
  {
    DecimalReads(a);
    DecimalReads(b);
    var t := Decimal(a) + ['-'] + Decimal(b);
    T.IndexIs(Decimal(a), '-', Decimal(b));
    assert t[..|Decimal(a)|] == Decimal(a) && t[|Decimal(a)| + 1..] == Decimal(b);
    assert t[|Decimal(a)|] == '-';
  }

  lemma StepReads(range: string, n: nat, f: FieldSpec)
    requires '/' !in range && 1 <= n <= f.max < 100 && (range == "*" || '-' in range) && ParseRange(range, f).Some?
    ensures var (lo, hi) := ParseRange(range, f).value;
      ParseItem(range + "/" + Decimal(n), f) == Some(Stepped(lo, hi, n))
  {
    DecimalReads(n);
    var item := range + ['/'] + Decimal(n);
    T.IndexIs(range, '/', Decimal(n));
    assert item[..|range|] == range && item[|range| + 1..] == Decimal(n);
  }

  lemma StarRange(f: FieldSpec)
    ensures ParseRange("*", f) == Some((f.min, f.max))
  {}

  lemma OneReads(n: nat, f: FieldSpec)
    requires f.min <= n <= f.max < 100
    ensures ParseItem(Decimal(n), f) == Some({n as int}) && ',' !in Decimal(n)
  {
    DecimalReads(n);
    var t := Decimal(n);
    T.IndexIs(t, '/', "");
    T.IndexIs(t, '-', "");
    assert t[..|t|] == t && t[0] != '*';
    assert Stepped(n, n, 1) == {n as int};
  }

  /** Every item of the documented dialect parses to what it denotes. */
  lemma ItemRoundTrip(i: Item, f: FieldSpec)
    requires ValidItem(i, f) && 0 <= f.min <= f.max < 100
    ensures ParseItem(Written(i, f), f) == Some(Denotes(i, f))
    ensures ',' !in Written(i, f)
  {
    hide Stepped, Decimal, Number, ParseRange;
    match i
    case Star =>
      T.IndexIs("*", '/', "");
      StarRange(f);
      assert "*"[..1] == "*";
    case StarStep(n) => StarRange(f); StepReads("*", n, f); DecimalReads(n);
    case One(n) => OneReads(n, f);
    case Span(a, b) =>
      RangeReads(a, b, f);
      var t := Decimal(a) + "-" + Decimal(b);
      T.IndexIs(t, '/', "");
      assert t[..|t|] == t;
      DecimalReads(a);
      DecimalReads(b);
    case SpanStep(a, b, n) =>
      RangeReads(a, b, f);
      var t := Decimal(a) + "-" + Decimal(b);
      assert t[|Decimal(a)|] == '-';
      StepReads(t, n, f);
      DecimalReads(a);
      DecimalReads(b);
      DecimalReads(n);
  }

  // A number as one or two digits.
  predicate Spelled(s: string, n: nat) { n < 100 && (s == Decimal(n) || (n < 10 && s == "0" + Decimal(n))) }

  /** Every spelling of an item. */
  ghost predicate Spells(text: string, i: Item) {
    match i
    case Star => text == "*"
    case StarStep(n) => exists d :: Spelled(d, n) && text == "*/" + d
    case One(n) => Spelled(text, n)
    case Span(a, b) => exists c, d :: Spelled(c, a) && Spelled(d, b) && text == c + "-" + d
    case SpanStep(a, b, n) =>
      exists c, d, e :: Spelled(c, a) && Spelled(d, b) && Spelled(e, n) && text == c + "-" + d + "/" + e
  }

  lemma SpelledReads(s: string, n: nat)
    requires Spelled(s, n)
    ensures Number(s) == Some(n) && s != "" && forall c :: c in s ==> T.IsDigit(c)
  {}

  lemma NumberSpelled(s: string)
    requires Number(s).Some?
    ensures Number(s).value >= 0 && Spelled(s, Number(s).value)
  {
    var n := Number(s).value;
    assert T.IsDigit(s[0]);
    if |s| == 1 {
      assert s == Decimal(n);
    } else {
      assert T.IsDigit(s[1]);
      if n < 10 { assert s == "0" + Decimal(n); } else { assert s == Decimal(n); }
    }
  }

  // The bounds a range gives, in its two forms.
  ghost predicate RangeSpells(text: string, a: nat, b: nat) {
    (a == b && Spelled(text, a)) || exists c, d :: Spelled(c, a) && Spelled(d, b) && text == c + "-" + d
  }

  lemma RangeIff(text: string, f: FieldSpec, a: nat, b: nat)
    requires text != "*" && 0 <= f.min
    ensures ParseRange(text, f) == Some((a as int, b as int))
       <==> f.min <= a <= b <= f.max && RangeSpells(text, a, b)
  {
    if ParseRange(text, f) == Some((a as int, b as int)) {
      var dash := T.Index(text, '-');
      NumberSpelled(text[..dash]);
      if dash < |text| {
        NumberSpelled(text[dash + 1..]);
        assert text == text[..dash] + "-" + text[dash + 1..];
      } else {
        assert text[..dash] == text;
      }
    }
    if f.min <= a <= b <= f.max && RangeSpells(text, a, b) { RangeRead(text, f, a, b); }
  }

  lemma RangeRead(text: string, f: FieldSpec, a: nat, b: nat)
    requires f.min <= a <= b <= f.max && RangeSpells(text, a, b)
    ensures ParseRange(text, f) == Some((a as int, b as int)) && '/' !in text && text != "" && text != "*"
  {
    hide Spelled;
    if a == b && Spelled(text, a) {
      SpelledReads(text, a);
      T.IndexIs(text, '-', "");
      assert text[..|text|] == text;
    } else {
      var c, d :| Spelled(c, a) && Spelled(d, b) && text == c + "-" + d;
      SpelledReads(c, a);
      SpelledReads(d, b);
      T.IndexIs(c, '-', d);
      assert text == c + ['-'] + d;
      assert text[..|c|] == c && text[|c| + 1..] == d && text[0] == c[0];
    }
  }

  function SteppedRange(range: string, f: FieldSpec, step: int): Option<set<int>>
    requires step > 0
  {
    match ParseRange(range, f) case None => None case Some((lo, hi)) => Some(Stepped(lo, hi, step))
  }

  /** An item without a step, and one with. */
  lemma ItemShape(text: string, f: FieldSpec)
    ensures var slash := T.Index(text, '/');
      && (text == "" ==> ParseItem(text, f).None?)
      && (text != "" && slash == |text| ==> ParseItem(text, f) == SteppedRange(text, f, 1))
      && (text != "" && slash < |text| ==>
            var range, step := text[..slash], Number(text[slash + 1..]);
            var bad := step.None? || step.value < 1 || step.value > f.max || (range != "*" && '-' !in range);
            ParseItem(text, f) == if bad then None else SteppedRange(range, f, step.value))
  {
    var slash := T.Index(text, '/');
    if slash == |text| { assert text[..slash] == text; }
  }

  // text is read as item i.
  ghost predicate Reads(text: string, f: FieldSpec, i: Item) { ValidItem(i, f) && Spells(text, i) }

  lemma ItemFrom(text: string, f: FieldSpec) returns (i: Item)
    requires ParseItem(text, f).Some? && 0 <= f.min <= f.max < 100
    ensures Reads(text, f, i) && ParseItem(text, f) == Some(Denotes(i, f))
  {
    ItemShape(text, f);
    hide ParseItem, Spelled, Stepped;
    var slash := T.Index(text, '/');
    var range := text[..slash];
    if slash == |text| {
      assert range == text;
      if text == "*" {
        i := Star;
      } else {
        var (lo, hi) := ParseRange(text, f).value;
        RangeIff(text, f, lo, hi);
        i := if Spelled(text, lo) && lo == hi then One(lo) else Span(lo, hi);
        OneStep(lo);
      }
    } else {
      var n := Number(text[slash + 1..]).value;
      NumberSpelled(text[slash + 1..]);
      assert text == range + "/" + text[slash + 1..];
      if range == "*" {
        i := StarStep(n);
        assert text == "*/" + text[slash + 1..];
      } else {
        var (lo, hi) := ParseRange(range, f).value;
        RangeIff(range, f, lo, hi);
        NoDash(range, lo);
        var c, d :| Spelled(c, lo) && Spelled(d, hi) && range == c + "-" + d;
        i := SpanStep(lo, hi, n);
        assert Spells(text, i);
      }
    }
  }

  lemma OneStep(n: int)
    ensures Stepped(n, n, 1) == {n}
  {}

  lemma NoDash(text: string, n: nat)
    requires '-' in text
    ensures !Spelled(text, n)
  {
    if Spelled(text, n) { SpelledReads(text, n); }
  }

  lemma ItemTo(text: string, f: FieldSpec, i: Item)
    requires Reads(text, f, i) && 0 <= f.min <= f.max < 100
    ensures ParseItem(text, f) == Some(Denotes(i, f))
  {
    ItemShape(text, f);
    hide ParseItem, Spelled, Stepped, ParseRange;
    StarRange(f);
    match i
    case Star => T.IndexIs("*", '/', ""); assert text[..1] == text;
    case StarStep(n) =>
      var e :| Spelled(e, n) && text == "*/" + e;
      StepTo(text, "*", e, n);
    case One(n) =>
      RangeRead(text, f, n, n);
      T.IndexIs(text, '/', "");
      OneStep(n);
    case Span(a, b) =>
      RangeRead(text, f, a, b);
      T.IndexIs(text, '/', "");
    case SpanStep(a, b, n) =>
      var c, d, e :| Spelled(c, a) && Spelled(d, b) && Spelled(e, n) && text == c + "-" + d + "/" + e;
      RangeRead(c + "-" + d, f, a, b);
      assert (c + "-" + d)[|c|] == '-';
      StepTo(text, c + "-" + d, e, n);
  }

  lemma StepTo(text: string, range: string, e: string, n: nat)
    requires Spelled(e, n) && text == range + "/" + e && '/' !in range
    ensures T.Index(text, '/') == |range| < |text| && text[..|range|] == range && Number(text[|range| + 1..]) == Some(n)
  {
    SpelledReads(e, n);
    T.IndexIs(range, '/', e);
    assert text == range + ['/'] + e && text[|range| + 1..] == e;
  }

  /** MAIN: an item parses exactly if it is spelled in the documented dialect, leading zeros
      allowed, and then to what it denotes. */
  lemma ItemIff(text: string, f: FieldSpec, bits: set<int>)
    requires 0 <= f.min <= f.max < 100
    ensures ParseItem(text, f) == Some(bits) <==> exists i :: Reads(text, f, i) && bits == Denotes(i, f)
  {
    hide ParseItem, Spells, Stepped;
    if ParseItem(text, f) == Some(bits) { var i := ItemFrom(text, f); }
    if i :| Reads(text, f, i) && bits == Denotes(i, f) { ItemTo(text, f, i); }
  }

  /** A field parses exactly if each of its items does, to all their values. */
  lemma {:induction false} FieldIff(items: seq<string>, f: FieldSpec)
    ensures ParseItems(items, f).Some? <==> forall i :: 0 <= i < |items| ==> ParseItem(items[i], f).Some?
    ensures ParseItems(items, f).Some? ==> forall v :: v in ParseItems(items, f).value <==> SomeItem(items, f, v)
  {
    hide ParseItem;
    if items != [] {
      FieldIff(items[1..], f);
      assert forall i :: 0 < i < |items| ==> items[i] == items[1..][i - 1];
      if ParseItems(items, f).Some? {
        var all := ParseItems(items, f).value;
        forall v | v in all ensures SomeItem(items, f, v) {
          if v in ParseItem(items[0], f).value {
          } else {
            var i :| 0 <= i < |items[1..]| && ParseItem(items[1..][i], f).Some?
              && v in ParseItem(items[1..][i], f).value;
            assert v in ParseItem(items[i + 1], f).value;
          }
        }
      }
    }
  }

  ghost predicate SomeItem(items: seq<string>, f: FieldSpec, v: int) {
    exists i :: 0 <= i < |items| && ParseItem(items[i], f).Some? && v in ParseItem(items[i], f).value
  }

  /** A star is the whole range of its field. */
  lemma StarIsAll(i: nat, v: int)
    requires i < 5
    ensures ParseField("*", FIELDS[i]).Some?
    ensures v in ParseField("*", FIELDS[i]).value <==>
      match i
      case 0 => 0 <= v <= 59
      case 1 => 0 <= v <= 23
      case 2 => 1 <= v <= 31
      case 3 => 1 <= v <= 12
      case _ => 0 <= v <= 7
  {
    hide ParseField, Stepped;
    var f := FIELDS[i];
    OneItem(Star, f);
    SteppedMeans(f.min, f.max, 1, v);
    if f.min <= v <= f.max { assert v == Nth(f.min, 1, v - f.min); }
  }

  function WrittenAll(items: seq<Item>, f: FieldSpec): seq<string>
    requires f.max < 100 && forall i :: i in items ==> ValidItem(i, f)
  {
    if items == [] then [] else [Written(items[0], f)] + WrittenAll(items[1..], f)
  }

  function DenotesAll(items: seq<Item>, f: FieldSpec): set<int>
    requires forall i :: i in items ==> ValidItem(i, f)
  {
    if items == [] then {} else Denotes(items[0], f) + DenotesAll(items[1..], f)
  }

  lemma {:induction false} ItemsRoundTrip(items: seq<Item>, f: FieldSpec)
    requires 0 <= f.min <= f.max < 100 && forall i :: i in items ==> ValidItem(i, f)
    ensures ParseItems(WrittenAll(items, f), f) == Some(DenotesAll(items, f))
    ensures |WrittenAll(items, f)| == |items| && forall w :: w in WrittenAll(items, f) ==> ',' !in w
  {
    if items != [] {
      ItemRoundTrip(items[0], f);
      ItemsRoundTrip(items[1..], f);
    }
  }

  /** A field written in the documented dialect parses to the union of its items. */
  lemma FieldRoundTrip(items: seq<Item>, f: FieldSpec)
    requires items != [] && 0 <= f.min <= f.max < 100 && forall i :: i in items ==> ValidItem(i, f)
    ensures ParseField(T.Join(WrittenAll(items, f), ','), f) == Some(DenotesAll(items, f))
  {
    ItemsRoundTrip(items, f);
    T.SplitJoin(WrittenAll(items, f), ',');
  }

  // ── a text that fires and is refused ──────────

  lemma {:induction false} FieldsCons(w: string, rest: string)
    requires w != "" && forall i :: 0 <= i < |w| ==> !T.IsSpace(w[i])
    ensures T.Fields(w + " " + rest) == [w] + T.Fields(rest)
    ensures T.Fields(w) == [w]
  {
    assert T.IsSpace(' ');
    hide T.IsSpace;
    var s := w + " " + rest;
    T.WordIs(w, " " + rest);
    T.WordIs(w, "");
    assert s == w + (" " + rest) && s[..|w|] == w && s[|w|..] == " " + rest;
    assert (" " + rest)[1..] == rest;
    assert w + "" == w && w[..|w|] == w && w[|w|..] == "";
  }

  const STAR_MONDAY := "0 0 */30 2 1"
  const STAR_PARTS: seq<string> := ["0", "0", "*/30", "2", "1"]
  const STAR_SETS: seq<set<int>> := [{0}, {0}, {1, 31}, {2}, {1}]

  lemma StarMondayFields()
    ensures T.Fields(STAR_MONDAY) == STAR_PARTS
  {
    hide T.Fields;
    FieldsCons("2", "1");
    FieldsCons("1", "");
    FieldsCons("*/30", "2 1");
    FieldsCons("0", "*/30 2 1");
    FieldsCons("0", "0 */30 2 1");
    assert STAR_MONDAY == "0" + " " + "0 */30 2 1";
    assert "0 */30 2 1" == "0" + " " + "*/30 2 1";
    assert "*/30 2 1" == "*/30" + " " + "2 1";
    assert "2 1" == "2" + " " + "1";
  }

  lemma OneItem(i: Item, f: FieldSpec)
    requires ValidItem(i, f) && 0 <= f.min <= f.max < 100
    ensures ParseField(Written(i, f), f) == Some(Denotes(i, f))
  {
    hide ParseField, Written, Denotes;
    FieldRoundTrip([i], f);
    assert [i][1..] == [];
    assert WrittenAll([i], f) == [Written(i, f)] && T.Join([Written(i, f)], ',') == Written(i, f);
    assert DenotesAll([i], f) == Denotes(i, f) + {} == Denotes(i, f);
  }

  lemma OnlyZero()
    ensures Ascending({0}, 0) == [0] && Reversed([0]) == [0]
  {
    NoneAbove({0}, 1);
  }

  lemma {:induction false} NoneAbove(bits: set<int>, m: nat)
    requires forall x :: x in bits ==> x < m
    ensures Ascending(bits, m) == []
    decreases 60 - m
  {
    if m < 60 { NoneAbove(bits, m + 1); }
  }

  lemma OneDigit(n: nat, f: FieldSpec)
    requires n < 10 && 0 <= f.min <= n <= f.max < 100
    ensures ParseField([('0' as int + n) as char], f) == Some({n as int})
  {
    hide ParseField;
    OneItem(One(n), f);
    assert Decimal(n) == [('0' as int + n) as char];
  }

  lemma StarThirty()
    ensures ParseField("*/30", FIELDS[2]) == Some({1, 31})
  {
    hide ParseField;
    OneItem(StarStep(30), FIELDS[2]);
    assert Written(StarStep(30), FIELDS[2]) == "*" + "/" + Decimal(30) == "*/30";
    assert Stepped(61, 31, 30) == {} && Stepped(31, 31, 30) == {31} && Stepped(1, 31, 30) == {1, 31};
  }

  lemma StarMondayParses()
    ensures FieldsParse(STAR_PARTS, STAR_SETS) && Assemble(STAR_PARTS, STAR_SETS) == StarMonday()
  {
    hide ParseField, Ascending, Reversed;
    OneDigit(0, FIELDS[0]);
    OneDigit(0, FIELDS[1]);
    StarThirty();
    OneDigit(2, FIELDS[3]);
    OneDigit(1, FIELDS[4]);
    OnlyZero();
  }

  /** Parse reads this text to the schedule above: it fires and is refused. */
  lemma StarMondayTextRefused()
    ensures T.ByteLen(STAR_MONDAY) <= MAX_LENGTH && T.Fields(STAR_MONDAY) == STAR_PARTS
    ensures FieldsParse(STAR_PARTS, STAR_SETS)
    ensures FiresEver(Assemble(STAR_PARTS, STAR_SETS)) && IsNext(Assemble(STAR_PARTS, STAR_SETS), Y2000, None)
  {
    hide FieldsParse, Assemble, FiresEver, IsNext;
    StarMondayFields();
    StarMondayParses();
    StarMondayRefused();
    ShortText(STAR_MONDAY);
  }

  lemma {:induction false} ShortText(s: string)
    ensures T.ByteLen(s) <= 4 * |s|
  {
    if s != "" { ShortText(s[1..]); }
  }
}
