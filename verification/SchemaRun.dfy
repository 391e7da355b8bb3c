/** The parser: Schema.run, parseType, runChecks, runValueCheck and runObject. */
module SchemaRun {
  import opened JsonValue
  import opened SchemaAst

  // A type mismatch leaves `continue` unset, the int check clears it, every
  // other issue sets it.
  datatype Issue = TypeIssue | SoftIssue | AbortIssue

  datatype Result = Result(value: Json, issues: seq<Issue>, aborted: bool)

  // A value, or an absent field (JavaScript undefined).
  datatype Input = Absent | Present(v: Json)
  {
    // Absent reaches the checks as a Go nil, which is JSON null.
    function Raw(): Json { if Present? then v else Null }
  }

  function Ok(v: Json): Result { Result(v, [], false) }
  function Fail(): Result { Result(Null, [TypeIssue], false) }
  function Add(r: Result, i: Issue): Result { r.(issues := r.issues + [i]) }

  predicate IsAborted(r: Result, from: nat) {
    r.aborted || exists i :: from <= i < |r.issues| && r.issues[i] != SoftIssue
  }

  predicate ExplicitlyAborted(r: Result) {
    r.aborted || AbortIssue in r.issues
  }

  // ── checks ──────────

  function LengthOf(e: Engine, input: Input): Option<nat> {
    match input.Raw()
    case String(s) => Some(e.runes(s))
    case Array(es) => Some(|es|)
    case _ => None
  }

  predicate LengthPasses(e: Engine, c: Check, input: Input)
    requires c.IsLength()
  {
    match LengthOf(e, input)
    case None => true
    case Some(n) =>
      var size := n as real;
      match c
      case MinLen(b) => size >= b
      case MaxLen(b) => size <= b
      case LenEq(b) => size == b
  }

  // v.(string) and v.(float64) with their zero values on a mismatch.
  function StringOf(v: Json): Str { if v.String? then v.s else [] }
  function NumberOf(v: Json): Num { if v.Number? then v.n else Zero(false) }

  predicate Above(n: Num, b: real) { if n.Inf? then !n.neg else Val(n) > b }
  predicate AtLeast(n: Num, b: real) { if n.Inf? then !n.neg else Val(n) >= b }
  predicate AtMost(n: Num, b: real) { if n.Inf? then n.neg else Val(n) <= b }

  // n == math.Trunc(n)
  predicate Integral(n: Num) { n.Inf? || Val(n).Floor as real == Val(n) }

  /** runValueCheck: the issue a value check adds, if any. */
  function ValueIssue(e: Engine, c: Check, v: Json): Option<Issue>
    requires !c.IsLength()
  {
    var n := NumberOf(v);
    match c
    case Pattern(_, src) => if e.matches(src, StringOf(v)) then None else Some(SoftIssue)
    case Url => if e.isURL(StringOf(v)) then None else Some(SoftIssue)
    case Refine(f) => if f(v) then None else Some(SoftIssue)
    case Int =>
      if !Integral(n) then Some(AbortIssue)
      else if Above(n, MAX_SAFE) || !AtLeast(n, -MAX_SAFE) then Some(SoftIssue)
      else None
    case Gt(b) => if Above(n, b) then None else Some(SoftIssue)
    case Gte(b) => if AtLeast(n, b) then None else Some(SoftIssue)
    case Lte(b) => if AtMost(n, b) then None else Some(SoftIssue)
  }

  predicate CheckPasses(e: Engine, c: Check, input: Input) {
    if c.IsLength() then LengthPasses(e, c, input) else ValueIssue(e, c, input.Raw()).None?
  }

  /** One turn of the check loop. */
  function CheckOnce(e: Engine, c: Check, input: Input, r: Result, aborted: bool): (r': Result)
    ensures r.issues <= r'.issues && r'.value == r.value && r'.aborted == r.aborted
  {
    if c.IsLength() then
      if ExplicitlyAborted(r) || LengthPasses(e, c, input) then r else Add(r, SoftIssue)
    else if aborted then r
    else match ValueIssue(e, c, input.Raw())
      case None => r
      case Some(i) => Add(r, i)
  }

  function RunChecks(e: Engine, cs: seq<Check>, input: Input, r: Result, aborted: bool): (r': Result)
    ensures r.issues <= r'.issues && r'.value == r.value && r'.aborted == r.aborted
  {
    if cs == [] then r
    else
      var r1 := CheckOnce(e, cs[0], input, r, aborted);
      RunChecks(e, cs[1..], input, r1,
                aborted || (|r1.issues| > |r.issues| && IsAborted(r1, |r.issues|)))
  }

  /** runChecks as the source runs it, appending to r.issues in a loop. */
  method RunChecksLoop(e: Engine, cs: seq<Check>, input: Input, start: Result) returns (r: Result)
    ensures r == RunChecks(e, cs, input, start, IsAborted(start, 0))
  {
    r := start;
    var aborted := IsAborted(r, 0);
    for i := 0 to |cs|
      invariant RunChecks(e, cs, input, start, IsAborted(start, 0)) == RunChecks(e, cs[i..], input, r, aborted)
    {
      var from := |r.issues|;
      var c := cs[i];
      assert cs[i..][0] == c && cs[i..][1..] == cs[i + 1..];
      ghost var before := r;
      if c.IsLength() {
        if !ExplicitlyAborted(r) {
          match LengthOf(e, input)
          case None =>
          case Some(n) =>
            var size := n as real;
            if c.MinLen? && size < c.n {
              r := Add(r, SoftIssue);
            } else if c.MaxLen? && size > c.n {
              r := Add(r, SoftIssue);
            } else if c.LenEq? && size != c.n {
              r := Add(r, SoftIssue);
            }
        }
      } else if !aborted {
        var issue := ValueIssue(e, c, input.Raw());
        if issue.Some? {
          r := Add(r, issue.value);
        }
      }
      assert r == CheckOnce(e, c, input, before, aborted);
      if !aborted && |r.issues| > from {
        aborted := IsAborted(r, from);
      }
    }
    assert cs[|cs|..] == [];
  }

  // ── the type parsers ──────────

  // v == s.literal over primitives: numbers compare as doubles do.
  predicate SameLiteral(v: Json, lit: Json) {
    match (v, lit)
    case (Number(a), Number(b)) => if a.Inf? || b.Inf? then a == b else Val(a) == Val(b)
    case _ => Primitive(v) && v == lit
  }

  function Run(e: Engine, s: Schema, input: Input): Result
    decreases s, 1
  {
    var r := ParseType(e, s, input);
    if s.checks == [] then r
    else RunChecks(e, s.checks, input, r, IsAborted(r, 0))
  }

  function ParseType(e: Engine, s: Schema, input: Input): Result
    decreases s, 0
  {
    match s.node
    case KOptional(i) => if input.Absent? then Ok(Null) else Run(e, i, input)
    case KNullable(i) => if input == Present(Null) then Ok(Null) else Run(e, i, input)
    case KDefault(i, def) => if input.Absent? then Ok(def) else Run(e, i, input)
    case KPipe(i, f) =>
      var r := Run(e, i, input);
      if r.issues != [] then r.(aborted := true) else Ok(f(r.value))
    case KUnknown => Ok(input.Raw())
    case KNever => Fail()
    case KLiteral(lit) => if input.Present? && SameLiteral(input.v, lit) then Ok(input.v) else Fail()
    case KEnum(vs) =>
      if input.Present? && input.v.String? && input.v.s in vs then Ok(input.v) else Fail()
    case KBool => if input.Present? && input.v.Bool? then Ok(input.v) else Fail()
    case KNull => if input == Present(Null) then Ok(Null) else Fail()
    case KString => if input.Present? && input.v.String? then Ok(input.v) else Fail()
    case KNumber =>
      if input.Present? && input.v.Number? && !input.v.n.Inf? then Ok(input.v) else Fail()
    case KObject(fs, catchall, refine) =>
      if input.Present? && input.v.Object? then
        var r := RunFields(e, fs, input.v.members, Ok(Object([])));
        FinishObject(fs, catchall, refine, input.v.members, r)
      else Fail()
    case KArray(elem) =>
      if input.Present? && input.v.Array? then
        var rs := RunElems(e, elem, input.v.elems);
        Result(Array(rs.0), rs.1, false)
      else Fail()
    case KRecord(elem) =>
      if input.Present? && input.v.Object? then
        var rs := RunMembers(e, elem, input.v.members, [], []);
        Result(Object(rs.0), rs.1, false)
      else Fail()
    case KUnion(os) =>
      RunOptions(e, os, input, [])
  }

  function RunElems(e: Engine, elem: Schema, vs: seq<Json>): (rs: (seq<Json>, seq<Issue>))
    ensures |rs.0| == |vs|
    decreases elem, 2, |vs|
  {
    if vs == [] then ([], [])
    else
      var r := Run(e, elem, Present(vs[0]));
      var rest := RunElems(e, elem, vs[1..]);
      ([r.value] + rest.0, r.issues + rest.1)
  }

  function RunMembers(e: Engine, elem: Schema, ms: seq<Member>, out: seq<Member>, issues: seq<Issue>)
    : (seq<Member>, seq<Issue>)
    decreases elem, 2, |ms|
  {
    if ms == [] then (out, issues)
    else
      var r := Run(e, elem, Present(ms[0].value));
      if r.issues != [] then RunMembers(e, elem, ms[1..], out, issues + r.issues)
      else RunMembers(e, elem, ms[1..], Put(out, ms[0].key, r.value), issues)
  }

  // A union answers with its first clean option; failing that, with the only
  // option that did not abort.
  function RunOptions(e: Engine, os: seq<Schema>, input: Input, failed: seq<Result>): Result
    decreases os, 2
  {
    if os == [] then
      var soft := NotAborted(failed);
      if |soft| == 1 then soft[0] else Fail()
    else
      var r := Run(e, os[0], input);
      if r.issues == [] then r else RunOptions(e, os[1..], input, failed + [r])
  }

  function NotAborted(rs: seq<Result>): (out: seq<Result>)
    ensures forall r :: r in out ==> r in rs && !IsAborted(r, 0)
  {
    if rs == [] then []
    else (if IsAborted(rs[0], 0) then [] else [rs[0]]) + NotAborted(rs[1..])
  }

  function Lookup(ms: seq<Member>, key: Str): Input {
    match Find(ms, key) case None => Absent case Some(v) => Present(v)
  }

  function RunFields(e: Engine, fs: seq<Field>, ms: seq<Member>, r: Result): (r': Result)
    requires r.value.Object?
    ensures r'.value.Object?
    decreases fs, 2
  {
    if fs == [] then r
    else
      var input := Lookup(ms, fs[0].name);
      var fr := Run(e, fs[0].schema, input);
      RunFields(e, fs[1..], ms, FieldStep(fs[0], input, fr, r))
  }

  /** One turn of runObject's field loop, fr being the field's own result. */
  function FieldStep(f: Field, input: Input, fr: Result, r: Result): (r': Result)
    requires r.value.Object?
    ensures r'.value.Object? && r'.aborted == r.aborted
  {
    var optin := Optin(f.schema);
    var optOut := OptoutOptional(f.schema);
    if input.Absent? && optOut && optin == OptOptional then r
    else if fr.issues != [] && optin != OptNone && optOut && input.Absent? then r
    else
      var r1 := r.(issues := r.issues + fr.issues);
      if input.Absent? && optin == OptNone then r1
      else if fr.issues == [] then r1.(value := Object(Put(r.value.members, f.name, fr.value)))
      else r1
  }

  predicate Known(fs: seq<Field>, key: Str) {
    exists i :: 0 <= i < |fs| && fs[i].name == key
  }

  function CopyUnknown(fs: seq<Field>, ms: seq<Member>, out: seq<Member>): seq<Member> {
    if ms == [] then out
    else CopyUnknown(fs, ms[1..], if Known(fs, ms[0].key) then out else Put(out, ms[0].key, ms[0].value))
  }

  function FinishObject(fs: seq<Field>, catchall: Catch, refine: Option<Json -> nat>,
                        ms: seq<Member>, r: Result): Result
    requires r.value.Object?
  {
    var r1 := match catchall
      case Strip => r
      case Strict => if exists i :: 0 <= i < |ms| && !Known(fs, ms[i].key) then Add(r, SoftIssue) else r
      case Loose => r.(value := Object(CopyUnknown(fs, ms, r.value.members)));
    if refine.Some? && !IsAborted(r1, 0) then
      r1.(issues := r1.issues + seq(refine.value(r1.value), _ => SoftIssue))
    else r1
  }

  /** Schema.Parse: the parsed value, or None with the issues. */
  function Parse(e: Engine, s: Schema, v: Json): Option<Json> {
    var r := Run(e, s, Present(v));
    if r.issues == [] then Some(r.value) else None
  }

  predicate Accepts(e: Engine, s: Schema, input: Input) { Run(e, s, input).issues == [] }
}
