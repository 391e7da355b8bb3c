/** When the parser accepts, node by node. */
module SchemaAccept {
  import opened JsonValue
  import opened SchemaAst
  import opened SchemaRun

  ghost predicate AllPass(e: Engine, cs: seq<Check>, input: Input) {
    forall c :: c in cs ==> CheckPasses(e, c, input)
  }

  /** From a clean start, the checks raise an issue exactly when one of them fails. */
  lemma {:induction false} ChecksAccept(e: Engine, cs: seq<Check>, input: Input, r: Result)
    requires r.issues == [] && !r.aborted
    ensures RunChecks(e, cs, input, r, false).issues == [] <==> AllPass(e, cs, input)
  {
    if cs != [] {
      assert forall c :: c in cs <==> c == cs[0] || c in cs[1..];
      var r1 := CheckOnce(e, cs[0], input, r, false);
      if CheckPasses(e, cs[0], input) {
        assert r1 == r;
        ChecksAccept(e, cs[1..], input, r);
      } else {
        assert |r1.issues| == 1;
      }
    }
  }

  /** Only a failed pipe sets aborted, and it leaves its issues in place. */
  lemma {:induction false} CleanNotAborted(e: Engine, s: Schema, input: Input)
    ensures Run(e, s, input).issues == [] ==> !Run(e, s, input).aborted
    ensures ParseType(e, s, input).issues == [] ==> !ParseType(e, s, input).aborted
    decreases s
  {
    hide RunElems, RunMembers, RunChecks, SameLiteral, CopyUnknown, Known;
    match s.node
    case KOptional(i) => CleanNotAborted(e, i, input);
    case KNullable(i) => CleanNotAborted(e, i, input);
    case KDefault(i, _) => CleanNotAborted(e, i, input);
    case KPipe(i, _) => CleanNotAborted(e, i, input);
    case KUnion(os) => CleanOptions(e, os, input, []);
    case KObject(fs, catchall, refine) =>
      if input.Present? && input.v.Object? { FieldsNotAborted(e, fs, input.v.members, Ok(Object([]))); }
    case _ =>
  }

  lemma {:induction false} CleanOptions(e: Engine, os: seq<Schema>, input: Input, failed: seq<Result>)
    requires forall r :: r in failed ==> r.issues != []
    ensures var r := RunOptions(e, os, input, failed); r.issues == [] ==> !r.aborted
    decreases os
  {
    if os != [] {
      CleanNotAborted(e, os[0], input);
      if Run(e, os[0], input).issues != [] {
        CleanOptions(e, os[1..], input, failed + [Run(e, os[0], input)]);
      }
    } else {
      assert forall r :: r in NotAborted(failed) ==> r in failed;
    }
  }

  lemma {:induction false} FieldsNotAborted(e: Engine, fs: seq<Field>, ms: seq<Member>, r: Result)
    requires r.value.Object?
    ensures RunFields(e, fs, ms, r).aborted == r.aborted
    decreases fs
  {
    if fs != [] {
      var input := Lookup(ms, fs[0].name);
      FieldsNotAborted(e, fs[1..], ms, FieldStep(fs[0], input, Run(e, fs[0].schema, input), r));
    }
  }

  lemma RunAccepts(e: Engine, s: Schema, input: Input)
    ensures Accepts(e, s, input) <==> ParseType(e, s, input).issues == [] && AllPass(e, s.checks, input)
  {
    var r := ParseType(e, s, input);
    CleanNotAborted(e, s, input);
    if r.issues == [] {
      ChecksAccept(e, s.checks, input, r);
    }
  }

  // ── sequences ──────────

  lemma {:induction false} ElemsAccept(e: Engine, elem: Schema, vs: seq<Json>)
    ensures RunElems(e, elem, vs).1 == [] <==> forall i :: 0 <= i < |vs| ==> Accepts(e, elem, Present(vs[i]))
  {
    if vs != [] {
      ElemsAccept(e, elem, vs[1..]);
      assert forall i :: 0 < i < |vs| ==> vs[i] == vs[1..][i - 1];
    }
  }

  lemma {:induction false} MembersAccept(e: Engine, elem: Schema, ms: seq<Member>, out: seq<Member>, issues: seq<Issue>)
    ensures RunMembers(e, elem, ms, out, issues).1 == []
       <==> issues == [] && forall i :: 0 <= i < |ms| ==> Accepts(e, elem, Present(ms[i].value))
    decreases |ms|
  {
    if ms != [] {
      var r := Run(e, elem, Present(ms[0].value));
      MembersAccept(e, elem, ms[1..], if r.issues != [] then out else Put(out, ms[0].key, r.value), issues + r.issues);
      assert r.issues == [] ==> issues + r.issues == issues;
      assert forall i :: 0 < i < |ms| ==> ms[i] == ms[1..][i - 1];
    }
  }

  /** A union accepts exactly what one of its options accepts. */
  lemma {:induction false} OptionsAccept(e: Engine, os: seq<Schema>, input: Input, failed: seq<Result>)
    requires forall r :: r in failed ==> r.issues != []
    ensures RunOptions(e, os, input, failed).issues == [] <==> exists i :: 0 <= i < |os| && Accepts(e, os[i], input)
    decreases os
  {
    if os == [] {
      assert forall r :: r in NotAborted(failed) ==> r in failed;
    } else {
      var r := Run(e, os[0], input);
      if r.issues == [] {
        assert Accepts(e, os[0], input);
      } else {
        OptionsAccept(e, os[1..], input, failed + [r]);
        assert forall i :: 0 < i < |os| ==> os[i] == os[1..][i - 1];
        if i :| 0 <= i < |os| && Accepts(e, os[i], input) {
          assert Accepts(e, os[1..][i - 1], input);
        }
      }
    }
  }

  /** A field passes when its value is accepted, or when it may be left out. */
  ghost predicate FieldOk(e: Engine, f: Field, ms: seq<Member>) {
    var input := Lookup(ms, f.name);
    || Accepts(e, f.schema, input)
    || (input.Absent? && Optin(f.schema) != OptNone && OptoutOptional(f.schema))
  }

  lemma {:induction false} FieldsAccept(e: Engine, fs: seq<Field>, ms: seq<Member>, r: Result)
    requires r.value.Object?
    ensures RunFields(e, fs, ms, r).issues == []
       <==> r.issues == [] && forall i :: 0 <= i < |fs| ==> FieldOk(e, fs[i], ms)
    decreases fs
  {
    if fs != [] {
      var input := Lookup(ms, fs[0].name);
      var r1 := FieldStep(fs[0], input, Run(e, fs[0].schema, input), r);
      assert r1.issues == [] <==> r.issues == [] && FieldOk(e, fs[0], ms);
      FieldsAccept(e, fs[1..], ms, r1);
      assert forall i :: 0 < i < |fs| ==> fs[i] == fs[1..][i - 1];
    }
  }

  predicate AllKnown(fs: seq<Field>, ms: seq<Member>) {
    forall i :: 0 <= i < |ms| ==> Known(fs, ms[i].key)
  }

  /** runObject accepts exactly when every field passes, strictness holds and
      superRefine, given the finished value, adds no issue. */
  lemma ObjectAccepts(e: Engine, s: Schema, v: Json)
    requires s.node.KObject?
    ensures ParseType(e, s, Present(v)).issues == [] <==>
      && v.Object?
      && (forall i :: 0 <= i < |s.node.fields| ==> FieldOk(e, s.node.fields[i], v.members))
      && (s.node.catchall == Strict ==> AllKnown(s.node.fields, v.members))
      && (s.node.superRefine.Some? ==> s.node.superRefine.value(ParseType(e, s, Present(v)).value) == 0)
  {
    hide RunFields, CopyUnknown, FieldOk, RunElems, RunMembers;
    if v.Object? {
      FieldsAccept(e, s.node.fields, v.members, Ok(Object([])));
      FieldsNotAborted(e, s.node.fields, v.members, Ok(Object([])));
    }
  }

  // ── optionality ──────────

  lemma {:induction false} OptinUnion(os: seq<Schema>, result: Opt)
    ensures OptinAny(os, result) == OptNone
       <==> result == OptNone && forall i :: 0 <= i < |os| ==> Optin(os[i]) == OptNone
    decreases os
  {
    if os != [] {
      assert forall i :: 0 < i < |os| ==> os[i] == os[1..][i - 1];
      match Optin(os[0])
      case OptDefaulted => assert os[0] == os[0];
      case OptOptional => OptinUnion(os[1..], OptOptional);
      case OptNone => OptinUnion(os[1..], result);
    }
  }

  /** A schema whose optin is none rejects an absent field, checks or no checks. */
  lemma {:induction false} OptinNoneRejects(e: Engine, s: Schema)
    requires Optin(s) == OptNone
    ensures !Accepts(e, s, Absent)
    decreases s
  {
    RunAccepts(e, s, Absent);
    match s.node
    case KNullable(i) => OptinNoneRejects(e, i);
    case KPipe(i, _) => OptinNoneRejects(e, i);
    case KUnion(os) =>
      OptinUnion(os, OptNone);
      forall i | 0 <= i < |os| ensures !Accepts(e, os[i], Absent) { OptinNoneRejects(e, os[i]); }
      OptionsAccept(e, os, Absent, []);
    case _ =>
  }

  // Nodes an absent field can reach without being rejected by type.
  predicate Lets(s: Schema) {
    s.node.KOptional? || s.node.KDefault? || s.node.KNullable? || s.node.KPipe? || s.node.KUnion? || s.node.KUnknown?
  }

  /** No check sits on a wrapper, a union or unknown. */
  predicate BareWrappers(s: Schema)
    decreases s
  {
    (Lets(s) ==> s.checks == []) &&
    match s.node
    case KOptional(i) => BareWrappers(i)
    case KNullable(i) => BareWrappers(i)
    case KDefault(i, _) => BareWrappers(i)
    case KPipe(i, _) => BareWrappers(i)
    case KUnion(os) => forall i :: 0 <= i < |os| ==> BareWrappers(os[i])
    case _ => true
  }

  /** optin is none exactly when an absent field is rejected. */
  lemma {:induction false} OptinExact(e: Engine, s: Schema)
    requires BareWrappers(s)
    ensures Accepts(e, s, Absent) <==> Optin(s) != OptNone
    decreases s
  {
    RunAccepts(e, s, Absent);
    match s.node
    case KNullable(i) => OptinExact(e, i);
    case KPipe(i, _) => OptinExact(e, i);
    case KUnion(os) =>
      OptinUnion(os, OptNone);
      forall i | 0 <= i < |os| ensures Accepts(e, os[i], Absent) <==> Optin(os[i]) != OptNone {
        OptinExact(e, os[i]);
      }
      OptionsAccept(e, os, Absent, []);
    case _ =>
  }
}
