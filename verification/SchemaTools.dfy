/** The schemas the tools are made of: the ID argument, and structured content that
    is checked by the parser but sent as it is. */
module SchemaTools {
  import opened JsonValue
  import opened SchemaAst
  import opened SchemaRun
  import opened SchemaDoc
  import opened SchemaEmit
  import opened SchemaAccept
  import opened SchemaMeaning
  import opened SchemaTheorems
  import opened SchemaOutput
  import opened SchemaKeeps

  // ── the ID argument ──────────

  // idArg: a positive safe integer or a decimal string in range, then ToString.
  function IdArg(source: Str, inRange: Json -> bool, toString: Json -> Json): Schema {
    var whole := Schema([], [Int, Gt(0.0), Int], KNumber);
    var decimal := Schema([], [Pattern(NoFormat, source), Refine(inRange)], KString);
    Bare(KPipe(Bare(KUnion([whole, decimal])), toString))
  }

  predicate SafeInteger(n: Num) { !n.Inf? && Integral(n) && 0.0 < Val(n) <= MAX_SAFE }

  /** What ToString does to the two kinds of ID. */
  ghost predicate WritesIds(e: Engine, source: Str, toString: Json -> Json) {
    && (forall t :: toString(String(t)) == String(t))
    && (forall n :: SafeInteger(n) ==> toString(Number(n)).String? && e.matches(source, toString(Number(n)).s))
  }

  /** idArg is covered by the output theorem although ToString takes null, say, to a
      text its document refuses: of the values its document admits it makes such values. */
  lemma IdArgSteady(e: Engine, source: Str, inRange: Json -> bool, toString: Json -> Json)
    requires WritesIds(e, source, toString)
    ensures Steady(e, IdArg(source, inRange, toString))
  {
    hide Valid, KeywordOk, Emit;
    var z := IdArg(source, inRange, toString);
    var either := z.node.inner;
    forall x | Valid(e, Emit(either, Out), x) ensures Valid(e, Emit(either, Out), toString(x)) {
      IdDocument(e, source, inRange, toString, x);
      IdDocument(e, source, inRange, toString, toString(x));
    }
    assert forall i :: 0 <= i < 2 ==> Steady(e, either.node.options[i]);
    assert Steady(e, either);
  }

  lemma IdDocument(e: Engine, source: Str, inRange: Json -> bool, toString: Json -> Json, v: Json)
    ensures Valid(e, Emit(IdArg(source, inRange, toString).node.inner, Out), v) <==>
      (v.Number? && SafeInteger(v.n)) || (v.String? && e.matches(source, v.s))
  {
    hide Valid, KeywordOk, Emit;
    hide EmitString, EmitNumber, SafeInteger, EmitOptions;
    var either := IdArg(source, inRange, toString).node.inner;
    var os := either.node.options;
    EmitMeans(e, either, Out, v);
    AnyOfMeans(e, EmitOptions(os, Out), v);
    EmitMeans(e, os[0], Out, v);
    EmitMeans(e, os[1], Out, v);
    WholeMeans(e, os[0].checks, v);
    DecimalMeans(e, os[1].checks, source, inRange, v);
    assert EmitOptions(os, Out)[0] == Emit(os[0], Out) && EmitOptions(os, Out)[1] == Emit(os[1], Out);
  }

  lemma WholeMeans(e: Engine, cs: seq<Check>, v: Json)
    requires cs == [Int, Gt(0.0), Int]
    ensures Valid(e, Doc(EmitNumber(cs)), v) <==> v.Number? && SafeInteger(v.n)
  {
    hide Valid, KeywordOk, NarrowAll, EmitBounds;
    NumberMeans(e, NarrowAll(cs, UNBOUNDED), v);
    if v.Number? && !v.n.Inf? {
      NarrowMeans(cs, UNBOUNDED, v.n);
      assert cs[0] in cs && cs[1] in cs;
    }
  }

  lemma DecimalMeans(e: Engine, cs: seq<Check>, source: Str, inRange: Json -> bool, v: Json)
    requires cs == [Pattern(NoFormat, source), Refine(inRange)]
    ensures Valid(e, Doc(EmitString(cs)), v) <==> v.String? && e.matches(source, v.s)
  {
    hide Valid, KeywordOk, EmitString;
    StringMeans(e, cs, v);
    assert cs[1..] == [cs[1]] && cs[1..][1..] == [];
    assert LastPattern(cs[1..], Some(source)) == Some(source) && LastPattern(cs, None) == Some(source);
    NoBounds(cs, -1, -1);
  }

  // ── structured content ──────────

  /** Nothing strips, and a field may be missing from an input exactly when it may be
      missing from an output. */
  predicate OneDocument(s: Schema)
    decreases s
  {
    match s.node
    case KObject(fs, c, _) =>
      c != Strip && forall i :: 0 <= i < |fs| ==>
        OneDocument(fs[i].schema) && (Required(fs[i], In) <==> Required(fs[i], Out))
    case KArray(i) => OneDocument(i)
    case KRecord(i) => OneDocument(i)
    case KUnion(os) => forall i :: 0 <= i < |os| ==> OneDocument(os[i])
    case KOptional(i) => OneDocument(i)
    case KNullable(i) => OneDocument(i)
    case KDefault(i, _) => OneDocument(i)
    case KPipe(i, _) => OneDocument(i)
    case _ => true
  }

  /** So its input and its output document are the same. */
  lemma {:induction false} SameDocument(s: Schema)
    requires OneDocument(s)
    ensures Emit(s, In) == Emit(s, Out)
    decreases s, 2
  {
    hide EmitString, EmitNumber, EmitArray, EmitRecord, Set, SetMeta, Under;
    match s.node
    case KObject(fs, c, _) =>
      SameFields(fs, []);
      SameRequired(fs);
    case KArray(i) => SameDocument(i);
    case KRecord(i) => SameDocument(i);
    case KUnion(os) =>
      forall i | 0 <= i < |os| ensures EmitOptions(os, In)[i] == EmitOptions(os, Out)[i] { SameDocument(os[i]); }
      assert EmitOptions(os, In) == EmitOptions(os, Out);
    case KOptional(i) => SameDocument(i);
    case KNullable(i) => SameDocument(i);
    case KDefault(i, _) => SameDocument(i);
    case KPipe(i, _) => SameDocument(i);
    case _ =>
  }

  lemma {:induction false} SameFields(fs: seq<Field>, ps: seq<Prop>)
    requires forall i :: 0 <= i < |fs| ==> OneDocument(fs[i].schema)
    ensures EmitFields(fs, In, ps) == EmitFields(fs, Out, ps)
    decreases fs, 1
  {
    hide Emit, SetProp;
    if fs != [] {
      SameDocument(fs[0].schema);
      SameFields(fs[1..], SetProp(ps, fs[0].name, Emit(fs[0].schema, In)));
    }
  }

  lemma {:induction false} SameRequired(fs: seq<Field>)
    requires forall i :: 0 <= i < |fs| ==> (Required(fs[i], In) <==> Required(fs[i], Out))
    ensures RequiredNames(fs, In) == RequiredNames(fs, Out)
  {
    if fs != [] { SameRequired(fs[1..]); }
  }

  /** Without stripping, defaults and transforms there is one document. */
  lemma {:induction false} PlainHasOne(s: Schema)
    requires NoStrip(s) && NoDefault(s) && NoPipe(s)
    ensures OneDocument(s)
    decreases s
  {
    match s.node
    case KObject(fs, _, _) =>
      forall i | 0 <= i < |fs|
        ensures OneDocument(fs[i].schema) && (Required(fs[i], In) <==> Required(fs[i], Out))
      {
        PlainHasOne(fs[i].schema);
        OptionalLeftOut(fs[i].schema);
      }
    case KArray(i) => PlainHasOne(i);
    case KRecord(i) => PlainHasOne(i);
    case KUnion(os) => forall i | 0 <= i < |os| { PlainHasOne(os[i]); }
    case KOptional(i) => PlainHasOne(i);
    case KNullable(i) => PlainHasOne(i);
    case _ =>
  }

  /** MAIN: structured content that passes def.output.Parse is itself valid under the
      advertised output document, when that schema strips, defaults and transforms nothing. */
  lemma ContentIsAdvertised(e: Engine, s: Schema, v: Json)
    requires Plain(s) && NoStrip(s) && NoDefault(s) && NoPipe(s)
    ensures Parse(e, s, v).Some? ==> Valid(e, JSONSchema(s, Out), v)
  {
    hide Valid, Run, Emit;
    PlainHasOne(s);
    SameDocument(s);
    if Parse(e, s, v).Some? { ParseIsAdvertised(e, s, v); }
  }

  /** A stripping object lets content through that its output document refuses: the
      parser accepts an unknown key, and the content is sent with it. */
  lemma StrippedContentRefused(e: Engine, s: Schema, v: Json)
    requires s.node.KObject? && s.node.catchall == Strip && AnnotationsOnly(s.meta)
    requires v.Object? && !AllKnown(s.node.fields, v.members)
    ensures !Valid(e, JSONSchema(s, Out), v)
  {
    hide Valid, KeywordOk, EmitObject, EmitFields, RequiredNames, Set, Get, JSONSchema;
    var fs := s.node.fields;
    var ps := EmitFields(fs, Out, []);
    DocumentMeans(e, s, Out, v);
    EmitMeans(e, s, Out, v);
    FieldsIn(fs, Out, []);
    ObjectMeans(e, ps, RequiredNames(fs, Out), Strip, Out, v);
    var i :| 0 <= i < |v.members| && !Known(fs, v.members[i].key);
    assert !Named(ps, v.members[i].key);
  }

  lemma StripAccepts(e: Engine, s: Schema, v: Json)
    requires s.node.KObject? && s.node.catchall == Strip && Parse(e, s, v).Some?
    ensures v.Object?
    ensures AllKnown(s.node.fields, v.members) ==> Parse(e, Strictly(s), v) == Parse(e, s, v)
  {
    RunAccepts(e, s, Present(v));
    ObjectAccepts(e, s, v);
    if AllKnown(s.node.fields, v.members) { StrictlyRuns(e, s, v); }
  }

  lemma StrictlyRuns(e: Engine, s: Schema, v: Json)
    requires s.node.KObject? && s.node.catchall == Strip && v.Object? && AllKnown(s.node.fields, v.members)
    ensures Run(e, Strictly(s), Present(v)) == Run(e, s, Present(v))
  {
    hide RunFields, RunChecks, Known;
    var fs, ms := s.node.fields, v.members;
    var r := RunFields(e, fs, ms, Ok(Object([])));
    assert FinishObject(fs, Strict, s.node.superRefine, ms, r) == FinishObject(fs, Strip, s.node.superRefine, ms, r);
    assert ParseType(e, Strictly(s), Present(v)) == ParseType(e, s, Present(v));
  }

  // A schema's object, refusing the keys it did not name.
  function Strictly(s: Schema): Schema
    requires s.node.KObject?
  {
    s.(node := s.node.(catchall := Strict))
  }

  /** MAIN: content that a stripping object accepts, nothing below it stripping, is valid
      under its output document if and only if it has no key to strip. */
  lemma StrippedContentExact(e: Engine, s: Schema, v: Json)
    requires s.node.KObject? && s.node.catchall == Strip && Plain(s)
    requires NoStrip(Strictly(s)) && NoDefault(s) && NoPipe(s) && Parse(e, s, v).Some?
    ensures v.Object?
    ensures Valid(e, JSONSchema(s, Out), v) <==> AllKnown(s.node.fields, v.members)
  {
    hide Valid, JSONSchema, Parse, NoStrip;
    StripAccepts(e, s, v);
    if AllKnown(s.node.fields, v.members) {
      ContentIsAdvertised(e, Strictly(s), v);
      StrictlySame(s);
    } else {
      StrippedContentRefused(e, s, v);
    }
  }

  lemma StrictlySame(s: Schema)
    requires s.node.KObject? && s.node.catchall == Strip
    ensures JSONSchema(Strictly(s), Out) == JSONSchema(s, Out)
  {
    assert EmitNode(Strictly(s), Out) == EmitNode(s, Out);
    assert Emit(Strictly(s), Out) == Emit(s, Out);
  }

  /** The failing content is always at hand: whatever a stripping object accepts it accepts,
      checks permitting, with any key it does not name, to the same value, and refuses
      under its document. */
  lemma StrippingAccepts(e: Engine, s: Schema, ms: seq<Member>, m: Member)
    requires s.node.KObject? && s.node.catchall == Strip && AnnotationsOnly(s.meta)
    requires Parse(e, s, Object(ms)).Some? && !Known(s.node.fields, m.key)
    requires AllPass(e, s.checks, Present(Object(ms + [m])))
    ensures Parse(e, s, Object(ms + [m])) == Parse(e, s, Object(ms))
    ensures !Valid(e, JSONSchema(s, Out), Object(ms + [m]))
  {
    hide Valid, JSONSchema, RunFields, Known;
    var more := ms + [m];
    assert more[|ms|] == m;
    StrippedContentRefused(e, s, Object(more));
    SameFieldsRun(e, s.node.fields, ms, m, Ok(Object([])));
    assert ParseType(e, s, Present(Object(more))) == ParseType(e, s, Present(Object(ms)));
    RunAccepts(e, s, Present(Object(ms)));
    RunAccepts(e, s, Present(Object(more)));
    hide AllPass;
  }

  lemma {:induction false} SameFieldsRun(e: Engine, fs: seq<Field>, ms: seq<Member>, m: Member, r: Result)
    requires r.value.Object? && !Known(fs, m.key)
    ensures RunFields(e, fs, ms + [m], r) == RunFields(e, fs, ms, r)
    decreases fs
  {
    hide Run;
    if fs != [] {
      KnownCons(fs);
      FindAppended(ms, m, fs[0].name);
      var input := Lookup(ms, fs[0].name);
      SameFieldsRun(e, fs[1..], ms, m, FieldStep(fs[0], input, Run(e, fs[0].schema, input), r));
    }
  }

  lemma {:induction false} FindAppended(ms: seq<Member>, m: Member, key: Str)
    requires m.key != key
    ensures Find(ms + [m], key) == Find(ms, key)
  {
    if ms == [] {
      assert (ms + [m])[1..] == [];
    } else {
      assert (ms + [m])[1..] == ms[1..] + [m];
      FindAppended(ms[1..], m, key);
    }
  }

  // ── closing every object ──────────

  /** The schema with every stripping object made strict. */
  function Close(s: Schema): Schema
    decreases s, 0
  {
    s.(node :=
      match s.node
      case KObject(fs, c, refine) => KObject(CloseFields(fs), if c == Strip then Strict else c, refine)
      case KArray(i) => KArray(Close(i))
      case KRecord(i) => KRecord(Close(i))
      case KUnion(os) => KUnion(CloseAll(os))
      case KOptional(i) => KOptional(Close(i))
      case KNullable(i) => KNullable(Close(i))
      case KDefault(i, def) => KDefault(Close(i), def)
      case KPipe(i, f) => KPipe(Close(i), f)
      case n => n)
  }

  function CloseFields(fs: seq<Field>): (r: seq<Field>)
    ensures |r| == |fs|
    ensures forall i :: 0 <= i < |fs| ==> r[i] == Field(fs[i].name, Close(fs[i].schema))
    decreases fs, 1
  {
    if fs == [] then [] else [Field(fs[0].name, Close(fs[0].schema))] + CloseFields(fs[1..])
  }

  function CloseAll(os: seq<Schema>): (r: seq<Schema>)
    ensures |r| == |os|
    ensures forall i :: 0 <= i < |os| ==> r[i] == Close(os[i])
    decreases os, 1
  {
    if os == [] then [] else [Close(os[0])] + CloseAll(os[1..])
  }

  /** Closing changes neither optionality nor the output document: that one closes anyway. */
  lemma {:induction false} ClosedOptional(s: Schema)
    ensures Optin(Close(s)) == Optin(s) && (OptoutOptional(Close(s)) <==> OptoutOptional(s))
    decreases s
  {
    match s.node
    case KNullable(i) => ClosedOptional(i);
    case KPipe(i, _) => ClosedOptional(i);
    case KUnion(os) =>
      forall i | 0 <= i < |os|
        ensures Optin(CloseAll(os)[i]) == Optin(os[i]) && (OptoutOptional(CloseAll(os)[i]) <==> OptoutOptional(os[i]))
      {
        ClosedOptional(os[i]);
      }
      SameAny(CloseAll(os), os, OptNone);
    case _ =>
  }

  lemma {:induction false} SameAny(a: seq<Schema>, b: seq<Schema>, result: Opt)
    requires |a| == |b| && forall i :: 0 <= i < |a| ==> Optin(a[i]) == Optin(b[i])
    ensures OptinAny(a, result) == OptinAny(b, result)
    decreases a
  {
    if a != [] { SameAny(a[1..], b[1..], if Optin(a[0]) == OptNone then result else Optin(a[0])); }
  }

  lemma {:induction false} ClosedDocument(s: Schema)
    ensures Emit(Close(s), Out) == Emit(s, Out)
    decreases s, 2
  {
    hide EmitString, EmitNumber, EmitArray, EmitRecord, Set, SetMeta, Under;
    hide EmitObject, EmitFields, EmitOptions, RequiredNames;
    match s.node
    case KObject(fs, c, _) =>
      ClosedKind(c);
      ClosedFields(fs, []);
      ClosedRequired(fs);
    case KArray(i) => ClosedDocument(i);
    case KRecord(i) => ClosedDocument(i);
    case KUnion(os) => ClosedOptions(os);
    case KOptional(i) => ClosedDocument(i);
    case KNullable(i) => ClosedDocument(i);
    case KDefault(i, _) => ClosedDocument(i);
    case KPipe(i, _) => ClosedDocument(i);
    case _ =>
  }

  lemma ClosedKind(c: Catch)
    ensures var z := if c == Strip then Strict else c;
      forall ps, required :: EmitObject(ps, required, z, Out) == EmitObject(ps, required, c, Out)
  {}

  lemma {:induction false} ClosedOptions(os: seq<Schema>)
    ensures EmitOptions(CloseAll(os), Out) == EmitOptions(os, Out)
    decreases os, 1
  {
    hide Emit, Close;
    if os != [] {
      ClosedDocument(os[0]);
      ClosedOptions(os[1..]);
      assert CloseAll(os)[1..] == CloseAll(os[1..]);
    }
  }

  lemma {:induction false} ClosedFields(fs: seq<Field>, ps: seq<Prop>)
    ensures EmitFields(CloseFields(fs), Out, ps) == EmitFields(fs, Out, ps)
    decreases fs, 1
  {
    hide Emit, SetProp;
    if fs != [] {
      ClosedDocument(fs[0].schema);
      ClosedFields(fs[1..], SetProp(ps, fs[0].name, Emit(fs[0].schema, Out)));
      assert CloseFields(fs)[1..] == CloseFields(fs[1..]);
    }
  }

  lemma {:induction false} ClosedRequired(fs: seq<Field>)
    ensures RequiredNames(CloseFields(fs), Out) == RequiredNames(fs, Out)
  {
    if fs != [] {
      ClosedOptional(fs[0].schema);
      ClosedRequired(fs[1..]);
      assert CloseFields(fs)[1..] == CloseFields(fs[1..]);
    }
  }

  lemma {:induction false} ClosedFits(s: Schema)
    requires Exact(s) && NoDefault(s) && NoPipe(s)
    ensures Exact(Close(s)) && NoStrip(Close(s)) && NoDefault(Close(s)) && NoPipe(Close(s))
    decreases s
  {
    hide StringCheck, NumberCheck, OnePattern, Carried, AnnotationsOnly;
    match s.node
    case KObject(fs, _, _) => forall i | 0 <= i < |fs| { ClosedFits(fs[i].schema); }
    case KArray(i) => ClosedFits(i);
    case KRecord(i) => ClosedFits(i);
    case KUnion(os) => forall i | 0 <= i < |os| { ClosedFits(os[i]); }
    case KOptional(i) => ClosedFits(i);
    case KNullable(i) => ClosedFits(i);
    case _ =>
  }

  /** MAIN: on the exact fragment, stripping at any depth, the output document validates
      exactly the content that the schema accepts with its objects closed. */
  lemma ContentIffClosed(e: Engine, s: Schema, v: Json)
    requires Exact(s) && NoDefault(s) && NoPipe(s)
    ensures Valid(e, JSONSchema(s, Out), v) <==> Parse(e, Close(s), v).Some?
  {
    hide Valid, Run, Emit, JSONSchema, Exact, NoStrip, NoDefault, NoPipe, Close;
    var z := Close(s);
    ClosedFits(s);
    ClosedDocument(s);
    PlainHasOne(z);
    SameDocument(z);
    ParseIffAdvertised(e, z, v);
    DocumentMeans(e, z, In, v);
    DocumentMeans(e, s, Out, v);
  }
}
