/** Where the parser and its document part ways: one witness for each hypothesis
    of the theorems. */
module SchemaLimits {
  import opened JsonValue
  import opened SchemaAst
  import opened SchemaRun
  import opened SchemaDoc
  import opened SchemaEmit
  import opened SchemaAccept
  import opened SchemaMeaning
  import opened SchemaTheorems
  import opened SchemaOutput

  lemma StringAdvertised(e: Engine, cs: seq<Check>, s: Str)
    ensures Valid(e, JSONSchema(Schema([], cs, KString), In), String(s)) <==>
      && WithinBounds(FoldLo(cs, -1), FoldHi(cs, -1), e.runes(s))
      && (LastPattern(cs, None).Some? ==> e.matches(LastPattern(cs, None).value, s))
  {
    hide Valid, KeywordOk, FoldLo, FoldHi, LastPattern, EmitString, JSONSchema;
    var z := Schema([], cs, KString);
    DocumentMeans(e, z, In, String(s));
    EmitMeans(e, z, In, String(s));
    StringMeans(e, cs, String(s));
    assert EmitNode(z, In) == EmitString(cs);
  }

  lemma Refused(e: Engine, s: Schema, v: Json, c: Check)
    requires c in s.checks && !CheckPasses(e, c, Present(v))
    ensures Parse(e, s, v).None?
  {
    hide Run, ParseType;
    RunAccepts(e, s, Present(v));
  }

  /** Of two patterns only the later is advertised: a string that fails the
      earlier one alone is valid and refused. */
  lemma EarlierPatternUnadvertised(e: Engine, a: Str, b: Str, s: Str)
    requires !e.matches(a, s) && e.matches(b, s)
    ensures var z := Schema([], [Pattern(NoFormat, a), Pattern(NoFormat, b)], KString);
      Valid(e, JSONSchema(z, In), String(s)) && Parse(e, z, String(s)).None?
  {
    hide Valid, JSONSchema, Parse;
    var cs := [Pattern(NoFormat, a), Pattern(NoFormat, b)];
    assert cs[1..] == [cs[1]] && cs[1..][1..] == [];
    assert LastPattern(cs[1..], Some(a)) == Some(b) && LastPattern(cs, None) == Some(b);
    NoBounds(cs, -1, -1);
    StringAdvertised(e, cs, s);
    Refused(e, Schema([], cs, KString), String(s), cs[0]);
  }

  /** A negative max refuses every string and advertises no bound. */
  lemma NegativeMaxUnadvertised(e: Engine, s: Str)
    ensures var z := Schema([], [MaxLen(-1.0)], KString);
      Valid(e, JSONSchema(z, In), String(s)) && Parse(e, z, String(s)).None?
  {
    hide Valid, JSONSchema, Parse;
    var cs := [MaxLen(-1.0)];
    assert cs[1..] == [];
    StringAdvertised(e, cs, s);
    Refused(e, Schema([], cs, KString), String(s), cs[0]);
  }

  /** A keyword in metadata overrides the node's own: a value the parser takes is
      not valid under a document whose metadata says const. */
  lemma KeywordMetaBreaksSoundness(e: Engine)
    ensures var z := Schema([Meta(KwConst, Null)], [], KBool);
      Parse(e, z, Bool(true)).Some? && !Valid(e, JSONSchema(z, In), Bool(true))
  {
    hide Valid, JSONSchema, KeywordOk;
    var z := Schema([Meta(KwConst, Null)], [], KBool);
    DocumentMeans(e, z, In, Bool(true));
    var es := Set([], KwType, Type(TBoolean));
    assert z.meta[1..] == [];
    LeafMeans(e, es, KwConst, Lit(Null), Bool(true));
  }

  /** A check on a wrapper can reject an absent field that optin calls optional. */
  lemma WrapperCheckBreaksOptin(e: Engine)
    ensures var z := Schema([], [Refine(_ => false)], KOptional(Bare(KString)));
      Optin(z) == OptOptional && !Accepts(e, z, Absent)
  {
    var z := Schema([], [Refine(_ => false)], KOptional(Bare(KString)));
    RunAccepts(e, z, Absent);
    assert !CheckPasses(e, z.checks[0], Absent);
  }

  const F: Str := [102]

  // Optional string before a string defaulting to "".
  function Mixed(): Schema { Bare(KUnion([Bare(KOptional(Bare(KString))), Bare(KDefault(Bare(KString), String([])))])) }

  function MixedObject(): Schema { Bare(KObject([Field(F, Mixed())], Strip, None)) }

  /** An optional branch before a defaulted one stores null for an absent field,
      which the output document refuses. */
  lemma OptionalBeforeDefault(e: Engine)
    ensures Parse(e, MixedObject(), Object([])) == Some(Object([Member(F, Null)]))
    ensures !Valid(e, JSONSchema(MixedObject(), Out), Object([Member(F, Null)]))
  {
    hide Valid, JSONSchema, Emit, Parse;
    MixedParses(e);
    DocumentMeans(e, MixedObject(), Out, Object([Member(F, Null)]));
    MixedRefused(e);
  }

  lemma MixedParses(e: Engine)
    ensures Parse(e, MixedObject(), Object([])) == Some(Object([Member(F, Null)]))
  {
    MixedAbsent(e);
    var f := Field(F, Mixed());
    var fs := [f];
    assert fs[1..] == [];
    assert FieldStep(f, Absent, Ok(Null), Ok(Object([]))) == Ok(Object([Member(F, Null)]));
    assert RunFields(e, fs, [], Ok(Object([]))) == Ok(Object([Member(F, Null)]));
  }

  lemma MixedAbsent(e: Engine)
    ensures Run(e, Mixed(), Absent) == Ok(Null) && Optin(Mixed()) == OptDefaulted
  {
    var os := Mixed().node.options;
    assert Run(e, os[0], Absent) == Ok(Null);
    assert RunOptions(e, os, Absent, []) == Ok(Null);
    assert os[1..] == [os[1]] && Optin(os[0]) == OptOptional && Optin(os[1]) == OptDefaulted;
    assert OptinAny(os[1..], OptOptional) == OptDefaulted;
    assert OptinAny(os, OptNone) == OptDefaulted;
  }

  lemma MixedRefused(e: Engine)
    ensures !Valid(e, Emit(MixedObject(), Out), Object([Member(F, Null)]))
  {
    hide Valid, KeywordOk, Emit, Set, Get, EmitObject, RequiredNames, Mixed;
    var z, w := MixedObject(), Object([Member(F, Null)]);
    var fs := z.node.fields;
    EmitMeans(e, z, Out, w);
    var ps := EmitFields(fs, Out, []);
    ObjectMeans(e, ps, RequiredNames(fs, Out), Strip, Out, w);
    MixedProps();
    hide EmitFields;
    MixedRefusesNull(e);
    assert !Valid(e, ps[0].d, Find(w.members, ps[0].name).value);
  }

  lemma MixedProps()
    ensures EmitFields(MixedObject().node.fields, Out, []) == [Prop(F, Emit(Mixed(), Out))]
  {
    hide Emit, Mixed;
    assert MixedObject().node.fields[1..] == [];
  }

  lemma MixedRefusesNull(e: Engine)
    ensures !Valid(e, Emit(Mixed(), Out), Null)
  {
    hide Valid, KeywordOk, Emit;
    var os := Mixed().node.options;
    EmitMeans(e, Mixed(), Out, Null);
    AnyOfMeans(e, EmitOptions(os, Out), Null);
    StringRefusesNull(e);
    EmitMeans(e, os[0], Out, Null);
    EmitMeans(e, os[1], Out, Null);
  }

  lemma StringRefusesNull(e: Engine)
    ensures !Valid(e, Emit(Bare(KString), Out), Null)
  {
    hide Valid, KeywordOk, Emit;
    EmitMeans(e, Bare(KString), Out, Null);
    StringMeans(e, [], Null);
  }
}
