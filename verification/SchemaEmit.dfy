/** The compiler: Schema.emit and its helpers.  Each loop of the source appears
    twice, as the function lemmas speak of and as the method proved equal to it. */
module SchemaEmit {
  import opened JsonValue
  import opened SchemaAst
  import opened SchemaDoc
  import T = Text

  datatype Dir = In | Out

  // ── lengths and bounds ──────────

  // int(x) of a float64: towards zero.
  function Trunc(r: real): int {
    if r >= 0.0 then r.Floor else -(-r).Floor
  }

  function Lower(c: Check): Option<int> {
    if c.MinLen? || c.LenEq? then Some(Trunc(c.n)) else None
  }

  function Upper(c: Check): Option<int> {
    if c.MaxLen? || c.LenEq? then Some(Trunc(c.n)) else None
  }

  function RaiseTo(lo: int, c: Check): int {
    match Lower(c)
    case Some(n) => if lo < 0 || n > lo then n else lo
    case None => lo
  }

  function LowerTo(hi: int, c: Check): int {
    match Upper(c)
    case Some(n) => if hi < 0 || n < hi then n else hi
    case None => hi
  }

  function FoldLo(cs: seq<Check>, lo: int): int {
    if cs == [] then lo else FoldLo(cs[1..], RaiseTo(lo, cs[0]))
  }

  function FoldHi(cs: seq<Check>, hi: int): int {
    if cs == [] then hi else FoldHi(cs[1..], LowerTo(hi, cs[0]))
  }

  /** lengthBounds: -1 stands for an absent bound. */
  method LengthBounds(cs: seq<Check>) returns (lo: int, hi: int)
    ensures lo == FoldLo(cs, -1) && hi == FoldHi(cs, -1)
  {
    lo, hi := -1, -1;
    for i := 0 to |cs|
      invariant FoldLo(cs, -1) == FoldLo(cs[i..], lo)
      invariant FoldHi(cs, -1) == FoldHi(cs[i..], hi)
    {
      assert cs[i..][0] == cs[i] && cs[i..][1..] == cs[i + 1..];
      match cs[i] {
        case MinLen(b) =>
          var n := Trunc(b);
          if lo < 0 || n > lo { lo := n; }
        case MaxLen(b) =>
          var n := Trunc(b);
          if hi < 0 || n < hi { hi := n; }
        case LenEq(b) =>
          var n := Trunc(b);
          if lo < 0 || n > lo { lo := n; }
          if hi < 0 || n < hi { hi := n; }
        case _ =>
      }
    }
  }

  function SetCount(es: seq<Entry>, k: Key, n: int): seq<Entry> {
    if n >= 0 then Set(es, k, Count(n)) else es
  }

  function FormatOf(cs: seq<Check>, f: Option<Json>): Option<Json> {
    if cs == [] then f
    else FormatOf(cs[1..], match cs[0]
      case Pattern(DateTime, _) => Some(String(DATE_TIME))
      case Pattern(Uuid, _) => Some(String(UUID))
      case Url => Some(String(URI))
      case _ => f)
  }

  const DATE_TIME: Str := T.Ascii("date-time")
  const UUID: Str := T.Ascii("uuid")
  const URI: Str := T.Ascii("uri")

  /** Only the last pattern of a string is emitted. */
  function LastPattern(cs: seq<Check>, p: Option<Str>): Option<Str> {
    if cs == [] then p
    else LastPattern(cs[1..], if cs[0].Pattern? then Some(cs[0].source) else p)
  }

  function EmitString(cs: seq<Check>): seq<Entry> {
    var o := Set([], KwType, Type(TString));
    var o := SetCount(o, KwMinLength, FoldLo(cs, -1));
    var o := SetCount(o, KwMaxLength, FoldHi(cs, -1));
    var o := match FormatOf(cs, None) case Some(f) => Set(o, KwFormat, Lit(f)) case None => o;
    match LastPattern(cs, None) case Some(p) => Set(o, KwPattern, Source(p)) case None => o
  }

  method EmitStringLoop(cs: seq<Check>) returns (o: seq<Entry>)
    ensures o == EmitString(cs)
  {
    o := Set([], KwType, Type(TString));
    var lo, hi := LengthBounds(cs);
    if lo >= 0 { o := Set(o, KwMinLength, Count(lo)); }
    if hi >= 0 { o := Set(o, KwMaxLength, Count(hi)); }
    var format: Option<Json>, pat: Option<Str> := None, None;
    for i := 0 to |cs|
      invariant FormatOf(cs, None) == FormatOf(cs[i..], format)
      invariant LastPattern(cs, None) == LastPattern(cs[i..], pat)
    {
      assert cs[i..][0] == cs[i] && cs[i..][1..] == cs[i + 1..];
      match cs[i] {
        case Pattern(f, src) =>
          pat := Some(src);
          if f == DateTime { format := Some(String(DATE_TIME)); }
          if f == Uuid { format := Some(String(UUID)); }
        case Url => format := Some(String(URI));
        case _ =>
      }
    }
    if format.Some? { o := Set(o, KwFormat, Lit(format.value)); }
    if pat.Some? { o := Set(o, KwPattern, Source(pat.value)); }
  }

  // ── numbers ──────────

  function NarrowMin(p: Option<real>, v: real): Option<real> {
    if p.None? || v > p.value then Some(v) else p
  }

  function NarrowMax(p: Option<real>, v: real): Option<real> {
    if p.None? || v < p.value then Some(v) else p
  }

  datatype Bounds = Bounds(isInt: bool, minimum: Option<real>, maximum: Option<real>, exMin: Option<real>)

  function Narrow(b: Bounds, c: Check): Bounds {
    match c
    case Int => b.(isInt := true, minimum := NarrowMin(b.minimum, -MAX_SAFE), maximum := NarrowMax(b.maximum, MAX_SAFE))
    case Gt(n) => b.(exMin := NarrowMin(b.exMin, n))
    case Gte(n) => b.(minimum := NarrowMin(b.minimum, n))
    case Lte(n) => b.(maximum := NarrowMax(b.maximum, n))
    case _ => b
  }

  function NarrowAll(cs: seq<Check>, b: Bounds): Bounds {
    if cs == [] then b else NarrowAll(cs[1..], Narrow(b, cs[0]))
  }

  const UNBOUNDED := Bounds(false, None, None, None)

  function EmitBounds(b: Bounds): seq<Entry> {
    var o := Set([], KwType, Type(if b.isInt then TInteger else TNumber));
    var o :=
      if b.exMin.Some? && (b.minimum.None? || b.exMin.value >= b.minimum.value) then
        Set(o, KwExclusiveMinimum, Bound(b.exMin.value))
      else if b.minimum.Some? then Set(o, KwMinimum, Bound(b.minimum.value))
      else o;
    if b.maximum.Some? then Set(o, KwMaximum, Bound(b.maximum.value)) else o
  }

  function EmitNumber(cs: seq<Check>): seq<Entry> { EmitBounds(NarrowAll(cs, UNBOUNDED)) }

  method EmitNumberLoop(cs: seq<Check>) returns (o: seq<Entry>)
    ensures o == EmitNumber(cs)
  {
    var isInt := false;
    var minimum: Option<real>, maximum: Option<real>, exMin: Option<real> := None, None, None;
    for i := 0 to |cs|
      invariant NarrowAll(cs, UNBOUNDED) == NarrowAll(cs[i..], Bounds(isInt, minimum, maximum, exMin))
    {
      assert cs[i..][0] == cs[i] && cs[i..][1..] == cs[i + 1..];
      match cs[i] {
        case Int =>
          isInt := true;
          minimum := NarrowMin(minimum, -MAX_SAFE);
          maximum := NarrowMax(maximum, MAX_SAFE);
        case Gt(n) => exMin := NarrowMin(exMin, n);
        case Gte(n) => minimum := NarrowMin(minimum, n);
        case Lte(n) => maximum := NarrowMax(maximum, n);
        case _ =>
      }
    }
    o := Set([], KwType, Type(if isInt then TInteger else TNumber));
    if exMin.Some? && (minimum.None? || exMin.value >= minimum.value) {
      o := Set(o, KwExclusiveMinimum, Bound(exMin.value));
    } else if minimum.Some? {
      o := Set(o, KwMinimum, Bound(minimum.value));
    }
    if maximum.Some? { o := Set(o, KwMaximum, Bound(maximum.value)); }
  }

  // ── the tree ──────────

  function SetProp(ps: seq<Prop>, name: Str, d: Doc): seq<Prop> {
    if ps == [] then [Prop(name, d)]
    else if ps[0].name == name then [Prop(name, d)] + ps[1..]
    else [ps[0]] + SetProp(ps[1..], name, d)
  }

  predicate Required(f: Field, dir: Dir) {
    if dir == In then Optin(f.schema) == OptNone else !OptoutOptional(f.schema)
  }

  function RequiredNames(fs: seq<Field>, dir: Dir): seq<Str> {
    if fs == [] then []
    else (if Required(fs[0], dir) then [fs[0].name] else []) + RequiredNames(fs[1..], dir)
  }

  function EmitFields(fs: seq<Field>, dir: Dir, ps: seq<Prop>): seq<Prop>
    decreases fs, 2
  {
    if fs == [] then ps
    else EmitFields(fs[1..], dir, SetProp(ps, fs[0].name, Emit(fs[0].schema, dir)))
  }

  function EmitOptions(os: seq<Schema>, dir: Dir): (ds: seq<Doc>)
    ensures |ds| == |os|
    ensures forall i :: 0 <= i < |os| ==> ds[i] == Emit(os[i], dir)
    decreases os, 2
  {
    if os == [] then [] else [Emit(os[0], dir)] + EmitOptions(os[1..], dir)
  }

  /** jsTypeof: everything but null, booleans and numbers is a string. */
  function TypeofLiteral(v: Json): TypeName {
    match v
    case Null => TNull
    case Bool(_) => TBoolean
    case Number(_) => TNumber
    case _ => TString
  }

  const NULL_DOC := Doc([Entry(KwType, Type(TNull))])
  const STRING_DOC := Doc([Entry(KwType, Type(TString))])

  function EmitObject(ps: seq<Prop>, required: seq<Str>, catchall: Catch, dir: Dir): seq<Entry> {
    var o := Set([], KwType, Type(TObject));
    var o := Set(o, KwProperties, Props(ps));
    var o := if |required| > 0 then Set(o, KwRequired, Names(required)) else o;
    match catchall
    case Strict => Set(o, KwAdditional, Lit(Bool(false)))
    case Loose => Set(o, KwAdditional, Sub(EMPTY))
    case Strip => if dir == Out then Set(o, KwAdditional, Lit(Bool(false))) else o
  }

  function EmitArray(lo: int, hi: int, items: Doc): seq<Entry> {
    var o := SetCount([], KwMinItems, lo);
    var o := SetCount(o, KwMaxItems, hi);
    var o := Set(o, KwType, Type(TArray));
    Set(o, KwItems, Sub(items))
  }

  function EmitRecord(values: Doc): seq<Entry> {
    var o := Set([], KwType, Type(TObject));
    var o := Set(o, KwPropertyNames, Sub(STRING_DOC));
    Set(o, KwAdditional, Sub(values))
  }

  /** The node's own keys, before metadata. */
  function EmitNode(s: Schema, dir: Dir): seq<Entry>
    decreases s, 0
  {
    match s.node
    case KString => EmitString(s.checks)
    case KNumber => EmitNumber(s.checks)
    case KBool => Set([], KwType, Type(TBoolean))
    case KNull => Set([], KwType, Type(TNull))
    case KUnknown => []
    case KNever => Set([], KwNot, Sub(EMPTY))
    case KLiteral(lit) => Set(Set([], KwType, Type(TypeofLiteral(lit))), KwConst, Lit(lit))
    case KEnum(vs) =>
      Set(Set([], KwType, Type(TString)), KwEnum, Consts(seq(|vs|, i requires 0 <= i < |vs| => String(vs[i]))))
    case KObject(fs, catchall, _) =>
      EmitObject(EmitFields(fs, dir, []), RequiredNames(fs, dir), catchall, dir)
    case KArray(elem) =>
      EmitArray(FoldLo(s.checks, -1), FoldHi(s.checks, -1), Emit(elem, dir))
    case KRecord(elem) =>
      EmitRecord(Emit(elem, dir))
    case KUnion(os) => Set([], KwAnyOf, Subs(EmitOptions(os, dir)))
    case KNullable(i) => Set([], KwAnyOf, Subs([Emit(i, dir), NULL_DOC]))
    case KOptional(_) => []
    case KPipe(_, _) => []
    case KDefault(_, def) => Set([], KwDefault, Lit(def))
  }

  function SetMeta(es: seq<Entry>, ms: seq<Meta>): seq<Entry>
    decreases ms
  {
    if ms == [] then es else SetMeta(Set(es, ms[0].key, Lit(ms[0].value)), ms[1..])
  }

  /** The wrapped schema's keys under the wrapper's own. */
  function Under(o: seq<Entry>, inner: seq<Entry>): seq<Entry>
    decreases inner
  {
    if inner == [] then o
    else Under(if Has(o, inner[0].key) then o else Set(o, inner[0].key, inner[0].value), inner[1..])
  }

  predicate Wrapper(s: Schema) { s.node.KOptional? || s.node.KPipe? || s.node.KDefault? }

  function Emit(s: Schema, dir: Dir): Doc
    decreases s, 1
  {
    var o := SetMeta(EmitNode(s, dir), s.meta);
    if Wrapper(s) then Doc(Under(o, Emit(s.node.inner, dir).entries)) else Doc(o)
  }

  /** Schema.emit with the source's own loops. */
  method EmitLoop(s: Schema, dir: Dir) returns (d: Doc)
    ensures d == Emit(s, dir)
    decreases s, 1
  {
    var o := EmitNodeLoop(s, dir);
    for i := 0 to |s.meta|
      invariant SetMeta(EmitNode(s, dir), s.meta) == SetMeta(o, s.meta[i..])
    {
      assert s.meta[i..][0] == s.meta[i] && s.meta[i..][1..] == s.meta[i + 1..];
      o := Set(o, s.meta[i].key, Lit(s.meta[i].value));
    }
    if Wrapper(s) {
      var inner := EmitLoop(s.node.inner, dir);
      o := UnderLoop(o, inner.entries);
    }
    d := Doc(o);
  }

  method UnderLoop(own: seq<Entry>, es: seq<Entry>) returns (o: seq<Entry>)
    ensures o == Under(own, es)
  {
    o := own;
    for i := 0 to |es|
      invariant Under(own, es) == Under(o, es[i..])
    {
      assert es[i..][0] == es[i] && es[i..][1..] == es[i + 1..];
      if !Has(o, es[i].key) { o := Set(o, es[i].key, es[i].value); }
    }
  }

  method EmitNodeLoop(s: Schema, dir: Dir) returns (o: seq<Entry>)
    ensures o == EmitNode(s, dir)
    decreases s, 0
  {
    hide EmitObject, EmitArray, EmitRecord, EmitString, EmitNumber, Set;
    o := [];
    match s.node {
      case KString => o := EmitStringLoop(s.checks);
      case KNumber => o := EmitNumberLoop(s.checks);
      case KObject(fs, catchall, _) =>
        var props, required := EmitFieldsLoop(fs, dir);
        o := EmitObject(props, required, catchall, dir);
      case KArray(elem) =>
        var lo, hi := LengthBounds(s.checks);
        var items := EmitLoop(elem, dir);
        o := EmitArray(lo, hi, items);
      case KRecord(elem) =>
        var values := EmitLoop(elem, dir);
        o := EmitRecord(values);
      case KUnion(os) =>
        var opts := EmitOptionsLoop(os, dir);
        o := Set(o, KwAnyOf, Subs(opts));
      case KNullable(inner) =>
        var opt := EmitLoop(inner, dir);
        o := Set(o, KwAnyOf, Subs([opt, NULL_DOC]));
      case _ => o := EmitNode(s, dir);
    }
  }

  method EmitFieldsLoop(fs: seq<Field>, dir: Dir) returns (props: seq<Prop>, required: seq<Str>)
    ensures props == EmitFields(fs, dir, []) && required == RequiredNames(fs, dir)
    decreases fs
  {
    props, required := [], [];
    NoFields(dir);
    hide Emit, SetProp, Required, EmitFields, RequiredNames;
    assert fs[0..] == fs;
    for i := 0 to |fs|
      invariant EmitFields(fs, dir, []) == EmitFields(fs[i..], dir, props)
      invariant RequiredNames(fs, dir) == required + RequiredNames(fs[i..], dir)
    {
      var child := EmitLoop(fs[i].schema, dir);
      FieldsStep(fs, dir, i, props);
      props := SetProp(props, fs[i].name, child);
      if Required(fs[i], dir) {
        assert required + ([fs[i].name] + RequiredNames(fs[i + 1..], dir))
          == required + [fs[i].name] + RequiredNames(fs[i + 1..], dir);
        required := required + [fs[i].name];
      } else {
        assert [] + RequiredNames(fs[i + 1..], dir) == RequiredNames(fs[i + 1..], dir);
      }
    }
    assert fs[|fs|..] == [];
  }

  lemma NoFields(dir: Dir)
    ensures RequiredNames([], dir) == [] && forall ps :: EmitFields([], dir, ps) == ps
  {}

  lemma FieldsStep(fs: seq<Field>, dir: Dir, i: nat, ps: seq<Prop>)
    requires i < |fs|
    ensures EmitFields(fs[i..], dir, ps)
         == EmitFields(fs[i + 1..], dir, SetProp(ps, fs[i].name, Emit(fs[i].schema, dir)))
    ensures RequiredNames(fs[i..], dir)
         == (if Required(fs[i], dir) then [fs[i].name] else []) + RequiredNames(fs[i + 1..], dir)
  {
    assert fs[i..][0] == fs[i] && fs[i..][1..] == fs[i + 1..];
  }

  method EmitOptionsLoop(os: seq<Schema>, dir: Dir) returns (opts: seq<Doc>)
    ensures opts == EmitOptions(os, dir)
    decreases os
  {
    ghost var all := EmitOptions(os, dir);
    hide Emit, EmitOptions;
    opts := [];
    for i := 0 to |os|
      invariant |opts| == i && opts == all[..i]
    {
      var opt := EmitLoop(os[i], dir);
      opts := opts + [opt];
    }
  }
}
