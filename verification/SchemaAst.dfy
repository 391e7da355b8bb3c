/** The tool-schema language: one tree, read by a parser (SchemaRun) and by a
    compiler to draft-07 JSON Schema (SchemaEmit). */
module SchemaAst {
  import opened JsonValue

  // Regular expressions and URL parsing are engines the model does not look inside.
  datatype Engine = Engine(matches: (Str, Str) -> bool, isURL: Str -> bool, runes: Str -> nat)

  datatype Format = NoFormat | DateTime | Uuid

  datatype Check =
    | MinLen(n: real)
    | MaxLen(n: real)
    | LenEq(n: real)
    | Pattern(format: Format, source: Str)
    | Url
    | Int
    | Gt(n: real)
    | Gte(n: real)
    | Lte(n: real)
    | Refine(f: Json -> bool)
  {
    predicate IsLength() { MinLen? || MaxLen? || LenEq? }
  }

  const MAX_SAFE := 9007199254740991.0

  // Document keywords (section 6 of JSON Schema Validation draft-07), and Name
  // for every other key a document carries (description, examples and so on).
  datatype Key =
    | KwType | KwConst | KwEnum
    | KwProperties | KwRequired | KwAdditional | KwPropertyNames
    | KwItems | KwMinItems | KwMaxItems
    | KwMinLength | KwMaxLength | KwPattern
    | KwMinimum | KwMaximum | KwExclusiveMinimum
    | KwAnyOf | KwNot
    | KwFormat | KwDefault | KwSchema
    | Name(name: Str)

  // The keys that only annotate.
  predicate Annotation(k: Key) { k.KwFormat? || k.KwDefault? || k.KwSchema? || k.Name? }

  datatype Meta = Meta(key: Key, value: Json)
  datatype Field = Field(name: Str, schema: Schema)
  datatype Catch = Strip | Strict | Loose

  datatype Schema = Schema(meta: seq<Meta>, checks: seq<Check>, node: Node)

  datatype Node =
    | KString | KNumber | KBool | KNull | KUnknown | KNever
    | KLiteral(lit: Json)
    | KEnum(values: seq<Str>)
    | KObject(fields: seq<Field>, catchall: Catch, superRefine: Option<Json -> nat>)
    | KArray(elem: Schema)
    | KRecord(value: Schema)
    | KUnion(options: seq<Schema>)
    | KOptional(inner: Schema)
    | KNullable(inner: Schema)
    | KDefault(inner: Schema, def: Json)
    | KPipe(inner: Schema, transform: Json -> Json)

  function Bare(n: Node): Schema { Schema([], [], n) }

  datatype Opt = OptNone | OptOptional | OptDefaulted

  function Optin(s: Schema): Opt
    decreases s, 0
  {
    match s.node
    case KOptional(_) => OptOptional
    case KUnknown => OptOptional
    case KDefault(_, _) => OptDefaulted
    case KNullable(i) => Optin(i)
    case KPipe(i, _) => Optin(i)
    case KUnion(os) => OptinAny(os, OptNone)
    case _ => OptNone
  }

  /** The loop over a union's options, result being what it has found so far. */
  function OptinAny(os: seq<Schema>, result: Opt): Opt
    decreases os, 1
  {
    if os == [] then result
    else match Optin(os[0])
      case OptDefaulted => OptDefaulted
      case OptOptional => OptinAny(os[1..], OptOptional)
      case OptNone => OptinAny(os[1..], result)
  }

  predicate OptoutOptional(s: Schema)
    decreases s, 0
  {
    match s.node
    case KOptional(_) => true
    case KUnknown => true
    case KNullable(i) => OptoutOptional(i)
    case KUnion(os) => exists i :: 0 <= i < |os| && OptoutOptional(os[i])
    case _ => false
  }
}
