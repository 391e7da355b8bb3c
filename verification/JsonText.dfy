/** JSON.stringify and JSON.parse over the value model (RFC 8259). */
module JsonText {
  import opened JsonValue
  import opened Utf8
  import opened JsOrder
  import N = JsonNumber
  import S = JsonString

  const COMMA: byte := 44
  const COLON: byte := 58
  const OPEN_BRACKET: byte := 91
  const CLOSE_BRACKET: byte := 93
  const OPEN_BRACE: byte := 123
  const CLOSE_BRACE: byte := 125
  const NULL_TEXT: Str := [110, 117, 108, 108]
  const TRUE_TEXT: Str := [116, 114, 117, 101]
  const FALSE_TEXT: Str := [102, 97, 108, 115, 101]
  const MAX_DEPTH := 10000

  // Numbers a value may hold: any double, named by its shortest digits.
  predicate CanonicalNumbers(v: Json) {
    match v
    case Number(n) => Canonical(n)
    case Array(es) => forall e :: e in es ==> CanonicalNumbers(e)
    case Object(ms) => forall m :: m in ms ==> CanonicalNumbers(m.value)
    case _ => true
  }

  // ── printing ──────────

  /** The members, all of them parts of v. */
  ghost predicate PartsOf(ms: seq<Member>, v: Json) {
    forall m :: m in ms ==> m.value < v && CanonicalNumbers(m.value)
  }

  lemma MembersArePartsOf(v: Json)
    requires v.Object? && CanonicalNumbers(v)
    ensures PartsOf(Enumerate(v.members), v)
  {
    EnumerateKeeps(v.members);
  }

  function Print(v: Json): Str
    requires CanonicalNumbers(v)
    decreases v
  {
    match v
    case Null => NULL_TEXT
    case Bool(b) => if b then TRUE_TEXT else FALSE_TEXT
    case Number(n) => if n.Inf? then NULL_TEXT else N.FormatNumber(n)
    case String(s) => S.WriteString(s)
    case Array(es) => [OPEN_BRACKET] + PrintElems(es) + [CLOSE_BRACKET]
    case Object(ms) =>
      MembersArePartsOf(v);
      [OPEN_BRACE] + PrintMembers(v, Enumerate(ms)) + [CLOSE_BRACE]
  }

  function PrintElems(es: seq<Json>): Str
    requires forall e :: e in es ==> CanonicalNumbers(e)
    decreases es
  {
    if es == [] then []
    else if |es| == 1 then Print(es[0])
    else Print(es[0]) + [COMMA] + PrintElems(es[1..])
  }

  function PrintMember(ghost v: Json, m: Member): Str
    requires m.value < v && CanonicalNumbers(m.value)
    decreases v, 0, 0
  {
    S.WriteString(m.key) + [COLON] + Print(m.value)
  }

  function PrintMembers(ghost v: Json, ms: seq<Member>): Str
    requires PartsOf(ms, v)
    decreases v, 1, |ms|
  {
    if ms == [] then []
    else
      assert ms[0] in ms;
      if |ms| == 1 then PrintMember(v, ms[0])
      else PrintMember(v, ms[0]) + [COMMA] + PrintMembers(v, ms[1..])
  }

  // ── parsing ──────────

  predicate IsWs(b: byte) { b == 32 || b == 9 || b == 10 || b == 13 }

  function Ws(t: Str): (u: Str)
    ensures |u| <= |t| && (u == [] || !IsWs(u[0]))
  {
    if t != [] && IsWs(t[0]) then Ws(t[1..]) else t
  }

  /** How this parser reads strings and numbers: strconv.ParseFloat is `round`. */
  datatype Mode = Mode(lossless: bool, round: Num -> Num)

  // A text and the value read off its front.
  type Parsed<T> = N.Scan<T>

  predicate StartsWith(t: Str, c: byte) { t != [] && t[0] == c }

  function Word(t: Str, word: Str, v: Json): (r: Parsed<Json>)
    requires word != []
    ensures r.Scanned? ==> |r.rest| < |t|
  {
    if word <= t then N.Scanned(v, t[|word|..]) else N.NoScan
  }

  function ParseValue(t: Str, depth: nat, mode: Mode): (r: Parsed<Json>)
    ensures r.Scanned? ==> |r.rest| < |t|
    decreases |t|, 0
  {
    if depth > MAX_DEPTH || t == [] then N.NoScan
    else if t[0] == OPEN_BRACE then
      var u := Ws(t[1..]);
      if StartsWith(u, CLOSE_BRACE) then N.Scanned(Object([]), u[1..]) else ParseMembers(u, depth, mode, [])
    else if t[0] == OPEN_BRACKET then
      var u := Ws(t[1..]);
      if StartsWith(u, CLOSE_BRACKET) then N.Scanned(Array([]), u[1..]) else ParseElems(u, depth, mode, [])
    else if t[0] == S.QUOTE then
      match S.ParseText(t[1..], mode.lossless)
      case NoText => N.NoScan
      case Text(s, rest) => N.Scanned(String(s), rest)
    else if t[0] == 116 then Word(t, TRUE_TEXT, Bool(true))
    else if t[0] == 102 then Word(t, FALSE_TEXT, Bool(false))
    else if t[0] == 110 then Word(t, NULL_TEXT, Null)
    else if t[0] == N.MINUS || IsDigitByte(t[0]) then
      match N.ScanNumber(t)
      case NoScan => N.NoScan
      case Scanned(l, rest) => N.Scanned(Number(mode.round(N.Denote(l))), rest)
    else N.NoScan
  }

  /** The element loop, with what it has collected. */
  function ParseElems(t: Str, depth: nat, mode: Mode, es: seq<Json>): (r: Parsed<Json>)
    ensures r.Scanned? ==> |r.rest| < |t|
    decreases |t|, 1
  {
    match ParseValue(Ws(t), depth + 1, mode)
    case NoScan => N.NoScan
    case Scanned(v, rest) =>
      var u := Ws(rest);
      if StartsWith(u, COMMA) then ParseElems(u[1..], depth, mode, es + [v])
      else if StartsWith(u, CLOSE_BRACKET) then N.Scanned(Array(es + [v]), u[1..])
      else N.NoScan
  }

  /** A key with its colon and what follows. */
  function ParseKey(t: Str, mode: Mode): (r: Parsed<Str>)
    ensures r.Scanned? ==> |r.rest| < |t|
  {
    if !StartsWith(t, S.QUOTE) then N.NoScan
    else match S.ParseText(t[1..], mode.lossless)
      case NoText => N.NoScan
      case Text(k, rest) =>
        var u := Ws(rest);
        if StartsWith(u, COLON) then N.Scanned(k, Ws(u[1..])) else N.NoScan
  }

  /** The member loop, with the object so far. */
  function ParseMembers(t: Str, depth: nat, mode: Mode, ms: seq<Member>): (r: Parsed<Json>)
    ensures r.Scanned? ==> |r.rest| < |t|
    decreases |t|, 1
  {
    match ParseKey(Ws(t), mode)
    case NoScan => N.NoScan
    case Scanned(k, t1) =>
      match ParseValue(t1, depth + 1, mode)
      case NoScan => N.NoScan
      case Scanned(v, rest) =>
        var u := Ws(rest);
        if StartsWith(u, COMMA) then ParseMembers(u[1..], depth, mode, Put(ms, k, v))
        else if StartsWith(u, CLOSE_BRACE) then N.Scanned(Object(Put(ms, k, v)), u[1..])
        else N.NoScan
  }

  /** parse: one value with white space around it and nothing else. */
  function ParseDoc(t: Str, mode: Mode): Option<Json> {
    match ParseValue(Ws(t), 0, mode)
    case NoScan => None
    case Scanned(v, rest) => if Ws(rest) == [] then Some(v) else None
  }
}
