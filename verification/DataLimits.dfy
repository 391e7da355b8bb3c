/** Size accounting for managed data: payload, stored envelope, early and exact checks. */
module DataLimits {
  import opened JsonValue
  import opened Utf8
  import opened JsOrder
  import opened JsonText
  import opened ScriptEscape
  import N = JsonNumber
  import S = JsonString
  import R = JsonRoundTrip
  import X = JsonExact
  import T = Text

  const CONTRACT_VERSION: Str := [99, 111, 110, 116, 114, 97, 99, 116, 95, 118, 101, 114, 115, 105, 111, 110]
  const REFRESHED_AT: Str := [114, 101, 102, 114, 101, 115, 104, 101, 100, 95, 97, 116]
  const SOURCE_AS_OF: Str := [115, 111, 117, 114, 99, 101, 95, 97, 115, 95, 111, 102]
  const DATA: Str := [100, 97, 116, 97]
  // 2000-01-01T00:00:00.000Z
  const ORDINARY_TIMESTAMP: Str :=
    [50, 48, 48, 48, 45, 48, 49, 45, 48, 49, 84, 48, 48, 58, 48, 48, 58, 48, 48, 46, 48, 48, 48, 90]

  const ONE := Dec(false, [1], 1)

  function EscapedJSON(v: Json): Str
    requires CanonicalNumbers(v)
  {
    Escape(Print(v))
  }

  /** The stored block around a payload. */
  function Envelope(source: Str, refreshed: Str, data: Json): Json {
    Object([
      Member(CONTRACT_VERSION, Number(ONE)),
      Member(REFRESHED_AT, String(refreshed)),
      Member(SOURCE_AS_OF, String(source)),
      Member(DATA, data)])
  }

  lemma EnvelopeCanonical(source: Str, refreshed: Str, data: Json)
    requires CanonicalNumbers(data)
    ensures CanonicalNumbers(Envelope(source, refreshed, data))
  {
    hide CanonicalNumbers;
    assert CanonicalNumbers(Number(ONE)) && CanonicalNumbers(String(source)) && CanonicalNumbers(String(refreshed)) by {
      NumberCanonical(source, refreshed);
    }
    FourCanonical(Envelope(source, refreshed, data));
  }

  lemma NumberCanonical(source: Str, refreshed: Str)
    ensures CanonicalNumbers(Number(ONE)) && CanonicalNumbers(String(source)) && CanonicalNumbers(String(refreshed))
  {}

  lemma FourCanonical(v: Json)
    requires v.Object? && |v.members| == 4 && forall i :: 0 <= i < 4 ==> CanonicalNumbers(v.members[i].value)
    ensures CanonicalNumbers(v)
  {}

  function EnvelopeOverhead(source: Str, refreshed: Str): int {
    EnvelopeCanonical(source, refreshed, Object([]));
    |EscapedJSON(Envelope(source, refreshed, Object([])))| - 2
  }

  // ── sizes add up ──────────

  /** Escaping splits before any ASCII byte. */
  lemma {:induction false} EscapeConcat(a: Str, b: Str)
    requires b != [] ==> b[0] < 0x80
    ensures Escape(a + b) == Escape(a) + Escape(b)
  {
    hide Escape;
    var t := a + b;
    if a == [] {
      assert t == b;
      EmptyEscape();
    } else if IsMarkup(a[0]) {
      assert t[1..] == a[1..] + b && t[0] == a[0];
      EscapeConcat(a[1..], b);
      MarkupFirst(a);
      MarkupFirst(t);
    } else if IsSeparator(a) {
      assert t[3..] == a[3..] + b && t[0] == a[0] && t[1] == a[1] && t[2] == a[2];
      EscapeConcat(a[3..], b);
      SeparatorFirst(a);
      SeparatorFirst(t);
    } else {
      assert t[1..] == a[1..] + b && t[0] == a[0];
      StillNone(a, b);
      EscapeConcat(a[1..], b);
      OtherFirst(a);
      OtherFirst(t);
    }
  }

  lemma EmptyEscape()
    ensures Escape([]) == []
  {}

  lemma StillNone(a: Str, b: Str)
    requires a != [] && !IsSeparator(a) && (b != [] ==> b[0] < 0x80)
    ensures !IsSeparator(a + b)
  {
    var t := a + b;
    assert forall i :: 0 <= i < |a| ==> t[i] == a[i];
    if |a| < |t| && |a| <= 2 { assert t[|a|] == b[0]; }
  }

  lemma {:induction false} EscapeGrows(t: Str)
    ensures |Escape(t)| >= |t|
  {
    if t == [] {
    } else if IsMarkup(t[0]) {
      EscapeGrows(t[1..]);
    } else if IsSeparator(t) {
      EscapeGrows(t[3..]);
    } else {
      EscapeGrows(t[1..]);
    }
  }

  predicate NotIndex(key: Str) { key != [] && (key[0] < 48 || key[0] > 57) }

  lemma EnvelopeOrder(v: Json)
    requires v.Object? && forall i :: 0 <= i < |v.members| ==> NotIndex(v.members[i].key)
    ensures Enumerate(v.members) == v.members
  {
    hide Enumerate;
    forall i | 0 <= i < |v.members| ensures !IsArrayIndex(v.members[i].key) {}
    EnumerateFixed(v.members);
  }

  /** What is printed before the payload. */
  function Front(source: Str, refreshed: Str): Str {
    [OPEN_BRACE] + (S.WriteString(CONTRACT_VERSION) + [COLON] + N.FormatNumber(ONE)) + [COMMA]
      + (S.WriteString(REFRESHED_AT) + [COLON] + S.WriteString(refreshed)) + [COMMA]
      + (S.WriteString(SOURCE_AS_OF) + [COLON] + S.WriteString(source)) + [COMMA]
      + (S.WriteString(DATA) + [COLON])
  }

  lemma PrintTwo(v: Json, ms: seq<Member>)
    requires |ms| >= 2 && PartsOf(ms, v)
    ensures ms[0].value < v && CanonicalNumbers(ms[0].value) && PartsOf(ms[1..], v)
    ensures PrintMembers(v, ms) == PrintMember(v, ms[0]) + [COMMA] + PrintMembers(v, ms[1..])
  {
    hide Print, S.WriteString, CanonicalNumbers;
    assert ms[0] in ms;
  }

  lemma PrintOne(v: Json, m: Member)
    requires PartsOf([m], v)
    ensures m.value < v && CanonicalNumbers(m.value) && PrintMembers(v, [m]) == PrintMember(v, m)
  {
    hide Print, S.WriteString, CanonicalNumbers;
    assert m in [m];
  }

  /** The printed envelope is a front that does not depend on the payload, the payload,
      and a closing brace. */
  lemma EnvelopePrints(source: Str, refreshed: Str, data: Json)
    requires CanonicalNumbers(data)
    ensures CanonicalNumbers(Envelope(source, refreshed, data))
    ensures Print(Envelope(source, refreshed, data)) == Front(source, refreshed) + Print(data) + [CLOSE_BRACE]
  {
    EnvelopeCanonical(source, refreshed, data);
    var v := Envelope(source, refreshed, data);
    var ms := v.members;
    EnvelopeOrder(v);
    MembersArePartsOf(v);
    ObjectPrints(v);
    FourMembers(v, ms);
    MemberTexts(v, source, refreshed, data);
    hide *;
    var head := S.WriteString(DATA) + [COLON];
    Joined(PrintMember(v, ms[0]), PrintMember(v, ms[1]), PrintMember(v, ms[2]), head, Print(data));
    FrontIs(source, refreshed);
  }

  lemma FrontIs(source: Str, refreshed: Str)
    ensures Front(source, refreshed) == [OPEN_BRACE] +
      (S.WriteString(CONTRACT_VERSION) + [COLON] + N.FormatNumber(ONE)) + [COMMA]
      + (S.WriteString(REFRESHED_AT) + [COLON] + S.WriteString(refreshed)) + [COMMA]
      + (S.WriteString(SOURCE_AS_OF) + [COLON] + S.WriteString(source)) + [COMMA]
      + (S.WriteString(DATA) + [COLON])
  {
    hide S.WriteString, N.FormatNumber;
  }

  const HEAD: Str := T.Ascii("{\"contract_version\":1,") + T.Ascii("\"refreshed_at\":")
  const MIDDLE: Str := T.Ascii(",\"source_as_of\":")
  const LAST: Str := T.Ascii(",\"data\":")

  /** The stored envelope, byte for byte. */
  lemma EnvelopeText(source: Str, refreshed: Str, data: Json)
    requires CanonicalNumbers(data)
    ensures CanonicalNumbers(Envelope(source, refreshed, data))
    ensures Print(Envelope(source, refreshed, data)) ==
      HEAD + S.WriteString(refreshed) + MIDDLE + S.WriteString(source) + LAST + Print(data) + [125]
  {
    EnvelopePrints(source, refreshed, data);
    PlainKeys();
    OneWritten();
    hide Print, CanonicalNumbers, Envelope, S.WriteString, N.FormatNumber;
    PlainWritten(CONTRACT_VERSION);
    PlainWritten(REFRESHED_AT);
    PlainWritten(SOURCE_AS_OF);
    PlainWritten(DATA);
    HeadIs();
    MiddleIs();
    LastIs();
    FrontTexts(S.WriteString(refreshed), S.WriteString(source));
  }

  lemma FrontTexts(r: Str, s: Str)
    requires HEAD == [OPEN_BRACE] + ([34] + CONTRACT_VERSION + [34] + [COLON] + [49]) + [COMMA]
      + ([34] + REFRESHED_AT + [34] + [COLON])
    requires MIDDLE == [COMMA] + ([34] + SOURCE_AS_OF + [34] + [COLON])
    requires LAST == [COMMA] + ([34] + DATA + [34] + [COLON])
    ensures HEAD + r + MIDDLE + s + LAST ==
      [OPEN_BRACE] + ([34] + CONTRACT_VERSION + [34] + [COLON] + [49]) + [COMMA]
      + ([34] + REFRESHED_AT + [34] + [COLON] + r) + [COMMA]
      + ([34] + SOURCE_AS_OF + [34] + [COLON] + s) + [COMMA]
      + ([34] + DATA + [34] + [COLON])
  {}

  lemma HeadIs()
    ensures HEAD == [OPEN_BRACE] + ([34] + CONTRACT_VERSION + [34] + [COLON] + [49]) + [COMMA]
      + ([34] + REFRESHED_AT + [34] + [COLON])
  {
    VersionText();
    RefreshedText();
    hide T.Ascii, CONTRACT_VERSION, REFRESHED_AT;
  }

  lemma VersionText()
    ensures T.Ascii("{\"contract_version\":1,") ==
      [OPEN_BRACE] + ([34] + CONTRACT_VERSION + [34] + [COLON] + [49]) + [COMMA]
  {}

  lemma RefreshedText()
    ensures T.Ascii("\"refreshed_at\":") == [34] + REFRESHED_AT + [34] + [COLON]
  {}

  lemma MiddleIs()
    ensures MIDDLE == [COMMA] + ([34] + SOURCE_AS_OF + [34] + [COLON])
  {}

  lemma LastIs()
    ensures LAST == [COMMA] + ([34] + DATA + [34] + [COLON])
  {}

  lemma TimestampIs()
    ensures ORDINARY_TIMESTAMP == T.Ascii("2000-01-01T00:00:00.000Z")
  {}

  lemma ObjectPrints(v: Json)
    requires v.Object? && CanonicalNumbers(v) && Enumerate(v.members) == v.members && PartsOf(v.members, v)
    ensures Print(v) == [OPEN_BRACE] + PrintMembers(v, v.members) + [CLOSE_BRACE]
  {
    hide PrintMembers, Enumerate, CanonicalNumbers;
  }

  lemma FourMembers(v: Json, ms: seq<Member>)
    requires |ms| == 4 && PartsOf(ms, v)
    ensures forall i :: 0 <= i < 4 ==> ms[i].value < v && CanonicalNumbers(ms[i].value)
    ensures PrintMembers(v, ms) == PrintMember(v, ms[0]) + [COMMA] +
      (PrintMember(v, ms[1]) + [COMMA] + (PrintMember(v, ms[2]) + [COMMA] + PrintMember(v, ms[3])))
  {
    hide PrintMembers, PrintMember, CanonicalNumbers;
    forall i | 0 <= i < 4 ensures ms[i].value < v && CanonicalNumbers(ms[i].value) { assert ms[i] in ms; }
    PrintTwo(v, ms);
    PrintTwo(v, ms[1..]);
    PrintTwo(v, ms[1..][1..]);
    assert ms[1..][1..][1..] == [ms[3]];
    PrintOne(v, ms[3]);
  }

  lemma MemberTexts(v: Json, source: Str, refreshed: Str, data: Json)
    requires v == Envelope(source, refreshed, data) && PartsOf(v.members, v)
    requires forall i :: 0 <= i < 4 ==> v.members[i].value < v && CanonicalNumbers(v.members[i].value)
    ensures PrintMember(v, v.members[0]) == S.WriteString(CONTRACT_VERSION) + [COLON] + N.FormatNumber(ONE)
    ensures PrintMember(v, v.members[1]) == S.WriteString(REFRESHED_AT) + [COLON] + S.WriteString(refreshed)
    ensures PrintMember(v, v.members[2]) == S.WriteString(SOURCE_AS_OF) + [COLON] + S.WriteString(source)
    ensures PrintMember(v, v.members[3]) == S.WriteString(DATA) + [COLON] + Print(data)
  {
    hide S.WriteString, N.FormatNumber, CanonicalNumbers;
  }

  lemma Joined(a: Str, b: Str, c: Str, k: Str, p: Str)
    ensures [OPEN_BRACE] + (a + [COMMA] + (b + [COMMA] + (c + [COMMA] + (k + p)))) + [CLOSE_BRACE]
      == [OPEN_BRACE] + a + [COMMA] + b + [COMMA] + c + [COMMA] + k + p + [CLOSE_BRACE]
  {}

  lemma FirstAscii(v: Json)
    requires CanonicalNumbers(v)
    ensures Print(v) != [] && Print(v)[0] < 0x80
  {
    hide N.FormatNumber, S.WriteString, PrintElems, PrintMembers, Enumerate;
    match v
    case Number(n) => if !n.Inf? { NumberAscii(n); }
    case String(s) => R.Quoted(s);
    case Array(_) => assert Print(v)[0] == OPEN_BRACKET;
    case Object(_) => assert Print(v)[0] == OPEN_BRACE;
    case _ =>
  }

  lemma NumberAscii(n: Num)
    requires Canonical(n) && !n.Inf?
    ensures N.FormatNumber(n) != [] && N.FormatNumber(n)[0] < 0x80
  {
    hide N.FormatNumber, N.ScanNumber, N.Denote;
    R.NegativeZeroText();
    N.FormatScans(if n.Zero? then Zero(false) else n, []);
  }

  lemma EmptyPrints()
    ensures CanonicalNumbers(Object([])) && Print(Object([])) == [OPEN_BRACE, CLOSE_BRACE]
    ensures Escape([OPEN_BRACE, CLOSE_BRACE]) == [OPEN_BRACE, CLOSE_BRACE] && Escape([CLOSE_BRACE]) == [CLOSE_BRACE]
  {
    CopiedPrefix([OPEN_BRACE, CLOSE_BRACE], []);
    CopiedPrefix([CLOSE_BRACE], []);
    assert [OPEN_BRACE, CLOSE_BRACE] + [] == [OPEN_BRACE, CLOSE_BRACE] && [CLOSE_BRACE] + [] == [CLOSE_BRACE];
    assert Escape([]) == [];
    EnvelopeOrder(Object([]));
    var v := Object([]);
    assert PrintMembers(v, []) == [];
    assert Print(v) == [OPEN_BRACE] + PrintMembers(v, []) + [CLOSE_BRACE];
  }

  lemma ClosedSize(f: Str, p: Str)
    requires p != [] && p[0] < 0x80
    ensures |Escape(f + p + [CLOSE_BRACE])| == |Escape(f)| + |Escape(p)| + 1
  {
    EmptyPrints();
    hide *;
    assert f + p + [CLOSE_BRACE] == f + (p + [CLOSE_BRACE]);
    EscapeConcat(f, p + [CLOSE_BRACE]);
    ClosingAscii();
    EscapeConcat(p, [CLOSE_BRACE]);
  }

  lemma ClosingAscii()
    ensures CLOSE_BRACE < 0x80
  {}

  lemma StoredSize(source: Str, refreshed: Str, data: Json)
    requires CanonicalNumbers(data)
    ensures CanonicalNumbers(Envelope(source, refreshed, data))
    ensures |EscapedJSON(Envelope(source, refreshed, data))| ==
      |Escape(Front(source, refreshed))| + |EscapedJSON(data)| + 1
  {
    hide Front, Print, Escape, CanonicalNumbers, Envelope;
    EnvelopePrints(source, refreshed, data);
    FirstAscii(data);
    ClosedSize(Front(source, refreshed), Print(data));
  }

  /** MAIN: the stored envelope's size is its overhead plus the escaped payload's. */
  lemma EnvelopeSize(source: Str, refreshed: Str, data: Json)
    requires CanonicalNumbers(data)
    ensures CanonicalNumbers(Envelope(source, refreshed, data))
    ensures |EscapedJSON(Envelope(source, refreshed, data))| ==
      EnvelopeOverhead(source, refreshed) + |EscapedJSON(data)|
  {
    EmptyPrints();
    StoredSize(source, refreshed, data);
    StoredSize(source, refreshed, Object([]));
    hide Front, Print, Escape, CanonicalNumbers, Envelope;
  }

  // ── the least overhead ──────────

  lemma {:induction false} FastGrows(s: Str)
    ensures |S.WriteFast(s)| >= |s|
  {
    if s != [] {
      FastGrows(s[1..]);
      EscapeByteGrows(s[0]);
    }
    hide S.EscapeByte;
  }

  lemma EscapeByteGrows(c: byte)
    ensures |S.EscapeByte(c)| >= 1
  {}

  lemma {:induction false} SlowGrows(s: Str)
    ensures |S.WriteSlow(s)| >= |s|
    decreases |s|
  {
    hide S.EscapeByte, S.TripleValue;
    if s == [] {
    } else if s[0] < 0x80 {
      SlowGrows(s[1..]);
      EscapeByteGrows(s[0]);
    } else if S.IsTriple(s) {
      SlowGrows(s[3..]);
    } else {
      var n := SeqLen(s);
      SlowGrows(if n == 0 then s[1..] else s[n..]);
    }
  }

  lemma WrittenSize(s: Str)
    ensures |Escape(S.WriteString(s))| >= |s| + 2
  {
    FastGrows(s);
    SlowGrows(s);
    hide S.WriteFast, S.WriteSlow;
    EscapeGrows(S.WriteString(s));
  }

  lemma PlainTextSize(t: Str)
    requires forall i :: 0 <= i < |t| ==> Copied(t[i]) && S.Verbatim(t[i])
    ensures |Escape(S.WriteString(t))| == |t| + 2
  {
    hide S.WriteFast, S.WriteSlow, Escape;
    assert t + [] == t;
    AsciiValid(t, []);
    S.VerbatimRun(t, []);
    NothingEscapes();
    var w := S.WriteString(t);
    assert w == [S.QUOTE] + t + [S.QUOTE];
    assert forall i :: 0 <= i < |w| ==> Copied(w[i]);
    CopiedPrefix(w, []);
    assert w + [] == w;
  }

  lemma OrdinaryTimestampSize()
    ensures |Escape(S.WriteString(ORDINARY_TIMESTAMP))| == 26 && |ORDINARY_TIMESTAMP| == 24
  {
    OrdinaryBytes();
    assert |ORDINARY_TIMESTAMP| == 24;
    hide *;
    PlainTextSize(ORDINARY_TIMESTAMP);
  }

  lemma PlainWritten(t: Str)
    requires forall i :: 0 <= i < |t| ==> Copied(t[i]) && S.Verbatim(t[i])
    ensures S.WriteString(t) == [34] + t + [34]
  {
    hide S.WriteFast, S.WriteSlow;
    assert t + [] == t;
    AsciiValid(t, []);
    S.VerbatimRun(t, []);
    NothingEscapes();
  }

  lemma NothingEscapes()
    ensures Escape([]) == [] && S.WriteFast([]) == []
  {}

  lemma OrdinaryBytes()
    ensures forall i :: 0 <= i < 24 ==> Copied(ORDINARY_TIMESTAMP[i]) && S.Verbatim(ORDINARY_TIMESTAMP[i])
    ensures forall i :: 0 <= i < 24 ==> ORDINARY_TIMESTAMP[i] < 0x80
  {}

  // The parts of the front that hold no timestamp.
  const BEFORE_REFRESHED: Str :=
    [OPEN_BRACE] + (S.WriteString(CONTRACT_VERSION) + [COLON] + N.FormatNumber(ONE)) + [COMMA] +
      (S.WriteString(REFRESHED_AT) + [COLON])

  const BETWEEN: Str := [COMMA] + (S.WriteString(SOURCE_AS_OF) + [COLON])

  const AFTER_SOURCE: Str := [COMMA] + (S.WriteString(DATA) + [COLON])

  lemma FrontParts(source: Str, refreshed: Str)
    ensures Front(source, refreshed)
      == BEFORE_REFRESHED + (S.WriteString(refreshed) + (BETWEEN + (S.WriteString(source) + AFTER_SOURCE)))
    ensures BETWEEN != [] && BETWEEN[0] < 0x80 && AFTER_SOURCE != [] && AFTER_SOURCE[0] < 0x80
  {
    hide S.WriteString, N.FormatNumber;
    var a := S.WriteString(CONTRACT_VERSION) + [COLON] + N.FormatNumber(ONE);
    Regrouped([OPEN_BRACE] + a + [COMMA], S.WriteString(REFRESHED_AT), S.WriteString(refreshed),
      S.WriteString(SOURCE_AS_OF), S.WriteString(source), S.WriteString(DATA));
  }

  lemma Regrouped(x: Str, k1: Str, r: Str, k2: Str, s: Str, k3: Str)
    ensures x + (k1 + [COLON] + r) + [COMMA] + (k2 + [COLON] + s) + [COMMA] + (k3 + [COLON])
      == x + (k1 + [COLON]) + (r + (([COMMA] + (k2 + [COLON])) + (s + ([COMMA] + (k3 + [COLON])))))
  {}

  lemma FrontSize(source: Str, refreshed: Str)
    ensures |Escape(Front(source, refreshed))| ==
      |Escape(BEFORE_REFRESHED)| + |Escape(BETWEEN)| + |Escape(AFTER_SOURCE)|
      + |Escape(S.WriteString(source))| + |Escape(S.WriteString(refreshed))|
  {
    FrontParts(source, refreshed);
    R.Quoted(source);
    R.Quoted(refreshed);
    assert S.WriteString(source)[0] < 0x80 && S.WriteString(refreshed)[0] < 0x80;
    hide *;
    var d := AFTER_SOURCE;
    var c := S.WriteString(source) + d;
    var b := BETWEEN + c;
    var a := S.WriteString(refreshed) + b;
    assert c[0] == S.WriteString(source)[0] && b[0] == BETWEEN[0] && a[0] == S.WriteString(refreshed)[0];
    EscapeConcat(BEFORE_REFRESHED, a);
    EscapeConcat(S.WriteString(refreshed), b);
    EscapeConcat(BETWEEN, c);
    EscapeConcat(S.WriteString(source), d);
  }

  /** MinEnvelopeOverheadBytes */
  function MinOverhead(): int { EnvelopeOverhead(ORDINARY_TIMESTAMP, ORDINARY_TIMESTAMP) }

  /** No timestamps of at least 24 bytes give a smaller overhead than the ordinary ones. */
  lemma OverheadLeast(source: Str, refreshed: Str)
    requires |source| >= 24 && |refreshed| >= 24
    ensures MinOverhead() <= EnvelopeOverhead(source, refreshed)
  {
    EmptyPrints();
    StoredSize(source, refreshed, Object([]));
    StoredSize(ORDINARY_TIMESTAMP, ORDINARY_TIMESTAMP, Object([]));
    FrontSize(source, refreshed);
    FrontSize(ORDINARY_TIMESTAMP, ORDINARY_TIMESTAMP);
    WrittenSize(source);
    WrittenSize(refreshed);
    OrdinaryTimestampSize();
    hide Front, Print, Escape, CanonicalNumbers, Envelope, S.WriteString;
  }

  lemma OneWritten()
    ensures N.FormatNumber(ONE) == [49]
  {
    assert N.ZeroDigits(0) == [];
    assert N.Text([1]) == [49] && N.Text([]) == [];
  }

  lemma PlainKeys()
    ensures forall i :: 0 <= i < 16 ==> Copied(CONTRACT_VERSION[i]) && S.Verbatim(CONTRACT_VERSION[i])
    ensures forall i :: 0 <= i < 12 ==> Copied(REFRESHED_AT[i]) && S.Verbatim(REFRESHED_AT[i])
    ensures forall i :: 0 <= i < 12 ==> Copied(SOURCE_AS_OF[i]) && S.Verbatim(SOURCE_AS_OF[i])
    ensures forall i :: 0 <= i < 4 ==> Copied(DATA[i]) && S.Verbatim(DATA[i])
  {}

  predicate AllCopied(t: Str) { forall i :: 0 <= i < |t| ==> Copied(t[i]) }

  lemma KeyCopied(before: Str, key: Str)
    requires AllCopied(before) && AllCopied(key) && forall i :: 0 <= i < |key| ==> S.Verbatim(key[i])
    ensures var t := before + (S.WriteString(key) + [COLON]);
      AllCopied(t) && |t| == |before| + |key| + 3 && |Escape(t)| == |t|
  {
    PlainWritten(key);
    assert AllCopied([34] + key + [34]);
    hide S.WriteString, Escape;
    CopiedSize(before + (S.WriteString(key) + [COLON]));
  }

  /** The least overhead is 114 bytes. */
  lemma MinOverheadIs()
    ensures MinOverhead() == 114
  {
    EmptyPrints();
    StoredSize(ORDINARY_TIMESTAMP, ORDINARY_TIMESTAMP, Object([]));
    FrontSize(ORDINARY_TIMESTAMP, ORDINARY_TIMESTAMP);
    OrdinaryTimestampSize();
    PartSizes();
    hide Front, Print, Escape, CanonicalNumbers, Envelope, S.WriteString;
  }

  lemma PartSizes()
    ensures |Escape(BEFORE_REFRESHED)| == 37 && |Escape(BETWEEN)| == 16 && |Escape(AFTER_SOURCE)| == 8
  {
    PlainKeys();
    OneWritten();
    hide Escape, S.WriteString, N.FormatNumber, S.Verbatim;
    KeyCopied([COMMA], SOURCE_AS_OF);
    KeyCopied([COMMA], DATA);
    KeyCopied([OPEN_BRACE], CONTRACT_VERSION);
    var t := [OPEN_BRACE] + (S.WriteString(CONTRACT_VERSION) + [COLON]);
    VersionThen(t);
    KeyCopied(t + [49] + [COMMA], REFRESHED_AT);
    BeforeIs(S.WriteString(CONTRACT_VERSION), S.WriteString(REFRESHED_AT) + [COLON]);
  }

  lemma VersionThen(t: Str)
    requires AllCopied(t)
    ensures AllCopied(t + [49] + [COMMA])
  {}

  lemma BeforeIs(w: Str, r: Str)
    ensures [OPEN_BRACE] + (w + [COLON] + [49]) + [COMMA] + r == [OPEN_BRACE] + (w + [COLON]) + [49] + [COMMA] + r
  {}

  lemma CopiedSize(t: Str)
    requires AllCopied(t)
    ensures |Escape(t)| == |t|
  {
    hide Escape;
    CopiedPrefix(t, []);
    NothingEscapes();
    assert t + [] == t;
  }

  // ── the checks ──────────

  datatype DataSize = DataSize(payload: nat, escaped: nat)

  function MeasureData(data: Json): DataSize
    requires CanonicalNumbers(data)
  {
    DataSize(|Print(data)|, |Escape(Print(data))|)
  }

  datatype Boundary = PayloadLimit | EnvelopeLimit

  datatype Verdict = Accepted | Malformed | TooLarge(boundary: Boundary, bytes: int)

  function AssertDomainSize(size: int, boundary: Boundary, limit: nat): Verdict {
    if size <= limit then Accepted else TooLarge(boundary, size)
  }

  const MAX_SAFE := 9007199254740991

  /** isSafeNonNegInt: a whole number no further from zero than 2^53 - 1. */
  function SafeInt(v: Option<Json>): Option<int> {
    if v.None? || !v.value.Number? then None
    else match v.value.n
      case Zero(_) => Some(0)
      case Inf(_) => None
      case Dec(neg, ds, p) =>
        if p < |ds| then None
        else
          var m: int := Natural(ds) * TenTo(p - |ds|);
          if m > MAX_SAFE then None else Some(if neg then -m else m)
  }

  const PAYLOAD_BYTES: Str := [112, 97, 121, 108, 111, 97, 100, 95, 98, 121, 116, 101, 115]
  const ESCAPED_BYTES: Str := [101, 115, 99, 97, 112, 101, 100, 95] + PAYLOAD_BYTES

  /** The two sizes a data_size argument states. */
  function Stated(size: Json): Option<(int, int)> {
    if !size.Object? || |size.members| != 2 then None
    else match (SafeInt(Find(size.members, PAYLOAD_BYTES)), SafeInt(Find(size.members, ESCAPED_BYTES)))
      case (Some(p), Some(e)) => Some((p, e))
      case _ => None
  }

  /** AssertStagedDataSize */
  function AssertStaged(isData: bool, size: Option<Json>, limit: nat): Verdict {
    if size.None? then Accepted
    else if !isData then Malformed
    else match Stated(size.value)
      case None => Malformed
      case Some((p, e)) =>
        if p < 0 || e < p then Malformed
        else if AssertDomainSize(p, PayloadLimit, limit) != Accepted then AssertDomainSize(p, PayloadLimit, limit)
        else AssertDomainSize(e + MinOverhead(), EnvelopeLimit, limit)
  }

  // ── what a size argument states ──────────

  /** The number k, whole and at most 2^53 - 1 either way. */
  predicate IsWhole(v: Json, k: int) {
    v.Number? && !v.n.Inf? && Val(v.n) == k as real && -9007199254740991 <= k <= 9007199254740991
  }

  lemma {:induction false} PowIsTen(k: nat)
    ensures Pow10(k) == TenTo(k) as real
  {
    if k > 0 {
      PowIsTen(k - 1);
      TenMore(TenTo(k - 1));
    }
  }

  lemma TenMore(n: nat)
    ensures (10 * n) as real == 10.0 * n as real
  {}

  lemma WholeValue(ds: seq<digit>, e: nat)
    ensures Natural(ds) as real * Pow10(e) == (Natural(ds) * TenTo(e)) as real
  {
    PowIsTen(e);
    hide Natural, Pow10, TenTo;
    Product(Natural(ds), TenTo(e));
  }

  lemma Product(m: nat, n: nat)
    ensures m as real * n as real == (m * n) as real
  {}

  // Digits that end behind the point, the last of them not zero, denote no whole number.
  lemma FractionNotWhole(ds: seq<digit>, j: int, k: int)
    requires ds != [] && ds[|ds| - 1] != 0 && j > 0
    ensures Natural(ds) as real * Pow10(-j) != k as real
  {
    var m := Natural(ds);
    var p := TenTo(j - 1);
    assert m % 10 == ds[|ds| - 1] as int;
    X.PowAdds(-j, j);
    PowIsTen(j);
    assert TenTo(j) == 10 * p && Pow10(0) == 1.0 && -j + j == 0;
    hide Natural, Pow10, TenTo;
    if m as real * Pow10(-j) == k as real { ScaledBack(m, Pow10(-j), k, p); }
  }

  lemma ScaledBack(m: nat, small: real, k: int, p: nat)
    requires m as real * small == k as real && X.Mul(small, (10 * p) as real) == 1.0
    ensures m % 10 == 0
  {
    var q := (10 * p) as real;
    Regrouped3(m as real, small, q);
    assert m as real == k as real * q;
    IntProduct(k, 10 * p);
    assert m == k * (10 * p);
    TenDivides(k, p);
  }

  lemma Regrouped3(a: real, b: real, c: real)
    requires b * c == 1.0
    ensures a == (a * b) * c
  {
    assert a * (b * c) == (a * b) * c;
  }

  lemma IntProduct(a: int, b: int)
    ensures a as real * b as real == (a * b) as real
  {}

  lemma TenDivides(k: int, p: int)
    ensures (k * (10 * p)) % 10 == 0
  {
    assert k * (10 * p) == 10 * (k * p);
  }

  function Digits(ds: seq<digit>, e: nat): nat { Natural(ds) * TenTo(e) }

  lemma WholeIs(v: Json, k: int)
    requires v.Number? && v.n.Dec? && v.n.point >= |v.n.digits|
    ensures var m: int := Digits(v.n.digits, v.n.point - |v.n.digits|);
      && (IsWhole(v, k) <==> k == (if v.n.neg then -m else m) && m <= 9007199254740991)
      && (SafeInt(Some(v)) == Some(k) <==> k == (if v.n.neg then -m else m) && m <= 9007199254740991)
  {
    var e := v.n.point - |v.n.digits|;
    WholeValue(v.n.digits, e);
    SafeIs(v, k);
    hide SafeInt;
    var m: int := Digits(v.n.digits, e);
    assert Val(v.n) == if v.n.neg then -(m as real) else m as real;
    hide Val, Digits;
  }

  lemma SafeIs(v: Json, k: int)
    requires v.Number? && v.n.Dec? && v.n.point >= |v.n.digits|
    ensures var m: int := Digits(v.n.digits, v.n.point - |v.n.digits|);
      SafeInt(Some(v)) == Some(k) <==> k == (if v.n.neg then -m else m) && m <= 9007199254740991
  {}

  lemma SafeIntIs(v: Json, k: int)
    requires CanonicalNumbers(v)
    ensures SafeInt(Some(v)) == Some(k) <==> IsWhole(v, k)
  {
    if v.Number? && v.n.Dec? {
      if v.n.point < |v.n.digits| {
        FractionNotWhole(v.n.digits, |v.n.digits| - v.n.point, k);
        FractionNotWhole(v.n.digits, |v.n.digits| - v.n.point, -k);
      } else {
        WholeIs(v, k);
      }
    }
  }

  const PAYLOAD_KEY: Str := T.Ascii("payload_bytes")
  const ESCAPED_KEY: Str := T.Ascii("escaped_payload_bytes")

  /** An object of exactly these two members, in either order, with these whole numbers. */
  ghost predicate States(size: Json, payload: int, escaped: int) {
    exists a, b :: IsWhole(a, payload) && IsWhole(b, escaped) &&
      (size == Object([Member(PAYLOAD_KEY, a), Member(ESCAPED_KEY, b)])
       || size == Object([Member(ESCAPED_KEY, b), Member(PAYLOAD_KEY, a)]))
  }

  lemma KeysAre()
    ensures PAYLOAD_KEY == PAYLOAD_BYTES && ESCAPED_KEY == ESCAPED_BYTES && PAYLOAD_KEY != ESCAPED_KEY
  {
    assert |PAYLOAD_KEY| != |ESCAPED_KEY|;
  }

  lemma PairFound(ms: seq<Member>, k: Str, l: Str, a: Json, b: Json)
    requires k != l && ms == [Member(k, a), Member(l, b)]
    ensures Find(ms, k) == Some(a) && Find(ms, l) == Some(b)
  {
    assert ms[1..] == [Member(l, b)] && ms[1..][0].key == l;
  }

  lemma PairOnly(ms: seq<Member>, k: Str, l: Str) returns (a: Json, b: Json)
    requires k != l && |ms| == 2 && Find(ms, k).Some? && Find(ms, l).Some?
    ensures ms == [Member(k, a), Member(l, b)] || ms == [Member(l, b), Member(k, a)]
    ensures Find(ms, k) == Some(a) && Find(ms, l) == Some(b)
  {
    a, b := Find(ms, k).value, Find(ms, l).value;
    assert ms[1..] == [ms[1]] && ms[1..][1..] == [];
    assert Find(ms[1..][1..], k) == None && Find(ms[1..][1..], l) == None;
  }

  lemma StatedIs(size: Json, p: int, e: int)
    requires CanonicalNumbers(size)
    ensures Stated(size) == Some((p, e)) <==> States(size, p, e)
  {
    KeysAre();
    var k, l := PAYLOAD_KEY, ESCAPED_KEY;
    hide SafeInt, IsWhole, Find, PAYLOAD_KEY, ESCAPED_KEY, PAYLOAD_BYTES, ESCAPED_BYTES;
    if Stated(size) == Some((p, e)) {
      assert SafeInt(None).None? by { NothingSafe(); }
      var a, b := PairOnly(size.members, k, l);
      SafeIntIs(a, p);
      SafeIntIs(b, e);
    }
    if States(size, p, e) {
      var a, b :| IsWhole(a, p) && IsWhole(b, e) &&
        (size == Object([Member(k, a), Member(l, b)]) || size == Object([Member(l, b), Member(k, a)]));
      var ms := size.members;
      assert Member(k, a) in ms && Member(l, b) in ms;
      if ms[0].key == k { PairFound(ms, k, l, a, b); } else { PairFound(ms, l, k, b, a); }
      SafeIntIs(a, p);
      SafeIntIs(b, e);
    }
  }

  lemma NothingSafe()
    ensures SafeInt(None) == None
  {}

  /** MAIN: the early check passes an absent size, is malformed when a size comes with no data or
      states no two sizes with 0 <= payload <= escaped, and otherwise refuses, the payload first,
      what is over the limit. */
  lemma StagedIs(isData: bool, size: Json, p: int, e: int, limit: nat)
    requires CanonicalNumbers(size)
    ensures AssertStaged(isData, None, limit) == Accepted
    ensures (!isData || forall p', e' :: States(size, p', e') ==> p' < 0 || e' < p')
      ==> AssertStaged(isData, Some(size), limit) == Malformed
    ensures isData && States(size, p, e) && 0 <= p <= e ==>
      AssertStaged(isData, Some(size), limit) ==
        if p > limit then TooLarge(PayloadLimit, p)
        else if e + MinOverhead() > limit then TooLarge(EnvelopeLimit, e + MinOverhead())
        else Accepted
  {
    hide Stated, States, MinOverhead;
    StatedIs(size, p, e);
    if Stated(size).Some? {
      var (p', e') := Stated(size).value;
      StatedIs(size, p', e');
    }
  }

  /** MAIN: the early check never refuses a truthfully measured payload whose exact
      envelope fits, given timestamps of at least 24 bytes. */
  lemma StagedFits(data: Json, size: Json, source: Str, refreshed: Str, limit: nat)
    requires CanonicalNumbers(data) && CanonicalNumbers(size) && |source| >= 24 && |refreshed| >= 24
    requires States(size, |Print(data)|, |EscapedJSON(data)|) && |Print(data)| <= limit
    requires CanonicalNumbers(Envelope(source, refreshed, data))
    requires |EscapedJSON(Envelope(source, refreshed, data))| <= limit
    ensures AssertStaged(true, Some(size), limit) == Accepted
  {
    hide States, Print, Escape, CanonicalNumbers, Envelope, EnvelopeOverhead, AssertStaged;
    StagedIs(true, size, |Print(data)|, |EscapedJSON(data)|, limit);
    EnvelopeSize(source, refreshed, data);
    OverheadLeast(source, refreshed);
    EscapeGrows(Print(data));
  }

  /** With ordinary timestamps the early check is exact. */
  lemma StagedExact(data: Json, size: Json, limit: nat)
    requires CanonicalNumbers(data) && CanonicalNumbers(size)
    requires States(size, |Print(data)|, |EscapedJSON(data)|)
    ensures CanonicalNumbers(Envelope(ORDINARY_TIMESTAMP, ORDINARY_TIMESTAMP, data))
    ensures AssertStaged(true, Some(size), limit) == Accepted <==>
      && |Print(data)| <= limit
      && |EscapedJSON(Envelope(ORDINARY_TIMESTAMP, ORDINARY_TIMESTAMP, data))| <= limit
  {
    hide States, Print, Escape, CanonicalNumbers, Envelope, EnvelopeOverhead, AssertStaged;
    StagedIs(true, size, |Print(data)|, |EscapedJSON(data)|, limit);
    EnvelopeSize(ORDINARY_TIMESTAMP, ORDINARY_TIMESTAMP, data);
    EscapeGrows(Print(data));
  }

  datatype Usage = Usage(payload: int, envelope: int, limit: int, headroom: int)

  function UsageOf(payload: int, envelope: int, limit: int): Usage {
    Usage(payload, envelope, limit, limit - if envelope > payload then envelope else payload)
  }

  function MeasureUsage(data: Json, limit: int): Usage
    requires CanonicalNumbers(data)
  {
    UsageOf(MeasureData(data).payload, MeasureData(data).escaped + MinOverhead(), limit)
  }

  /** A write's usage: its payload, its envelope, and what the limit leaves above the larger. */
  lemma UsageIs(data: Json, envelope: int, limit: int)
    requires CanonicalNumbers(data)
    ensures var u := UsageOf(|Print(data)|, envelope, limit);
      && u.payload == |Print(data)| && u.envelope == envelope && u.limit == limit
      && u.payload + u.headroom <= limit && u.envelope + u.headroom <= limit
      && (u.payload + u.headroom == limit || u.envelope + u.headroom == limit)
    ensures MeasureUsage(data, limit) == UsageOf(|Print(data)|, |EscapedJSON(data)| + MinOverhead(), limit)
  {
    hide Print, Escape, CanonicalNumbers, MinOverhead;
  }

  /** The estimated headroom is never less than what an actual write will have, and
      what it reports left covers both budgets. */
  lemma HeadroomIsUpperBound(data: Json, source: Str, refreshed: Str, limit: int)
    requires CanonicalNumbers(data) && CanonicalNumbers(Envelope(source, refreshed, data)) && |source| >= 24 &&
      |refreshed| >= 24
    ensures var payload, envelope := |Print(data)|, |EscapedJSON(Envelope(source, refreshed, data))|;
            var exact := UsageOf(payload, envelope, limit);
      && exact.headroom <= MeasureUsage(data, limit).headroom
      && (exact.headroom >= 0 <==> payload <= limit && envelope <= limit)
      && payload + exact.headroom <= limit && envelope + exact.headroom <= limit
  {
    hide Print, Escape, CanonicalNumbers, Envelope, EnvelopeOverhead;
    EnvelopeSize(source, refreshed, data);
    OverheadLeast(source, refreshed);
  }
}
