# Pages: proofs about its core algorithms

Pages hosts dashboards and gives agents tools to publish them.  This project models the parts of its
server whose correctness rests on an argument rather than on plumbing, and proves what each part is for.
Check it with `dafny verify dfyconfig.toml`.

Each module is one component.

- **Tool schemas** (`Schema*`).  One schema tree both parses arguments and is compiled to a JSON Schema
  document (draft-07).  A denotational validity predicate for the emitted keywords, with regular expressions
  and URL and length measures uninterpreted, gives the compiler-correctness theorem: what the parser accepts
  is valid under the advertised document, and on an explicit fragment the two agree exactly.  `compact`
  preserves meaning at every depth.  Parsed values are valid under the output document and, transforms
  apart, are the input itself but for stripped keys and defaults.  `SchemaEntries` says what the document
  carries besides, and `SchemaParses` which value each kind of schema returns.
- **Refresh schedules** (`Calendar`, `Cron`, `CronWindow`, `CronParse`).  Times are minutes, dates a proved
  bijection with day numbers.  The item grammar is exact, and the schedule of a text fires exactly when its
  five fields say.  The searches are extremal, the eight-year window is long enough exactly where
  the day fields leave it so, and for every other schedule the question is reduced to one 400-year cycle.
- **JSON** (`JsOrder`, `OrderedObject`, `JsonNumber`, `JsonString`, `JsonWtf8`, `Whatwg`, `JsonText`,
  `JsonParser`, `JsonChars`, `JsonNumerals`, `JsonGrammar`, `JsonDerives`, `JsonWriter`, `JsonRoundTrip`,
  `JsonFixed`, `JsonEqual`, `JsonExact`).  The ordered object refines an insertion-ordered map; the byte
  parser refines a recursive reader, which accepts exactly the texts derivable by RFC 8259 and gives each its
  value; printing and parsing are inverse up to what printing forgets (the sign of zero, infinities, the order
  of array-index keys), exactly within the depth limit; and what is printed is fixed byte for byte.
- **Password attempts** (`TurnSystem`, `TurnHolds`, `TurnSafety`, `TurnCounts`, `TurnCharges`, `TurnLimits`,
  `Turns`).  Attempts, turns, counters, timers and a clock as a step system; safety, the escalation of delays
  and the charging of every credential tried, over every interleaving, by invariants.
- **Smaller algorithms**: byte ranges (`Ranges`), UTF-16 order and slices (`Utf16`), URL codecs (`UrlCodec`,
  `UrlQuery`, `UrlEncode`, `UrlEscapes`, `UrlExact`), the migrator with crashes (`Migrate`, `MigrateRun`), guide
  sections (`Guide`, `GuideText`), script-safe JSON and size accounting (`ScriptEscape`, `ScriptParse`,
  `DataLimits`).

Loops and mutable objects of the source are methods and classes proved against specification functions; the
lemmas are about those functions.  `Utf8`, `Text` and `JsonValue` hold what the modules share.

## Where the code does not do what it says

Each of these is a lemma with an input.  Where a theorem says exactly when the code is right, it comes
first; the conditions of the last group are sufficient ones.

- `parseRange` reads numbers as signed 64-bit integers.  A suffix length or last position from 2^63 on is
  dropped and the answer is 416, against the comment at static.go:152-157, and a signed number such as `+4` is
  taken, which no range-spec has (`Ranges.ClampExact`; `Ranges.OversizedDropped`, `Ranges.SignsTaken`).
- `DecodeURIComponent` refuses text that carries U+FFFD itself, so it does not undo `EncodeURIComponent` on
  every valid string; JavaScript's function does (`UrlCodec.DecodeEncoded`; `UrlCodec.ReplacementRefused`).
- A partial `*/n` day-of-month step combined with a weekday can be silent for longer than the window the
  comment relies on: `0 0 */30 2 1` is refused although it fires (`CronParse.RefusedIff`;
  `CronParse.StarMondayTextRefused`).
- A union with an optional branch before a defaulted one stores null for an absent field, which the output
  document refuses (`SchemaOutput.AbsentExact`, `SchemaOutput.ParsedObjectExact`;
  `SchemaLimits.OptionalBeforeDefault`).
- A section whose heading slugifies to nothing, when its stand-in `section-N` is taken, gets a slug such as
  `-2` that no caller may name (`Guide.SlugShape`; `Guide.BadDocument`).
- A failure's delay is skipped when its recording takes effect and still returns an error, when one errs after
  an earlier portal of the attempt was charged, or when it takes effect only after its five seconds
  (`TurnSafety.DelaysKept`; `TurnLimits.ErrorSkipsDelay`, `TurnLimits.CutSkipsDelay`,
  `TurnLimits.LateSkipsDelay`, each for every run that gets there).  In the same way a clear that is late can erase
  the next attempt's failure, which serve.go:469-471 rules out (`TurnSafety.ClearErasesNothingLater`;
  `TurnLimits.LateClearErases`).
- Every counter an attempt tested is charged, says serve.go:473-475.  Portals tried before the one whose password
  is right are not (`TurnCharges.TestedAreCharged`; `TurnLimits.TestedUncharged`).
- Structured content is checked by an output schema and sent as it came, so an object that strips unknown keys
  lets through what its output document refuses (`SchemaTools.StrippedContentExact`,
  `SchemaTools.ContentIffClosed`; `SchemaTools.StrippingAccepts`).  No tool meets this: every object schema in
  internal/mcp/catalog.go and internal/mcp/schemas.go is strict or loose.
- `EncodeURL` keeps valid escapes, says httpx.go:290-292.  A bad `%` takes the next character along, also when
  that is the `%` of a valid escape: `%%41` becomes `%25%2541` (`UrlEscapes.EscapesKept`;
  `UrlEscapes.EscapeLost`).
- A length check may be advertised as another one: a negative maximum as no bound
  (`SchemaMeaning.CarriedIff`; `SchemaLimits.NegativeMaxUnadvertised`).
- Only a string's last pattern is advertised, a check on a wrapper escapes `optin`, and a validation keyword in
  metadata overrides the node's own (`SchemaLimits`; `SchemaTheorems.ParseIffAdvertised` holds on a fragment
  that excludes them).

## Model

| member | source | states |
|---|---|---|
| SchemaRun.RunChecksLoop | internal/mcp/schema.go:901-937 | the check loop raises exactly the issues of the recursive definition, with the length guard and the abort rule |
| SchemaAccept.ChecksAccept | internal/mcp/schema.go:901-987 | from a clean start the checks add an issue exactly when one of them fails |
| SchemaAccept.CleanNotAborted | internal/mcp/schema.go:759-885 | a result without issues has never aborted, at any depth |
| SchemaAccept.OptionsAccept | internal/mcp/schema.go:759-885 | a union accepts exactly what one of its options accepts |
| SchemaAccept.ObjectAccepts | internal/mcp/schema.go:994-1054 | an object is accepted if and only if every field passes, strictness holds and superRefine, given the finished value, adds no issue |
| SchemaAccept.OptinNoneRejects | internal/mcp/schema.go:304-327 | a schema whose optin is none rejects an absent field, whatever its checks |
| SchemaAccept.OptinExact | internal/mcp/schema.go:304-327 | optin is none exactly when an absent field is rejected, for schemas without checks on wrappers |
| SchemaEmit.LengthBounds | internal/mcp/schema.go:470-493 | the bound loop computes the fold of the length checks |
| SchemaEmit.EmitStringLoop | internal/mcp/schema.go:495-524 | the string emitter loop computes the keywords of the fold: bounds, format, last pattern |
| SchemaEmit.EmitNumberLoop | internal/mcp/schema.go:526-567 | the number emitter loop computes the narrowed bounds, the weaker lower bound deleted |
| SchemaEmit.EmitLoop | internal/mcp/schema.go:366-455 | emit with its own loops gives the recursive document, both directions; what that document carries is in SchemaEntries |
| SchemaEmit.EmitFieldsLoop | internal/mcp/schema.go:366-455 | the field loop gives the properties and the required names of the direction |
| SchemaCompact.AddNewLoop | internal/mcp/schema.go:574-631 | the duplicate scan adds each new type name once, in order |
| SchemaCompact.UnionTypesLoop | internal/mcp/schema.go:574-631 | the member loop finds every branch's types, or none when a branch is not bare |
| SchemaCompact.CollapseMeans | internal/mcp/schema.go:574-631 | replacing an anyOf of bare types by a type array keeps the set of valid values |
| SchemaCompact.CompactMeans | internal/mcp/schema.go:574-631 | compact preserves validity of every value under every document, at every depth |
| SchemaMeaning.FoldExact | internal/mcp/schema.go:470-493 | on bounds that are carried the folded length bounds allow exactly the sizes every length check passes |
| SchemaMeaning.CarriedIff | internal/mcp/schema.go:470-493 | a length check is advertised exactly if and only if it is a whole or non-positive minimum, a non-negative maximum, or a whole non-negative length |
| SchemaMeaning.StringMeans | internal/mcp/schema.go:495-524 | an emitted string document validates exactly the strings within the folded bounds that match the last pattern |
| SchemaMeaning.NarrowMeans | internal/mcp/schema.go:526-567 | narrowing keeps exactly the numbers every check passes |
| SchemaMeaning.NumberMeans | internal/mcp/schema.go:526-567 | emitting only the stronger of minimum and exclusiveMinimum loses no constraint |
| SchemaMeaning.ObjectMeans | internal/mcp/schema.go:366-455 | the emitted object keywords together ask for the fields, the required names and, when closed, nothing else |
| SchemaTheorems.Sound | internal/mcp/schema.go:751-1054 | whatever the parser accepts the emitted input document validates, by structural induction |
| SchemaTheorems.Complete | internal/mcp/schema.go:751-1054 | on the exact fragment whatever the emitted document validates the parser accepts |
| SchemaTheorems.DocumentMeans | internal/mcp/schema.go:355-364 | the advertised document, header copied in and compacted, validates what the emitted tree does |
| SchemaTheorems.ParseIsAdvertised | internal/mcp/schema.go:737-748 | compiler soundness: every value Parse accepts is valid under the advertised input document |
| SchemaTheorems.ParseIffAdvertised | internal/mcp/schema.go:366-455 | compiler correctness: on the exact fragment Parse accepts a value if and only if the advertised document validates it |
| SchemaEntries.EmitMeta | internal/mcp/schema.go:441-443 | with distinct metadata keys the emitted document has each of them with its value, whatever the node |
| SchemaEntries.EmitInherits | internal/mcp/schema.go:444-453 | what a wrapper does not say of its own, its document says as the wrapped one does |
| SchemaEntries.EmitDefault | internal/mcp/schema.go:437-443 | a default node without metadata of its own advertises its default |
| SchemaEntries.Advertised | internal/mcp/schema.go:355-364 | the advertised document has every annotation of the emitted tree, and the draft-07 name under $schema unless metadata gives another |
| SchemaEntries.FormatAdvertised | internal/mcp/schema.go:495-524 | a string's document names the format of its last check that has one, or none |
| SchemaEntries.OptoutIff | internal/mcp/schema.go:329-347 | a parsed value may be left out exactly when a path through nullables and unions leads to an optional or unknown schema |
| SchemaEntries.OptinOfUnion | internal/mcp/schema.go:304-327 | a union defaults if an option does, and is optional if none defaults and one is |
| SchemaEntries.RequiredAdvertised | internal/mcp/schema.go:391-402 | an object's document requires exactly the fields an input must give, or an output always has |
| SchemaEntries.PropertiesInOrder | internal/mcp/schema.go:391-402 | the properties stand in the order of the fields, each once, with what the field emits |
| SchemaEntries.CollapseIff | internal/mcp/schema.go:574-631 | the rewriting happens exactly when every branch of an anyOf only names types beside no type of the document's own, and then lists each of their types once |
| SchemaEntries.CompactLeavesNone | internal/mcp/schema.go:574-631 | no document that compact leaves, at any depth, could still be collapsed |
| SchemaOutput.ParsedIsAdvertised | internal/mcp/schema.go:1005-1054 | every value Parse returns is valid under the advertised output document, when defaults and transforms keep to their own documents and what absent fields store fits; which value Parse returns is in SchemaParses |
| SchemaOutput.AbsentExact | internal/mcp/schema.go:1005-1054 | what a schema stores for an absent field is valid under its output document if and only if a default comes first or the document admits the null stored instead, mapped by the transforms on its way |
| SchemaOutput.ParsedObjectExact | internal/mcp/schema.go:1005-1054 | an object Parse returns is valid under its output document if and only if each absent field that stores something fits its own |
| SchemaTools.IdArgSteady | internal/mcp/schemas.go:29-42 | the ID argument, whose ToString takes null outside its document, meets the hypotheses of the output theorem |
| SchemaTools.ContentIsAdvertised | internal/mcp/server.go:183-190 | structured content that the output schema parses is itself valid under the advertised output document, when that schema strips, defaults and transforms nothing |
| SchemaTools.StrippedContentExact | internal/mcp/server.go:183-190 | content that a stripping object accepts, nothing below it stripping, is valid under the advertised output document if and only if it has no key to strip |
| SchemaTools.ContentIffClosed | internal/mcp/schema.go:366-455 | on the exact fragment, stripping at any depth, the output document validates exactly the content that the schema accepts with every object closed |
| SchemaTools.StrippedContentRefused | internal/mcp/schema.go:403-420 | content with a key a stripping object does not name is never valid under the output document |
| SchemaTools.StrippingAccepts | internal/mcp/schema.go:1024-1037 | whatever a stripping object accepts it accepts with any key it does not name, to the same value, and its output document refuses that |
| SchemaOutput.FieldsBuild | internal/mcp/schema.go:994-1054 | what the field loop stores under each name, absent fields and defaults included |
| SchemaKeeps.ParseKeeps | internal/mcp/schema.go:759-885 | what a schema without transforms accepts it returns unaltered: kept values are the input's own, no key is lost unless stripped, none added unless defaulted |
| SchemaKeeps.OptionalLeftOut | internal/mcp/schema.go:304-347 | without defaults, what may be absent is exactly what is left out when it is |
| SchemaParses.CheckIs | internal/mcp/schema.go:940-987 | what each check asks of a value, in its own terms |
| SchemaParses.ChecksRaise | internal/mcp/schema.go:901-937 | each failing check raises one issue, in order, up to the first that stops the rest: a number that is not whole under the int check |
| SchemaParses.LeafParses | internal/mcp/schema.go:759-885 | a schema without parts returns what it takes as it is |
| SchemaParses.PipeParses | internal/mcp/schema.go:776-785 | a pipe returns the transform applied to what the inner schema's own Parse returns, or fails as it does |
| SchemaParses.MismatchRaises | internal/mcp/schema.go:901-937 | a leaf that refuses a value raises a type issue, and only failing length checks add theirs |
| SchemaParses.UnionRaises | internal/mcp/schema.go:860-881 | a union none of whose options takes a value has the issues of the only option that does not abort, or a type issue |
| SchemaParses.UnionParses | internal/mcp/schema.go:759-885 | a union returns what its first option to accept returns |
| SchemaParses.ArrayParses | internal/mcp/schema.go:759-885 | an array parses if and only if its elements do, to what they parse to, in order |
| SchemaParses.RecordParses | internal/mcp/schema.go:759-885 | a record parses if and only if its values do, to what they parse to, each under its key |
| SchemaParses.ObjectParses | internal/mcp/schema.go:994-1054 | under each key an object returns what its field parses to, what an absent field stores, or a loose object's unknown key |
| SchemaParses.ObjectInOrder | internal/mcp/schema.go:994-1054 | an object's keys stand in the order of the fields, then a loose object's unknown ones in the order of the input |
| SchemaParses.PipeAbsent | internal/mcp/schema.go:776-785 | a transform is applied to what an absent value gives as well |
| SchemaParses.IdArgParses | internal/mcp/schemas.go:29-42 | the ID argument takes positive safe integers and decimal strings in range, and returns both as strings |
| SchemaLimits.EarlierPatternUnadvertised | internal/mcp/schema.go:495-524 | of two patterns only the later is advertised: a string the parser refuses is valid |
| SchemaLimits.NegativeMaxUnadvertised | internal/mcp/schema.go:470-493 | a negative max refuses every string and advertises no bound |
| SchemaLimits.KeywordMetaBreaksSoundness | internal/mcp/schema.go:167-176 | a validation keyword in metadata overrides the node's own and breaks soundness |
| SchemaLimits.WrapperCheckBreaksOptin | internal/mcp/schema.go:304-327 | a check on a wrapper can reject an absent field optin calls optional |
| SchemaLimits.OptionalBeforeDefault | internal/mcp/schema.go:304-327 | an optional branch before a defaulted one stores null, which the output document refuses |
| Calendar.CivilOf | internal/cron/cron.go:201-206 | every day number has a valid date whose day number it is |
| Calendar.CivilUnique | internal/cron/cron.go:201-206 | a date is the date of exactly one day |
| Calendar.WeekdayIs | internal/cron/cron.go:183-206 | day 0 is Thursday 1 January 1970, and weekdays take turns |
| Calendar.MonthLengths | internal/cron/cron.go:201-206 | the lengths of months and years, day 0 being 1 January 1970 |
| Cron.Next | internal/cron/cron.go:233-254 | the nested-loop search returns the least matching minute after t, or nothing only if no searched day holds one |
| Cron.Prev | internal/cron/cron.go:208-231 | the backward search returns the greatest matching minute at or before t, or nothing only if no searched day holds one |
| Cron.NextInDay | internal/cron/cron.go:233-254 | the hour loop finds the first fire of a matching day from a floor on |
| Cron.PrevInDay | internal/cron/cron.go:208-231 | the hour loop finds the last fire of a matching day up to a limit |
| Cron.SearchUnique | internal/cron/cron.go:208-254 | a search has one answer |
| Cron.PrevNext | internal/cron/cron.go:208-254 | Prev of Next is Next, and no minute strictly between Prev and Next matches |
| Cron.MaxGap | internal/cron/cron.go:265-285 | the result is the widest gap between counted fires, attained by a pair; the 10080 bound never ends the loop |
| CronWindow.WindowHolds | internal/cron/cron.go:43-46 | on free day fields a schedule with a matching day has one in every run of 2921 days |
| CronWindow.WindowTight | internal/cron/cron.go:43-46 | 2921 is met: a leap-day schedule is silent from 1 March 1896 to 28 February 1904 |
| CronWindow.SearchesNeverMiss | internal/cron/cron.go:183-254 | on free day fields Next and Prev answer whenever the schedule fires at all |
| CronWindow.GapIsConsecutive | internal/cron/cron.go:265-285 | on free day fields the measured gaps are exactly those between consecutive fires |
| CronWindow.WindowsDecidable | internal/cron/cron.go:43-46 | for any schedule all windows hold a matching day exactly when those starting in one 400-year cycle do |
| CronWindow.NextAnswersIff | internal/cron/cron.go:233-254 | for any schedule Next from every midnight answers if and only if the windows of one cycle are all covered |
| CronWindow.StarMondayRefused | internal/cron/cron.go:103-121 | the schedule of 0 0 */30 2 1 fires on 1 February 2010 and Next from 2000 finds nothing |
| CronWindow.RefusedThoughFires | internal/cron/cron.go:116-121 | for every schedule: it fires and Parse finds no fire if and only if a day of the 400-year cycle matches and none of the window from 2000 does |
| CronParse.ParseFieldLoop | internal/cron/cron.go:125-165 | the two field loops, or-ing bit by bit, compute the union of the items |
| CronParse.SteppedMeans | internal/cron/cron.go:125-165 | a stepped range is exactly the progression from lo that does not pass hi |
| CronParse.Parse | internal/cron/cron.go:82-123 | which error each text gets: too long, the number of fields, the first bad field, never-fires exactly when Next finds nothing after 2000; an accepted text gives the schedule of its five fields, ready to search, whose times are those of FiresWhen |
| CronParse.FiresWhen | internal/cron/cron.go:82-123 | for all five-field texts and all times: the schedule fires when minute, hour and month are in their sets and the day fits, weekday 7 being Sunday, by both day fields when one starts with * and by either otherwise |
| CronParse.ItemIff | internal/cron/cron.go:125-165 | exactly the item grammar: a star, a number or a range, with or without a positive step, and the values each denotes |
| CronParse.FieldIff | internal/cron/cron.go:125-165 | a field parses if and only if all its comma-separated items do, to their union |
| CronParse.ByteLenIs | internal/cron/cron.go:82-90 | the length limit counts the bytes of the UTF-8 form |
| Text.FieldsAre | internal/cron/cron.go:88-92 | splitting gives the words of a text, however white space spreads them |
| Text.TrimIs | internal/agentguide/agentguide.go:91-92 | trimming takes all white space off both ends and nothing else |
| CronParse.AcceptedIffFires | internal/cron/cron.go:103-121 | five good fields, free in the day fields, are accepted if and only if the schedule ever fires |
| CronParse.RefusedIff | internal/cron/cron.go:103-121 | for every text of five good fields, free or not, when exactly it fires and is refused |
| CronParse.StarMondayTextRefused | internal/cron/cron.go:82-123 | the text 0 0 */30 2 1 parses to that schedule, fires and is refused |
| CronParse.ItemsInRange | internal/cron/cron.go:125-165 | a field that parses is a non-empty set of values in its range |
| CronParse.FieldRoundTrip | internal/cron/cron.go:16-23 | a field written in the documented dialect parses to the union of what its items denote |
| JsOrder.IndicesAre | internal/jsonv/jsonv.go:235-252 | the array-index keys are exactly the decimal texts of 0 to 2^32 - 2 |
| JsOrder.EnumerateKeeps | internal/jsonv/jsonv.go:156-200 | enumeration is a permutation of the members |
| JsOrder.EnumerateOrdered | internal/jsonv/jsonv.go:156-200 | indices come first in ascending numeric order, then the rest as inserted |
| JsOrder.EnumerateFixed | internal/jsonv/jsonv.go:156-200 | an object already in that order is enumerated as it stands |
| OrderedObject.Object.Position | internal/jsonv/jsonv.go:77-93 | find, through the index or by scan, gives the only position of the key or -1 |
| OrderedObject.Object.Get | internal/jsonv/jsonv.go:103-109 | Get is lookup in the insertion-ordered map |
| OrderedObject.Object.Set | internal/jsonv/jsonv.go:120-137 | Set replaces in place or appends, keeping keys unique, index inverse and nidx exact |
| OrderedObject.Object.Delete | internal/jsonv/jsonv.go:139-154 | Delete removes exactly that member and keeps the order of the rest |
| OrderedObject.Object.Range | internal/jsonv/jsonv.go:182-200 | Range visits the members in JavaScript order |
| OrderedObject.Object.Clone | internal/jsonv/jsonv.go:202-209 | Clone is a separate object with the same contents |
| OrderedObject.Object.Reindex | internal/jsonv/jsonv.go:95-101 | the rebuilt index is the exact inverse of keys |
| OrderedObject.WithoutFinds | internal/jsonv/jsonv.go:139-154 | after a delete the key is gone and every other lookup unchanged |
| JsonNumber.NormalValue | internal/jsonv/jsonv.go:561-612 | reading a literal in normal form keeps the real number it denotes |
| JsonNumber.LayoutDenotes | internal/jsonv/jsonv.go:861-908 | each of the four layout branches denotes exactly digits times ten to the n-k |
| JsonNumber.LayoutScans | internal/jsonv/jsonv.go:561-612 | the number scanner consumes the whole layout and reads that literal |
| JsonNumber.FormatScans | internal/jsonv/jsonv.go:861-908 | a finite number other than negative zero is printed as a literal that reads back as itself |
| JsonExact.NumberWritten | internal/jsonv/jsonv.go:861-908 | a finite number is written as the numeral without needless zeros that denotes it, plain from 10^-6 to below 10^21, with an exponent and its sign outside, zero without a sign |
| JsonString.FastIsSlow | internal/jsonv/jsonv.go:918-955 | on valid UTF-8 the fast writer writes what the slow one does |
| JsonString.FastPathAgrees | internal/jsonv/jsonv.go:472-490 | the fast path of the string reader reads what its loop would |
| JsonWriter.WriteString | internal/jsonv/jsonv.go:918-955 | the run-copying loop writes the specified text |
| JsonWriter.WriteStringSlow | internal/jsonv/jsonv.go:957-1009 | the slow loop writes the specified text: escapes, lone surrogates, ill-formed bytes |
| JsonWtf8.WriteThenRead | internal/jsonv/jsonv.go:472-559 | any string the mode can hold is read back whole after being written |
| JsonExact.StringWritten | internal/jsonv/jsonv.go:918-1009 | a string is written code point by code point as QuoteJSONString of ECMA-262 does, lone surrogates as escapes, each ill-formed byte as U+FFFD |
| JsonExact.TokensAre | internal/jsonv/jsonv.go:323-359 | the bytes of the grammar: white space, punctuation, the constants, number signs; nesting up to 10000 |
| JsonExact.ValueWritten | internal/jsonv/jsonv.go:731-832 | a value is written without white space: the constants, null for an infinity, commas and colons, members in JavaScript order |
| JsonExact.RepairedIs | internal/jsonv/jsonv.go:472-559 | repair leaves valid text alone and makes one U+FFFD of each run of bytes none of which starts a code point |
| JsonWtf8.LosslessLoop | internal/jsonv/jsonv.go:472-559 | lossless reading leaves no lone high surrogate directly before a lone low one |
| JsonWtf8.ReadIsStorable | internal/jsonv/jsonv.go:472-559 | whatever the text, the string read is one its mode can hold |
| JsonWtf8.ToValidIsValid | internal/jsonv/jsonv.go:472-559 | repair always gives valid UTF-8 |
| Whatwg.SubpartMaximal | internal/jsonv/jsonv.go:623-682 | one U+FFFD replaces the longest beginning of a well-formed sequence found there, else one byte |
| Whatwg.DecodeRepairs | internal/jsonv/jsonv.go:289-294 | decoded text is valid UTF-8, and text is left unchanged exactly when it was valid |
| JsonExact.DecodedIs | internal/jsonv/jsonv.go:623-682 | decoding keeps valid text and makes one U+FFFD of the longest beginning of a code point after it |
| Whatwg.Take | internal/jsonv/jsonv.go:646-676 | the inner loop takes a whole well-formed sequence or its maximal beginning |
| Whatwg.DecodeLoop | internal/jsonv/jsonv.go:627-682 | the decoding loop computes the specified text |
| JsonParser.Parser.HexFour | internal/jsonv/jsonv.go:456-470 | four hex digits as a number, or no move |
| JsonParser.Parser.Text | internal/jsonv/jsonv.go:472-559 | the string reader returns what the grammar reads, or fails where it fails |
| JsonParser.Parser.Number | internal/jsonv/jsonv.go:561-612 | the number reader returns what the grammar reads, or fails where it fails |
| JsonParser.Parser.Value | internal/jsonv/jsonv.go:334-359 | the value reader returns what the grammar reads and leaves the index at the rest |
| JsonParser.Parser.Elements | internal/jsonv/jsonv.go:413-442 | the element loop returns the array the grammar reads |
| JsonParser.Parser.Members | internal/jsonv/jsonv.go:369-411 | the member loop returns the object the grammar reads, a repeated key keeping its place |
| JsonParser.Parser.Document | internal/jsonv/jsonv.go:296-309 | the whole parse agrees with the grammar |
| JsonChars.StringLiterals | internal/jsonv/jsonv.go:472-559 | on UTF-8, what is read after an opening quote is exactly the string literals of RFC 8259 section 7, each held as the UTF-16 code units it denotes |
| JsonGrammar.ValueRead | internal/jsonv/jsonv.go:334-359 | every value derivable in the grammar of RFC 8259 within the depth is read to what its derivation stands for |
| JsonDerives.ValueFrom | internal/jsonv/jsonv.go:334-359 | whatever is read has such a derivation |
| JsonDerives.ParsesExactlyJson | internal/jsonv/jsonv.go:277-309 | on UTF-8, the parser gives a value for a text if and only if the text is derivable as JSON within the depth limit and the derivation stands for that value |
| JsonRoundTrip.ParsePrint | internal/jsonv/jsonv.go:731-832 | parsing what was printed gives the canonical form of the value, or fails exactly when it nests deeper than 10000 |
| JsonFixed.ParseGives | internal/jsonv/jsonv.go:277-309 | every parsed value has unique keys, storable strings, rounded numbers and bounded depth |
| JsonFixed.PrintedIsFixed | internal/jsonv/jsonv.go:692-699 | canonical form prints the same bytes and is its own canonical form |
| JsonFixed.ReparsePrinted | internal/jsonv/jsonv.go:277-309 | any text that parses can be printed and parsed again to the same value up to canonical form |
| JsonEqual.CanonEqual | internal/jsonv/jsonv.go:1022-1059 | what comes back is deeply equal to the value exactly when it holds no infinity |
| JsonEqual.EqualIff | internal/jsonv/jsonv.go:1020-1061 | values with unique keys are equal exactly when no path of keys and indices leads to different things |
| TurnHolds.DelayCurve | internal/passwordgate/passwordgate.go:41-49 | the curve starts at 500 ms, doubles for each failure up to the fifth, and stays at 8 s |
| TurnHolds.TurnsKept | internal/contentview/serve.go:86-119 | every step keeps who holds which turn: an active or timed holder has all its keys, nobody else any |
| TurnSafety.DelaysKept | internal/contentview/serve.go:459-566 | over every run, erring writes included, the next check of a credential starts no earlier than the delay after each failure recorded on it, unless the recording took effect late or an error cut its taking short |
| TurnSafety.ClearErasesNothingLater | internal/contentview/serve.go:374-381 | late writes apart, a clearing write directly follows its own attempt's check, so in time it erases no failure of a later check |
| TurnSafety.WaitersHoldNothing | internal/contentview/serve.go:459-480 | whoever waits for turns holds none, save a page turn whose timer ends within 8 s |
| TurnSafety.HoldersProgress | internal/passwordgate/passwordgate.go:140-149 | no deadlock: every held turn has a timer or a holder with a step it can take |
| TurnSafety.CountersReplay | internal/passwordgate/passwordgate.go:51-65 | every recorded count and the counter table are those of replaying the log; what the counts are is in TurnCounts |
| TurnCounts.NextCount | internal/passwordgate/passwordgate.go:51-67 | over every run, a failure counts one more than the one before it on its credential, or one when more than fifteen minutes lie between |
| TurnCounts.FirstCount | internal/passwordgate/passwordgate.go:51-67 | a failure that is first on its credential or directly follows a clear counts one |
| TurnCounts.BackoffEscalates | internal/passwordgate/passwordgate.go:37-78 | failures in a row count 1, 2, 3 and on and are due half a second, one, two, four and from then on eight seconds later |
| TurnCharges.TestedAreCharged | internal/contentview/serve.go:473-475 | over every run, when an attempt is over and no recording of it erred, every credential it checked in vain is charged if and only if it did not go on from a wrong portal to a right one |
| TurnCharges.AllAreTested | internal/contentview/serve.go:459-570 | unless it gave up, erred or met a right password, an attempt that is over has checked its page and every portal in vain |
| TurnLimits.TestedUncharged | internal/contentview/serve.go:536-550 | a reachable run: wrong for one portal and right for the next leaves the first uncharged |
| TurnCounts.RightPasswordClears | internal/contentview/serve.go:490-502 | after a right page password the attempt's only step is the clear; when it takes effect the counter is gone and the turn free at once |
| TurnCounts.RightPortalClears | internal/contentview/serve.go:535-550 | the same at a portal, whose later portals are not tried |
| TurnCounts.HoldNoLonger | internal/contentview/serve.go:102-120 | no turn is kept longer than the delay of a failure its holder recorded |
| TurnLimits.CutSkipsDelay | internal/contentview/serve.go:543-553 | a recording that errs, whatever became of it, after an earlier portal was charged lets that portal be checked again at the same instant |
| TurnLimits.ErrorSkipsDelay | internal/contentview/serve.go:503-509 | a recording that takes effect and still errs, at a page, a portal form or among several portals, lets its credential be checked again at the same instant |
| TurnLimits.LateSkipsDelay | internal/contentview/serve.go:71-83 | a recording that outlives its context and takes effect later delays nobody |
| TurnLimits.LateClearErases | internal/contentview/serve.go:469-471 | a clear that outlives its context can erase the failure the next attempt recorded |
| TurnLimits.DelaySkipped | internal/contentview/serve.go:543-553 | a concrete run in which a portal is checked again before its delay has passed |
| TurnLimits.PageDelaySkipped | internal/contentview/serve.go:503-509 | and one at a page's own form |
| Turns.Table.TryTake | internal/passwordgate/passwordgate.go:163-178 | all the keys or none, and on refusal the channel of a key someone holds |
| Turns.Table.Drop | internal/passwordgate/passwordgate.go:180-189 | give drops exactly the listed keys |
| Turns.Release.Run | internal/passwordgate/passwordgate.go:195-207 | because it acts once, a release gives back its own taking's turns and nobody else's |
| Turns.AttemptTurn.Done | internal/contentview/serve.go:108-119 | done releases at once when nothing is left of the hold, else at the end of the hold |
| Ranges.ClampExact | internal/contentview/static.go:158-185 | a spec yields exactly the bytes RFC 9110 section 14.1.2, over unbounded numbers, says it selects if and only if no literal that matters exceeds 2^63-1 and the spec is not a malformed one read leniently |
| Ranges.TakenIs | internal/contentview/static.go:158-185 | byte by byte, what any spec text yields: what the RFC selects unless oversized, and what a lenient reading names |
| Ranges.SpecsAre | internal/contentview/static.go:158-163 | a header is a unit, the first =, and the specs between commas |
| Ranges.OversizedDropped | internal/contentview/static.go:152-157 | a suffix or a last position of 2^63 selects the whole file and is dropped |
| Ranges.SignsTaken | internal/contentview/static.go:169-170 | +0-+4 is no range-spec and is read as 0-4 |
| Ranges.InsertionSort | internal/contentview/static.go:190-194 | the in-place insertion sort orders the ranges and keeps every one |
| Ranges.Merge | internal/contentview/static.go:195-204 | merging gives ascending, separated ranges covering the same bytes |
| Ranges.ParseRange | internal/contentview/static.go:158-208 | only a header without = is refused; otherwise the ranges are in normal form and cover the bytes the fitting specs select and the lenient ones name, exactly those of the RFC when there is neither kind of exception |
| Ranges.NormalUnique | internal/contentview/static.go:158-208 | normal form is unique, so the bytes alone determine the result |
| Utf16.Compare | internal/jsstr/jsstr.go:80-108 | walking code points decides the lexicographic order of the UTF-16 encodings |
| Utf16.TotalOrder | internal/jsstr/jsstr.go:77-79 | Compare is a total order on valid strings |
| Utf16.UnitsInjective | internal/jsstr/jsstr.go:77-79 | on valid UTF-8 the code units determine the string |
| Utf16.Utf16Len | internal/jsstr/jsstr.go:39-49 | the loop counts the UTF-16 code units |
| Utf16.SliceShortcut | internal/jsstr/jsstr.go:57-60 | the shortcut for a whole valid string gives what the slow path would |
| Utf16.SliceHolds | internal/jsstr/jsstr.go:57-73 | a slice, whatever its bounds, is valid UTF-8 and holds exactly the units asked for, cut surrogates as U+FFFD |
| UrlCodec.DecodeEncoded | internal/httpx/httpx.go:68-139 | decodeURIComponent undoes encodeURIComponent exactly on strings in which nothing reads as U+FFFD, and reports a malformed URI on all others |
| UrlExact.ComponentWritten | internal/httpx/httpx.go:68-76 | encodeURIComponent writes letters, digits, - _ . ! ~ * ' ( ) and upper-case escapes only, and leaves a text of such bytes as it is |
| UrlExact.NoneReserved | internal/httpx/httpx.go:68-76 | so none of / ? : @ & = + $ , ; # and space is in it |
| UrlExact.DecodeIff | internal/httpx/httpx.go:87-139 | decodeURIComponent decodes exactly the texts of bytes other than % and whole escaped code points other than U+FFFD, each to itself |
| UrlCodec.ReplacementRefused | internal/httpx/httpx.go:129-131 | the valid string U+FFFD is one of those others |
| UrlCodec.DecodeLoop | internal/httpx/httpx.go:87-139 | the index loop computes the specified text or error |
| UrlQuery.TextBack | internal/httpx/httpx.go:146-159 | any text comes back in its valid form, the loose path covering what strict decoding refuses |
| UrlQuery.GroupHolds | internal/httpx/httpx.go:194-213 | grouping keeps every value, under its key and in order, and nothing else |
| UrlQuery.ParseEncoded | internal/httpx/httpx.go:194-213 | parsing an encoded form gives back its first thousand pairs grouped by key in order |
| UrlExact.FormWritten | internal/httpx/httpx.go:161-192 | a form's texts are letters, digits, * - . _, a plus for each space and upper-case escapes for the rest |
| UrlExact.QueryReads | internal/httpx/httpx.go:190-213 | parts stand between ampersands, empty ones are skipped and those past a thousand dropped |
| UrlExact.PartReads | internal/httpx/httpx.go:190-213 | the name ends at the first =, and a part without one has an empty value |
| UrlQuery.ParseQueryLoop | internal/httpx/httpx.go:194-213 | the part loop fills the map the specification describes |
| UrlEncode.EncodedSettles | internal/httpx/httpx.go:293-336 | whatever is written, through every bad-escape branch, needs no escaping again |
| UrlEncode.FixedIff | internal/httpx/httpx.go:293-336 | a text is left as it is exactly when it needs no escaping |
| UrlEncode.EncodeTwice | internal/httpx/httpx.go:293-336 | encoding twice is encoding once |
| UrlExact.UrlWritten | internal/httpx/httpx.go:290-336 | EncodeURL writes printable ASCII only, never space " < > ` { or } |
| UrlExact.PieceWritten | internal/httpx/httpx.go:293-336 | what a character the URL cannot carry becomes, and what a bad percent sign and the character it takes along become |
| UrlEscapes.EncodedMeans | internal/httpx/httpx.go:293-336 | decoding what is written gives the text itself, the escapes the loop meets decoded |
| UrlEscapes.EscapesKept | internal/httpx/httpx.go:290-336 | what is written stands for exactly the text, escapes decoded, if and only if no bad % takes the % of a valid escape along; each one that does adds two bytes |
| UrlEscapes.EscapeLost | internal/httpx/httpx.go:307-313 | %%41 becomes %25%2541 |
| UrlEncode.EncodeUrlLoop | internal/httpx/httpx.go:293-336 | the index loop computes the specified text |
| Migrate.FilesSorted | internal/migrate/migrate.go:165-177 | Files lists exactly the entries that are no directories and end in .sql, strictly ascending |
| Migrate.LessIs | internal/migrate/migrate.go:165-177 | ascending by the first byte in which names differ, a beginning before the whole |
| Migrate.AtMostOnce | internal/migrate/migrate.go:134-152 | under any number of runners and crashes each file takes effect at most once and tracking rows equal effects |
| Migrate.RunInOrder | internal/migrate/migrate.go:102-126 | one run applies its files in file-name order |
| Migrate.CompletedMeansApplied | internal/migrate/migrate.go:102-126 | a completed run leaves every file it listed applied |
| Migrate.OneAtATime | internal/migrate/migrate.go:60-76 | at most one runner is between taking the lock and giving it back |
| Migrate.NeverBlocked | internal/migrate/migrate.go:60-126 | whoever is at a file it did not find applied can commit it: no run fails because another tracked the file first |
| Migrate.CrashRecovers | internal/migrate/migrate.go:40-62 | a runner may die anywhere; when its session ends its lock is free and nothing more has been applied |
| Migrate.RunAgainChangesNothing | internal/migrate/migrate.go:78-101 | a run that reads the table after files are applied applies none of them |
| MigrateRun.Database.Run | internal/migrate/migrate.go:102-131 | the file loop applies the pending files in order up to the first that fails, and counts them |
| MigrateRun.PendingAre | internal/migrate/migrate.go:102-112 | pending files are those listed and not yet applied, in order |
| MigrateRun.FailureCuts | internal/migrate/migrate.go:112-126 | a run stops at the first file that fails |
| MigrateRun.SecondRunIdle | internal/migrate/migrate.go:102-131 | a run that fails nowhere leaves nothing pending |
| Guide.SlugifyShape | internal/agentguide/agentguide.go:75-80 | Slugify gives a section slug or nothing |
| GuideText.SlugifyIs | internal/agentguide/agentguide.go:75-80 | the slug of a heading is its words, lower-cased and without backquotes, *, _ and quotes, joined by single hyphens, whatever stands between, before and after them |
| GuideText.SlugForIs | internal/agentguide/agentguide.go:113-119 | a section gets its heading's slug or section-N, and when that is taken the slug with the least free number from 2 on |
| Guide.SomeFree | internal/agentguide/agentguide.go:117-119 | pigeonhole: a free numbered slug exists among as many as there are taken ones, plus one |
| Guide.FreeSlug | internal/agentguide/agentguide.go:113-119 | the suffix loop ends, at the first free number |
| Guide.SlugsDistinct | internal/agentguide/agentguide.go:113-119 | no two sections share a slug |
| Guide.SlugShape | internal/agentguide/agentguide.go:113-119 | a slug has the promised shape except exactly when the heading leaves nothing and its stand-in is taken |
| Guide.BadSlug | internal/agentguide/agentguide.go:113-119 | the headings section-2 and ? get the slugs section-2 and -2 |
| Guide.BadDocument | internal/agentguide/agentguide.go:86-134 | a document text whose second section gets the slug -2 |
| Guide.CutSections | internal/agentguide/agentguide.go:106-129 | introduction and sections are the lines in order, cut exactly at the unfenced headings |
| GuideText.OpensIs | internal/agentguide/agentguide.go:106-112 | a line opens a section when it starts with two hashes and a space after an even number of fence lines |
| GuideText.FenceIs | internal/agentguide/agentguide.go:71-71 | a fence line is three backquotes or tildes after white space |
| GuideText.SplitIs | internal/agentguide/agentguide.go:87-87 | a text is its lines, a line feed between two and none inside |
| GuideText.ClosedIs | internal/agentguide/agentguide.go:130-133 | a section's text is its lines put together again, trimmed |
| GuideText.TitleIs | internal/agentguide/agentguide.go:90-95 | the title is that of the first line that starts with one hash and a space |
| GuideText.UnixIs | internal/agentguide/agentguide.go:87-87 | each carriage return with its line feed becomes a line feed |
| Guide.ParseDoc | internal/agentguide/agentguide.go:86-134 | title, trimmed introduction and trimmed sections of that cut, with the slugs of their headings, pairwise distinct |
| ScriptEscape.EscapeIsSafe | internal/datalimits/datalimits.go:206-215 | the stored form holds no <, >, & and neither line separator |
| ScriptEscape.EscapeIs | internal/datalimits/datalimits.go:210-215 | safe text is kept and each <, >, &, U+2028 and U+2029 becomes its six-character escape |
| ScriptParse.EscapedMeansTheSame | internal/datalimits/datalimits.go:206-215 | any JSON text that parses, parses to the same value once escaped |
| DataLimits.EnvelopeSize | internal/datalimits/datalimits.go:217-222 | the stored envelope's size is its overhead plus the escaped payload's |
| DataLimits.EnvelopeText | internal/datalimits/datalimits.go:217-222 | the stored envelope byte for byte: version 1, both timestamps, the payload |
| DataLimits.OverheadLeast | internal/datalimits/datalimits.go:224-228 | no timestamps of 24 bytes or more give a smaller overhead than the ordinary ones |
| DataLimits.MinOverheadIs | internal/datalimits/datalimits.go:224-228 | that overhead is 114 bytes |
| DataLimits.StatedIs | internal/datalimits/datalimits.go:300-334 | a size argument states two sizes exactly when it is an object of payload_bytes and escaped_payload_bytes alone, whole and at most 2^53 - 1 either way |
| DataLimits.StagedIs | internal/datalimits/datalimits.go:311-334 | the early check's whole verdict: an absent size passes, no data or no two ordered sizes is malformed, and else what is over the limit is refused, the payload first |
| DataLimits.StagedFits | internal/datalimits/datalimits.go:311-334 | the early check never refuses a truthfully measured payload whose exact envelope fits |
| DataLimits.StagedExact | internal/datalimits/datalimits.go:311-334 | with ordinary timestamps the early check is exact |
| DataLimits.HeadroomIsUpperBound | internal/datalimits/datalimits.go:284-298 | estimated headroom is never below the exact one, and exact headroom is non-negative exactly when both sizes fit |
| DataLimits.UsageIs | internal/datalimits/datalimits.go:284-298 | what the limit leaves above the larger of payload and envelope |

## Left out

Schemas:
- Issue wording, paths and message order: acceptance and the parsed value are modelled, not the English text.
- Regular expressions, URL parsing and rune counting are an uninterpreted `Engine`; refine and superRefine are arbitrary functions.
- SchemaEmit.EmitLoop: documents and parsed objects are values with ordered entries, so updating a `jsonv.Object` in place and the array-index order of property names are not captured here (`OrderedObject` models the object itself).
- SchemaTheorems.ParseIffAdvertised: the converse is stated on the fragment without refine, superRefine, url, several patterns, length bounds that are not carried, checks on wrappers or validation keywords in metadata, because outside it the document does not describe the parser; `SchemaLimits` shows why.
- SchemaEmit.LengthBounds: length bounds are unbounded integers, Go's conversion of a huge float to int is not modelled.
- `format` is an annotation in draft-07, so the validity predicate does not interpret it.
- Keywords the compiler never emits have no meaning in the validity predicate.

Schedules:
- Seconds and locations: times are whole UTC minutes; a zero `time.Time` is None.
- Field names in error messages.
- CronParse.Parse: an expression is a sequence of code points; ill-formed UTF-8 is not modelled.

JSON:
- IEEE-754 rounding and shortest-digit generation: a double is named by its shortest digits and `round` is an uninterpreted function with strconv's contract (reading the shortest digits of a double gives that double).
- NaN, Go-specific inputs of `write` (integers, maps, `Writer`, reflection) and `ToString`.
- Error offsets and messages: a failed parse is None.
- JsonDerives.ParsesExactlyJson: stated for UTF-8 texts, as section 8.1 of RFC 8259 requires of JSON; `ParseLossless` makes every input such a text first (`Whatwg.DecodeRepairs`), and what becomes of ill-formed bytes inside strings otherwise is in `JsonWtf8`.
- OrderedObject.Object.Range: the callback's early stop is not modelled, and `sort.Slice` is insertion by rank.
- JsonParser.Parser.Members: the object under construction is its list of members, updated by the function `OrderedObject.Object.Set` refines.

Password attempts:
- TurnSafety.DelaysKept: a write that errs has had its effect once, will have it later, or never has it; which of the three is left open.
- The wait limit of 10 seconds and the client's disconnect are one step: a waiter may give up at any time.
- Restarts: turns live in one process, and a restart forgets them.
- The scrypt comparison is a boolean, hashing, cookies and stored copies of passwords are not part of this model.
- Wake-up order of waiters: any waiter may take a free turn.

Smaller algorithms:
- Ranges.ParseRange: the header is a string of code points; how ranges are sent is not modelled.
- UrlQuery.ParseQueryLoop: Go's map has no order, so only the values of each key are ordered.
- Cookie parsing, `Query` and header helpers.
- Migrate.AtMostOnce: a migration file is assumed to contain no transaction control of its own; a directory lists no name twice.
- Lock waiting time and log lines of the migrator.
- Guide.Slugify: lower-casing is an arbitrary function on code points.
- Index, rendering and digests of the guide.
- DataLimits.AssertStaged: limits are parameters, reading them from the environment and `ParseByteSize` are left out; message texts are too.
- HTTP routing, handlers, pages, uploads, versions, templates and cryptography.
