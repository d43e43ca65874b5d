# RapidJSON and the test runner, modelled and verified

This project models the parts of the repository that carry real algorithms: the copy of
RapidJSON under `rapidjson/` and the concurrent job runner of `test.py`. It proves what each of
them is for, over all inputs, all runs and all interleavings.

`dafny verify dfyconfig.toml` checks everything.

## How it is organised

Each component has a specification written as functions on values, lemmas about it, and
(where the source changes state) a `...Machine` module whose classes, loops and methods follow
the source and are proved against the specification.

* **Parsing** (`Reader`, `ReaderEquivalence`, `ReaderPull`, `ReaderMachine`). The recursive-descent,
  the table-driven and the pull parser over one configuration: a text, the flags, the string and
  number parsers, and a handler that may stop at any event. An outcome carries the delivered
  events and, on success, the end position. `ReaderLanguage`, `ReaderText` and `ReaderHandler` state the
  language of RFC 8259 as a grammar over stretches of text, what is accepted and what a handler gets.
* **Strings and numbers** (`Strings`, `Numbers` and their machines, `StringSpelling`, `NumberText`, `Exponents`,
  `Streams`, `Decimal`). Escapes, surrogate pairs and in-place decoding; digit loops in fixed-width words and the
  exponent bounds; and the spellings of strings and numbers in RFC 8259 beside them.
* **Encodings** (`Encodings`, `EncodingsMachine`). UTF-8 and UTF-16, each against the grammar of its
  standard and against its own encoder.
* **Printing** (`Writer`, `WriterProof`, `WriterLayout`, `WriterSpelling`, `WriterStrings`, `WriterMachine`,
  `RoundTrip`, `Counts`). The level stack of the plain and the pretty writer, the layout line by line, escaping,
  and the reader as the inverse.
* **Documents** (`Document`, `DocumentParse`, `DocumentMachine`, `Equality`, `Hasher`, `HasherLaws`,
  `HasherMachine`). Trees built on a stack from events, equality, and hash codes.
* **Pointers** (`Pointer`, `PointerText`, `PointerProof`, `PointerFragment`, `PointerMachine`, `PointerDom`,
  `PointerChanges`, `PointerDomMachine`). The text of RFC 6901 in both forms, by rounds and by a grammar, with the
  name buffer; lookup, creation and erasure, and what each leaves of a document.
* **Schema validation** (`Schema`, `SchemaValidator`, `SchemaProof`, `SchemaPaths`,
  `SchemaPointer`, `SchemaDefaults`, `SchemaDraft`, `SchemaMachine`). A recursive meaning of compiled
  schemas, draft-04 beside it, and the streaming validator with its stack of contexts and parallel
  sub-validators.
* **Allocation** (`Pool`, `PoolSteps`, `Allocator`). The chunked bump allocator, as a state machine and as a
  linked list of chunks over byte memory.
* **The worker pool** (`WorkerPool`, `WorkerPoolProof`, `WorkerRuns`). Dispatcher, workers, collector, joiner and
  interrupt as a transition system over two queues.

## Where the code departs from its promises

The model follows the code. Each departure has its exact condition and a failing input in
lemmas.

* The pull parser goes on after a broken comment (`ReaderPull.CommentErrorIsPulledOver`); the two
  parsers agree exactly when comments are off.
* A lone low surrogate escape is decoded although the validating flag is set
  (`Strings.LoneSurrogateIsLetThrough`, `Strings.ValidatedStrings`).
* With the validating flag a sequence is taken as a whole before it is refused, so a text that ends in
  the middle of one is read up to two bytes behind its terminator. The decoders, the writer and the
  pointer's stringifier do so if and only if the refused sequence reaches past the terminator
  (`Strings.LeadByteOverruns`, `WriterProof.LeadByteOverruns`, `Pointer.LeadByteOverruns`,
  `Strings.OverrunsAtTheEnd`, and the `reach` and cursor clauses of
  `StringsMachine.ParseStringInsitu`, `StringsMachine.ParseStringToStream`,
  `WriterMachine.JsonWriter.WriteString` and `PointerMachine.PutName`).
* Exponent arithmetic can leave a 32-bit int after very long fractions: never up to 214748055 digits
  behind the point, or 2147483549 with a negative exponent, and with one digit more for a fraction of
  zeros (`Exponents.DigitLimitExactly`, `Exponents.LongNumberOverflows`).
* The documentation of equality says that objects with duplicate names are never equal. On the left
  that holds exactly where two members of the same name differ, on the right never, and equality is
  symmetric in an object exactly where it holds on the left or names are distinct; all this for
  members whose values are duplicate-free in turn
  (`Equality.EqualOnTheLeftExactly`, `Equality.EqualOnTheRightAlways`,
  `Equality.SymmetricOverAllExactly`, `Equality.DuplicatesCanBeEqual`, `Equality.NotSymmetric`). Integers are compared as 64-bit patterns
  (`Equality.IntegersEqualExactly`).
* The documentation of pointer tokens promises an invalid index for values out of range; the
  overflow test catches exactly those whose wrapped value drops at some digit, or ends on the mark
  (`Pointer.OverflowIsCaughtExactly`, `Pointer.OverflowIsMissed`, `Pointer.OverflowIsMissedEarlier`).
* The documentation says that the source of a pointer need not be null-terminated. The character behind
  it is read where the source is empty or cuts off a percent sequence (`Pointer.ReadsEnd`,
  `Pointer.CutOffIsRead`), and matters for the empty source only (`Pointer.BehindMattersExactly`).
* Section 6 of RFC 6901 decodes the percent triplets of a URI fragment first. An accepted fragment is
  parsed like that exactly when no triplet decodes to a slash; and an escape may not be completed by a
  triplet (`PointerFragment.DecodingFirstExactly`, `PointerFragment.EncodedSlashStays`,
  `PointerFragment.EncodedEscapeIsRefused`).
* Erase passes the last name on as a C string, so a name with an embedded null character is cut
  (`PointerDom.EraseIsGetExactly`, `PointerDom.ChainResolves`).
* A required property with a non-empty string default is not reported missing
  (`SchemaDefaults.RequiredExactly`, `SchemaDefaults.DefaultIsNotMissed`). A name that occurs only in `required` or `dependencies` counts
  as a declared property (`SchemaDraft.MemberSchemaExactly`, `SchemaDraft.GatheredNameIsAllowed`).
  Without the two, the compiled form is draft-04 (`SchemaDraft.StreamingIsDraft`).
* A container with 2^32 children or more is counted modulo 2^32 and leaves more than its tree on the
  document's stack (`DocumentParse.ParseLeavesOneValue`, `DocumentParse.CountIsLost`).
* Size arithmetic of the allocator wraps around near 2^64. Malloc and Realloc are safe exactly where no
  sum does (`Pool.MallocSafeExactly`, `Pool.ReallocSafeExactly`, `Pool.WrappedBlocksOverlap`,
  `Pool.WrappedCapacityIsUnsafe`).
* A runner with no processors and at least one test waits for ever (`WorkerPoolProof.NeverStuckExactly`).

## Model

| member | source | states |
|---|---|---|
| SchemaProof.StreamingIsRecursive | rapidjson/schema.h:2076-2147 | For every compiled schema tree and every value, doubles included, the streaming validator fed the events of the value ends valid exactly when the recursive meaning of the compiled schema (`Schema.Valid`) says so, whichever integer event carries each number and however numbers convert to double |
| SchemaProof.SlotsVerdict | rapidjson/schema.h:1184-1220 | Every sub-validator slot that a context creates, fed exactly the events of its own value, ends with the recursive verdict of the schema it was made for; so no slot is missing, doubled or mixed up |
| SchemaProof.RunValue | rapidjson/schema.h:2232-2300 | The run of one value from any state of a larger run: it pushes one context, feeds the slots of every context below it, and on success leaves the stack and the path as they were |
| SchemaProof.EndValueVerdict | rapidjson/schema.h:702-782 | On contexts whose slots hold their verdicts, EndValue decides allOf, anyOf, oneOf and not as the recursive meaning does |
| SchemaProof.EndObjectVerdict | rapidjson/schema.h:940-985 | EndObject decides required, minProperties, maxProperties and both kinds of dependencies as the recursive meaning does |
| SchemaProof.DependenciesVerdict | rapidjson/schema.h:961-982 | The two loops over dependencies accept exactly when every present property has its names present and its dependency schema satisfied |
| SchemaProof.RequiredVerdict | rapidjson/schema.h:941-950 | The loop over missing properties accepts exactly when every required property is present, or has a non-empty string default |
| SchemaProof.PopUndoesAppend | rapidjson/schema.h:2293-2317 | Popping to the last slash removes exactly the token AppendToken or AppendIndexToken put, for all names, because slashes are escaped |
| SchemaPaths.DocumentStackIsLocation | rapidjson/schema.h:2121-2127 | Recorded whenever a value begins or ends, the document stack runs through the locations of the document in order; the record stops early only when validation fails |
| SchemaPaths.LogValue | rapidjson/schema.h:2232-2300 | The same for one value at any location inside a larger run, against any of its schemas |
| SchemaPointer.PathParsesToLocation | rapidjson/pointer.h:863-993 | The text on the document stack at a location, parsed as a JSON Pointer, gives exactly the tokens from the root to that location |
| SchemaDefaults.DefaultIsNotMissed | rapidjson/schema.h:944-946 | A failing schema: a required property with a default, and the empty object is accepted |
| SchemaDefaults.RequiredExactly | rapidjson/schema.h:944-946 | Over all objects the validator treats `required` as the specification does if and only if no required property has a schema with a non-empty string default |
| SchemaDraft.StreamingIsDraft | rapidjson/schema.h:2076-2147 | On every conforming schema the streaming validator decides draft-04, worded by names and positions: types, ranges, sizes, required, items, additionalItems, properties, additionalProperties, dependencies and the combinators each in its own terms |
| SchemaDraft.CompiledIsDraft | rapidjson/schema.h:480-575 | On every conforming schema, where RequiredExactly and MemberSchemaExactly have their conditions met throughout, the compiled form means the same |
| SchemaDraft.ElementsAreDraft | rapidjson/schema.h:675-700 | Elements: with no items each meets the empty schema; with one schema each meets it; with a list each meets its own, and those behind the list what additionalItems says |
| SchemaDraft.MembersAreDraft | rapidjson/schema.h:891-933 | Members: each meets every declared schema of its name, and what additionalProperties says if there is none |
| SchemaDraft.TypelessAccepts | rapidjson/schema.h:413 | The empty schema accepts every value whose containers have fewer than 2^32 children |
| SchemaDraft.MemberSchemaExactly | rapidjson/schema.h:891-933 | Every member name and value gets the verdict of the declared schema or of additionalProperties if and only if no name is gathered only from `required` or `dependencies`, or additionalProperties accepts just what the empty schema accepts |
| SchemaDraft.GatheredNameIsAllowed | rapidjson/schema.h:904-913 | `{"dependencies":{"a":["b"]},"additionalProperties":false}` accepts `{"b":1}`, which draft-04 refuses |
| Schema.PresentByName | rapidjson/schema.h:891-905 | With distinct property names, the marks set by Key say of each property exactly whether a member of its name exists |
| Schema.ParallelHeight | rapidjson/schema.h:1184-1220 | Sub-schemas that run in parallel are strictly lower, which bounds the nesting of validators |
| Schema.FindPropertyIndex | rapidjson/schema.h:1221-1232 | The first property of that name, or none: nothing in front of it has the name |
| SchemaMachine.EndValueVerdict | rapidjson/schema.h:702-782 | The early exits over the slot ranges give the verdict of the specification |
| SchemaMachine.EndObjectVerdict | rapidjson/schema.h:940-985 | The collecting loops give the verdict of the specification |
| SchemaMachine.OneSlotValid | rapidjson/schema.h:760-774 | The oneOf loop, which stops at the second valid slot, accepts exactly when one slot is valid |
| SchemaMachine.AllSlotsValid | rapidjson/schema.h:744-749 | The allOf loop accepts exactly when all slots of its range are valid |
| SchemaMachine.AnySlotValid | rapidjson/schema.h:751-758 | The anyOf loop accepts exactly when some slot of its range is valid |
| SchemaMachine.FindProperty | rapidjson/schema.h:1221-1232 | The search loop gives the specified index |
| SchemaMachine.GenericSchemaValidator.AppendToken | rapidjson/schema.h:2302-2317 | Escaping loop: the stack grows by exactly the escaped token |
| SchemaMachine.GenericSchemaValidator.PopLastToken | rapidjson/schema.h:2295-2297 | Pop loop: the stack is cut in front of its last slash, or emptied |
| SchemaMachine.GenericSchemaValidator.BeginValue | rapidjson/schema.h:2232-2261 | The new schema stack and document stack, also when it fails |
| SchemaMachine.GenericSchemaValidator.HandleParallel | rapidjson/schema.h:2083-2095 | One event is fed to every slot of every context |
| SchemaMachine.GenericSchemaValidator.EndValue | rapidjson/schema.h:2263-2300 | Verdict, pop of the context, pop of the token |
| SchemaMachine.GenericSchemaValidator.Open | rapidjson/schema.h:2076-2101 | The macro sequence in front of EndValue, with its failure paths |
| SchemaMachine.GenericSchemaValidator.Scalar | rapidjson/schema.h:2103-2113 | A scalar event is one step of the specified validator |
| SchemaMachine.GenericSchemaValidator.Key | rapidjson/schema.h:2121-2127 | A key event is one step of the specified validator |
| SchemaMachine.GenericSchemaValidator.StartObject | rapidjson/schema.h:2115-2119 | A start event is one step of the specified validator |
| SchemaMachine.GenericSchemaValidator.EndObject | rapidjson/schema.h:2129-2134 | An end event is one step of the specified validator |
| SchemaMachine.GenericSchemaValidator.StartArray | rapidjson/schema.h:2136-2140 | A start event is one step of the specified validator |
| SchemaMachine.GenericSchemaValidator.EndArray | rapidjson/schema.h:2142-2147 | An end event is one step of the specified validator |
| ReaderEquivalence.IterativeIsRecursive | rapidjson/reader.h:558-589 | For every text, flag set, handler (also one that stops) and scalar parsers, the table-driven parser with its explicit stack gives the same events, counts, verdict and end position as the recursive parser |
| ReaderEquivalence.ValueStep | rapidjson/reader.h:1996-2145 | From any framed state that expects a value the iterative loop gets behind the value with the frames untouched, exactly where ParseValue gets, or fails with the same trace |
| ReaderPull.PullIsIterative | rapidjson/reader.h:606-678 | Without the comments flag, calling the pull parser until it completes or fails gives the events and the verdict of the one-shot parser |
| ReaderPull.NextIsLoop | rapidjson/reader.h:619-674 | One call: if it returns true short of completion it delivered exactly one event, and what remains of the run is unchanged |
| ReaderPull.CommentErrorIsPulledOver | rapidjson/reader.h:621-623 | With the comments flag the text `/[` is refused by one parser and reported as the start of an array by the other |
| ReaderPull.PullAgreesExactlyWithoutComments | rapidjson/reader.h:619-674 | Over all texts, handlers and scalar parsers the two agree if and only if the comments flag is off |
| ReaderMachine.GenericReader.SkipWhitespaceAndComments | rapidjson/reader.h:709-733 | The cursor ends where the grammar of whitespace and comments ends, or the error is set |
| ReaderMachine.GenericReader.ParseKeyword | rapidjson/reader.h:855-892 | null, true and false: the event and the position, or an error, for every text |
| ReaderMachine.GenericReader.ParseValue | rapidjson/reader.h:1736-1750 | Dispatch on the first character gives the specified value parse |
| ReaderMachine.GenericReader.ParseObject | rapidjson/reader.h:739-804 | The recursive parse of an object with its member count and events |
| ReaderMachine.GenericReader.ParseMembers | rapidjson/reader.h:757-803 | The loop over members, including the trailing comma |
| ReaderMachine.GenericReader.ParseArray | rapidjson/reader.h:807-852 | The recursive parse of an array with its element count and events |
| ReaderMachine.GenericReader.ParseElements | rapidjson/reader.h:823-851 | The loop over elements, including the trailing comma |
| ReaderMachine.GenericReader.Parse | rapidjson/reader.h:558-589 | The whole parse without the iterative flag |
| ReaderMachine.GenericReader.Transit | rapidjson/reader.h:1996-2145 | The state, stack, cursor and trace after one transition, or the trace of the failure |
| ReaderMachine.GenericReader.IterativeParse | rapidjson/reader.h:2177-2209 | The loop refines the specified iterative parse, which by IterativeIsRecursive is the recursive one |
| ReaderMachine.GenericReader.IterativeParseNext | rapidjson/reader.h:619-674 | One call of the pull parser, with its answer, events and state |
| ReaderLanguage.ParseExactly | rapidjson/reader.h:558-589 | Under a handler that goes on, Parse accepts a text if and only if it is in the language of sections 2 to 5 of RFC 8259 (a relation between stretches of text and trees, with comments and trailing commas under their flags), ends where the text ends, and reports the events of its tree, counts modulo 2^32 |
| ReaderLanguage.AcceptedIsText | rapidjson/reader.h:558-589 | The same in one direction for every handler: whatever is accepted is such a text with the events of its tree |
| ReaderLanguage.ValueSpelled | rapidjson/reader.h:739-852 | Every value that the recursive parser takes from any position is a value of the grammar, and its events those of its tree |
| ReaderLanguage.ValueRead | rapidjson/reader.h:739-852 | Every value of the grammar at any position is taken to its end |
| ReaderLanguage.CommentExactly | rapidjson/reader.h:715-731 | A comment is taken exactly from its start to the first end behind it, and block comments only when they end |
| ReaderLanguage.ScalarRead | rapidjson/reader.h:855-892 | The literal names are taken as whole words, letter by letter; strings and numbers as the scalar parsers take them |
| ReaderHandler.ParseFollows | rapidjson/reader.h:558-589 | A handler that stops gets exactly the events of the same parse up to the first one it refuses, and the parse fails there; one that refuses nothing changes nothing |
| ReaderText.ReaderExactly | rapidjson/reader.h:558-589 | A reader with its own string and number parsers accepts exactly the JSON texts whose strings are spelled as section 7 and whose numbers as section 6 of RFC 8259 say |
| ReaderText.ScalarsExactly | rapidjson/reader.h:958-984 | The two scalar parsers take exactly these strings and numbers, with their values |
| StringSpelling.StringExactly | rapidjson/reader.h:990-1055 | A string is accepted if and only if it is made of spellings of section 7 of RFC 8259 up to a quotation mark, and its bytes are those of the characters spelled |
| StringSpelling.RoundExactly | rapidjson/reader.h:1006-1055 | A round takes exactly one spelling of the table: a plain character, one of the eight short escapes, four hexadecimal digits of either case, or two such escapes for a surrogate pair |
| StringSpelling.RefusedExactly | rapidjson/reader.h:1006-1055 | Which error a round gives, for every position: end of text, a character to be escaped or no UTF-8, an unknown escape |
| StringSpelling.BadHexExactly | rapidjson/reader.h:905-1031 | Missing digits and a surrogate without its pair are refused exactly where the digits or the second escape are missing or wrong |
| StringSpelling.FailsExactly | rapidjson/reader.h:990-1055 | A string fails if and only if a round fails behind spellings, with the error and the offset of that round |
| Strings.RoundShrinks | rapidjson/reader.h:990-1055 | Each round puts at least one code unit and never more than it took: escapes, surrogate pairs and plain characters alike |
| Strings.DecodeStringBounds | rapidjson/reader.h:990-1055 | A decoded string is shorter than its source, so the null fits in front of the read cursor |
| Strings.ValidatedStrings | rapidjson/reader.h:1019-1032 | With the validating flag an accepted string is well-formed UTF-8 if and only if no lone low surrogate was escaped in it |
| Strings.LeadByteOverruns | rapidjson/encodings.h:179-201 | With the validating flag, F0 in front of the terminator fails after four bytes are taken, two of them behind the terminator |
| Strings.OverrunsAtTheEnd | rapidjson/encodings.h:179-201 | A decode can read behind the terminator only where the last byte of the text, or the last but one, begins a sequence too long for it |
| Strings.LoneSurrogateIsLetThrough | rapidjson/reader.h:1021-1031 | The escape of U+DC00 alone is accepted and leaves ED B0 80, which is not UTF-8 |
| StringsMachine.ParseHex4 | rapidjson/reader.h:905-924 | Four digits of any case give their number; anything else fails |
| StringsMachine.ParseEscape | rapidjson/reader.h:1006-1034 | The escape branch with short escapes, hexadecimal escapes and surrogate pairs |
| StringsMachine.ParseStringToStream | rapidjson/reader.h:990-1055 | The copying decoder, validating or not, puts exactly the decoded string and a null, or the error and its offset; it reads behind the terminator of the text if and only if the failing round begins a sequence reaching past it |
| StringsMachine.ParseStringToStreamInsitu | rapidjson/reader.h:990-1055 | Over its own input the decoder, validating or not, produces exactly what the copying decoder produces on the original text, with the unread memory intact; the same if and only if for reads behind the terminator |
| StringsMachine.ParseStringInsitu | rapidjson/reader.h:958-984 | The in-situ parse, validating or not: same string, same errors and offsets; only bytes between the start of the string and the write cursor change; without an overrun the text and its terminator are all the memory it needs |
| StringsMachine.ValidateInsitu | rapidjson/encodings.h:179-201 | Validation over its own input: the verdict of Decode on the memory as it was, and the bytes taken put behind the read cursor |
| StringsMachine.HoldsMeans | rapidjson/stream.h:188-211 | What the in-situ postcondition says byte by byte |
| Streams.InsituStringStream.Put | rapidjson/stream.h:199 | A write is allowed only strictly behind the read cursor, and leaves everything unread as it was |
| Streams.InsituStringStream.Take | rapidjson/stream.h:195 | A read gives what the memory held at first, the terminator and what lies behind it included |
| Streams.StringStream.Take | rapidjson/stream.h:160 | A read gives the next character of the memory, with no test for its end |
| Streams.MemoryStream.Take | rapidjson/memorystream.h:46 | Gives the character under the cursor, or the end mark, and advances no further than the end |
| Numbers.ExponentsSafeExactly | rapidjson/reader.h:1629-1658 | Over exponents of every length, the exponent arithmetic from a given fraction shift stays inside 32-bit int if and only if the shift is at least the stated bound, separately for both signs |
| Numbers.ShortFractionsAreSafe | rapidjson/reader.h:1570-1664 | With up to 214748055 fraction digits no exponent of any length under- or overflows, in the loops or in exp + expFrac; with up to 2147483549 no negative one |
| Numbers.FastFractionIsExact | rapidjson/reader.h:1578-1594 | The 64-bit significand never overflows, equals the digits read so far, and the shift counts them |
| Numbers.StopsExactly | rapidjson/reader.h:1651-1658 | The positive exponent is refused exactly when its value exceeds the bound, and is exact otherwise |
| Numbers.ManyDigits | rapidjson/reader.h:1536-1567 | A number that leaves the 64-bit loops has at least 18 digits, so its fraction shifts nothing |
| Exponents.DigitLimitExactly | rapidjson/reader.h:1570-1698 | Over all number texts of one sign of exponent: numbers with up to n fraction digits all stay inside 32-bit int if and only if n is at most 214748055, or 2147483549 for negative exponents |
| Exponents.ShortNumberFits | rapidjson/reader.h:1570-1698 | The shift of the fraction, the bound, every accumulated exponent and the final sum fit int for every number text within the limit |
| Exponents.LongNumberOverflows | rapidjson/reader.h:1619-1658 | A failing text for both signs: 0., one zero more than the limit, and e2147483648 or e-99 |
| NumberText.NumberExactly | rapidjson/reader.h:1455-1730 | ReadNumber gives an end and an event if and only if a number of section 6 of RFC 8259 (stated apart from the parser) stands there, whole and not refused: an integer in its kind, or a double with exactly that text |
| NumberText.ShiftExactly | rapidjson/reader.h:1570-1616 | The shift of a fraction counts its digits up to the 18th significant one, or behind a zero up to the 17th behind the leading zeros |
| NumberText.FailsExactly | rapidjson/reader.h:1455-1658 | The three grammar errors are given exactly where the first digit of the integer part, of the fraction or of the exponent is missing |
| NumbersMachine.DigitLoop | rapidjson/reader.h:1480-1506 | The accumulated word is the exact value, within the limit of its kind; it stops early exactly when the next digit would exceed the limit, so nothing wraps |
| NumbersMachine.ParseIntPart | rapidjson/reader.h:1471-1567 | Integer part through the 32-bit and 64-bit loops: fails exactly off the grammar, and the kind is the tightest one |
| NumbersMachine.NegatedIsMinus | rapidjson/reader.h:1716-1729 | Two's-complement negation and cast give the true negative for every value up to 2^31 or 2^63 included |
| NumbersMachine.ParseFraction | rapidjson/reader.h:1572-1616 | Ends behind the last digit with the specified shift |
| NumbersMachine.ParseExponent | rapidjson/reader.h:1629-1658 | All digits are consumed, or the number is refused; the value is the accumulated one |
| NumbersMachine.RefusedExactly | rapidjson/reader.h:1651-1658 | Stopping in the middle of an exponent happens exactly when the whole exponent is beyond the bound |
| NumbersMachine.ParseNumber | rapidjson/reader.h:1455-1730 | End position, event kind and value, or the error, exactly as the grammar of RFC 8259 section 6 and the ranges of the integer kinds say |
| Encodings.DecodeIsRfc | rapidjson/encodings.h:146-176 | Decode accepts exactly the sequences of the grammar in section 4 of RFC 3629, takes all their bytes and gives their character number |
| Encodings.DecodeExactly | rapidjson/encodings.h:102-176 | Decode accepts exactly the encodings of Unicode scalar values and inverts Encode on each of them |
| Encodings.DecodeUpToNull | rapidjson/encodings.h:146-176 | What lies behind the terminator of a text is never decisive, although up to two bytes of it are taken |
| Encodings.EncodedIsReadBackExactly | rapidjson/encodings.h:102-121 | What Encode writes for a code point is decodable if and only if it is no surrogate |
| Encodings.Decode16Exactly | rapidjson/encodings.h:276-322 | The same for UTF-16, section 2 of RFC 2781 |
| Encodings.TranscodesExactly | rapidjson/encodings.h:658-667 | Transcoding a text to UTF-16 succeeds exactly on well-formed UTF-8 |
| Encodings.Utf8RoundTrip | rapidjson/encodings.h:658-667 | UTF-8 to UTF-16 and back is the identity, from any position |
| Encodings.Utf16RoundTrip | rapidjson/encodings.h:658-667 | UTF-16 to UTF-8 and back is the identity, from any position |
| Encodings.WholeText | rapidjson/encodings.h:658-667 | Well-formed texts survive the round trip and only those are transcoded |
| Encodings.MaskMeans | rapidjson/encodings.h:204-220 | Each mask over the byte table denotes the intended range of continuation bytes |
| EncodingsMachine.Decode | rapidjson/encodings.h:146-176 | Verdict, code point and bytes consumed, for every input, malformed ones included |
| EncodingsMachine.Validate | rapidjson/encodings.h:179-201 | The verdict and the bytes of Decode, and exactly those bytes copied to the output |
| EncodingsMachine.Encode | rapidjson/encodings.h:102-121 | The bytes appended for a code point |
| EncodingsMachine.Decode16 | rapidjson/encodings.h:307-322 | Verdict, code point and units consumed, for every input |
| EncodingsMachine.Encode16 | rapidjson/encodings.h:276-290 | The units appended for a scalar value |
| EncodingsMachine.Transcode | rapidjson/encodings.h:658-667 | One code point; nothing is written for ill-formed input |
| WriterProof.RunValue | rapidjson/writer.h:473-498 | From any state that expects a value, the events of a tree append the prefix and exactly the text of the tree, and restore the level stack with one value more |
| WriterProof.WriterPrints | rapidjson/writer.h:182-252 | A fresh writer, plain or pretty in any style, turns the events of a tree into the recursive text of the tree |
| WriterProof.ValidatedSame | rapidjson/writer.h:442-445 | What the validating writer accepts it writes as the other one does |
| WriterProof.LeadByteOverruns | rapidjson/writer.h:410-445 | A witness: F0 in front of the terminator of a string is read past it, by an ASCII and by a validating writer |
| WriterProof.WrittenExactly | rapidjson/writer.h:377-449 | With a Unicode target every string is written, but with the validating flag, and with an ASCII target, exactly the well-formed ones |
| WriterStrings.QuotedBack | rapidjson/writer.h:377-449 | The reader's decoder gives back every string that was written, for every target and with or without validation on either side, through escapes and surrogate pairs |
| WriterStrings.IntegerBack | rapidjson/writer.h:313-347 | A written integer is read as the same number, with the reader's kind |
| WriterLayout.PrintIsLines | rapidjson/prettywriter.h:208-255 | What the PrettyWriter writes are the lines of the tree: brackets, members and elements each on a line of their own unless the container is empty or arrays are kept on one line, and in front of a line indentCharCount characters for every open container |
| WriterLayout.PrintIsFlat | rapidjson/writer.h:473-498 | What the Writer writes has nothing between its tokens |
| WriterSpelling.StringExactly | rapidjson/writer.h:377-449 | A string is written exactly as its characters are: only quotation mark, reverse solidus and control characters are escaped, seven of them by a letter, the others by upper-case digits; beyond ASCII plainly, or by one escape or two for an ASCII target |
| WriterMachine.JsonWriter.WriteString | rapidjson/writer.h:377-449 | The characters appended for a string of any bytes, a refused sequence included, and the answer; memory behind the terminator is read if and only if the string overruns |
| WriterMachine.JsonWriter.WritePrefix | rapidjson/prettywriter.h:208-250 | Commas, colons, newlines and indentation by the parity and size of the level stack |
| WriterMachine.JsonWriter.WriteIndent | rapidjson/prettywriter.h:252-255 | Exactly the indentation of the depth |
| WriterMachine.JsonWriter.Start | rapidjson/prettywriter.h:123-161 | New level, bracket and prefix |
| WriterMachine.JsonWriter.End | rapidjson/prettywriter.h:137-180 | Newline and indentation only for non-empty containers, bracket, level popped |
| WriterMachine.JsonWriter.Event | rapidjson/writer.h:182-252 | Each handler call is one step of the specification that WriterPrints is about, but for the bytes of a refused sequence |
| RoundTrip.ReadingUndoesWriting | rapidjson/reader.h:558-589 | For every tree without doubles, every style, target encoding and flag set, the reader accepts the written text and reports exactly the events of the tree, its counts modulo 2^32 |
| RoundTrip.ReadValue | rapidjson/reader.h:739-852 | The same for a value printed at any depth inside a larger text |
| RoundTrip.ConcreteIsProper | rapidjson/reader.h:958-984 | The string and number parsers meet what the equivalence theorems ask of scalar parsers |
| DocumentParse.WrittenTreeIsParsedBack | rapidjson/document.h:2289-2299 | Writing a tree and parsing the text into a document with any of the three parsers (the pull parser without comments) gives the same tree if and only if no container has 2^32 children or more, and otherwise no single value |
| DocumentParse.CountIsLost | rapidjson/document.h:2495-2507 | The failing text: an array of 2^32 zeros, in every style, is accepted and is no single value in a document |
| DocumentParse.ParseLeavesOneValue | rapidjson/document.h:2289-2299 | Every accepted parse of any text is the trace of one tree, its counts in 32 bits; it leaves exactly that tree on the document's stack if and only if no container has 2^32 children or more |
| DocumentParse.ValueParsed | rapidjson/reader.h:1736-1750 | Every value parsed adds a complete trace of one tree, its counts in 32 bits |
| Document.ReplayValue | rapidjson/document.h:1898-1935 | Replaying any value through Accept into the handlers pushes exactly that value, whatever integer events are chosen |
| Document.EndsArray | rapidjson/document.h:2503-2507 | EndArray pops exactly the elements above the container it closes |
| Document.EndsObject | rapidjson/document.h:2495-2499 | EndObject pops exactly the names and values above the container it closes, in order |
| Document.FlagsAreRanges | rapidjson/document.h:742-780 | Whatever constructor made it, an integer carries the flags of exactly the ranges it lies in, and Accept sends a kind that fits |
| DocumentMachine.GenericDocument.EndArray | rapidjson/document.h:2503-2507 | The stack after moving the elements into their container |
| DocumentMachine.GenericDocument.EndObject | rapidjson/document.h:2495-2499 | The stack after moving names and values into their container |
| DocumentMachine.GenericDocument.Event | rapidjson/document.h:2467-2507 | Each handler call is one step of the specification |
| DocumentMachine.GenericDocument.Accept | rapidjson/document.h:1898-1935 | The recursive replay leaves exactly one copy of the value more |
| Equality.EqualExactly | rapidjson/document.h:965-1004 | Values of which one is no number are equal if and only if they are the same null, boolean or string, arrays of pairwise equal elements, or objects of as many members, each equal to the first member of its name on the right |
| Equality.DoublesEqualExactly | rapidjson/document.h:993-997 | Two numbers of which one is a double are equal if and only if they are the same as doubles |
| Equality.Reflexive | rapidjson/document.h:965-1004 | Equality is reflexive on duplicate-free values, doubles included |
| Equality.Symmetric | rapidjson/document.h:965-1004 | Equality is symmetric on the same values |
| Equality.Transitive | rapidjson/document.h:965-1004 | Equality is transitive on all values without doubles, with duplicate names and integers of the whole 64-bit range |
| Equality.OrderIgnored | rapidjson/document.h:968-980 | Objects with the same members in any order are equal |
| Equality.IntegersEqualExactly | rapidjson/document.h:999 | Integers are equal if and only if they are the same number or differ by 2^64 |
| Equality.SymmetricExactly | rapidjson/document.h:968-980 | Where an object equals a duplicate-free one, the converse holds if and only if it is duplicate-free itself |
| Equality.EqualOnTheLeftExactly | rapidjson/document.h:961-963 | For members with duplicate-free values: as a left operand an object has an equal one if and only if its members of the same name have equal values; so there the documented promise, that duplicate names make objects unequal to all, holds exactly where two of them differ |
| Equality.EqualOnTheRightAlways | rapidjson/document.h:961-963 | As a right operand every object with duplicate-free member values has an equal one, so there the promise never holds |
| Equality.SymmetricOverAllExactly | rapidjson/document.h:968-980 | For members with duplicate-free values: equality is symmetric in an object if and only if it has no duplicate name, or two members of the same name differ |
| Equality.DuplicatesCanBeEqual | rapidjson/document.h:961-963 | A witness: two members of the same name, and the object is equal to itself |
| Equality.NotSymmetric | rapidjson/document.h:968-980 | A witness: two objects for which equality depends on the side |
| Equality.FindMember | rapidjson/document.h:1284-1292 | The first member of that name, or the end |
| Hasher.EqualHashes | rapidjson/schema.h:220-307 | Equal values have equal hash codes: members are combined in any order, elements in theirs |
| Hasher.HasherComputesHash | rapidjson/schema.h:226-272 | The streaming hasher leaves exactly the recursive hash of the value on its stack, in any context |
| Hasher.PairsAreMembers | rapidjson/schema.h:252-260 | The loop over popped name and value codes combines exactly the member hashes |
| HasherLaws.OneByteTells | rapidjson/schema.h:289-301 | Strings that differ in one byte have different hash codes |
| HasherLaws.OneElementTells | rapidjson/schema.h:262-270 | Arrays that differ in one element have equal hash codes if and only if the two elements have |
| HasherLaws.OneMemberTells | rapidjson/schema.h:252-260 | Objects that differ in the value of one member have equal hash codes if and only if the two values have |
| HasherLaws.MixExactly | rapidjson/schema.h:303-308 | A step of the hash loses nothing: with either operand kept it is injective in the other |
| HasherLaws.NumberMemoryExactly | rapidjson/schema.h:228-238 | An integer is hashed as the eight bytes of its 64-bit pattern, lowest first, and the bytes of its double |
| HasherLaws.KindCodes | rapidjson/schema.h:226-270 | The hash codes of null, of the booleans, of the empty string and of the empty containers |
| HasherMachine.EventHasher.WriteBuffer | rapidjson/schema.h:292-299 | FNV-1a over the type and the bytes |
| HasherMachine.EventHasher.EndObject | rapidjson/schema.h:252-260 | The stack after the member loop |
| HasherMachine.EventHasher.EndArray | rapidjson/schema.h:262-270 | The stack after the element loop |
| HasherMachine.EventHasher.Event | rapidjson/schema.h:226-272 | Each event is one step of the specification |
| Pointer.IndexExactly | rapidjson/pointer.h:961-978 | The index of a digit token is its value if and only if the value fits 32 bits |
| Pointer.IndexOfEveryNumber | rapidjson/pointer.h:961-978 | For every number token, of any length: the index is invalid if and only if the wrapped value drops at some digit or ends on the mark itself, and otherwise is the value modulo 2^32 |
| Pointer.OverflowIsCaughtExactly | rapidjson/pointer.h:88-90 | A number beyond SizeType gets the promised invalid index if and only if the wrapped value drops at some digit or ends on the mark |
| Pointer.OverflowIsMissed | rapidjson/pointer.h:88-90 | A witness: five thousand million is taken for the index 705032704 |
| Pointer.BehindMattersExactly | rapidjson/pointer.h:858-883 | What lies behind the source changes nothing if and only if the source is not empty, or no hash sign lies there, or a slash behind it |
| Pointer.CutOffIsRead | rapidjson/pointer.h:1053 | A witness: `#/%E2` is refused, after the character behind it has been read |
| Pointer.LeadByteOverruns | rapidjson/pointer.h:1020-1026 | A witness: F0 in front of the terminator of a name is read past it |
| Pointer.OverflowIsMissedEarlier | rapidjson/pointer.h:88-90 | A witness that leaves 32 bits before its last digit: fifty thousand million is taken for 2755359744 |
| PointerProof.ParseUndoesStringify | rapidjson/pointer.h:863-1033 | Parsing the stringified form, plain or URI fragment, gives back the same names, each with its own index |
| PointerProof.StringifyExactly | rapidjson/pointer.h:1002-1033 | Every pointer has a plain form; a URI fragment form if and only if all names are well-formed UTF-8 |
| PointerProof.StringifyUndoesParse | rapidjson/pointer.h:863-1033 | Stringifying any accepted plain pointer gives back the same text |
| PointerProof.NameTextExactly | rapidjson/pointer.h:1010-1030 | The same for one name, from any of its code units on |
| PointerFragment.DecodingFirstExactly | rapidjson/pointer.h:894-980 | An accepted URI fragment is parsed as section 6 of RFC 6901 words it, decoding first, if and only if no triplet decodes to a slash |
| PointerFragment.EncodedSlashStays | rapidjson/pointer.h:905-922 | A witness: `#/%2F` is one token, where decoding first gives two |
| PointerFragment.EncodedEscapeIsRefused | rapidjson/pointer.h:931-948 | A witness: `#/~%30` is refused, where decoding first gives the name `~` |
| PointerFragment.TokensCount | rapidjson/pointer.h:872-876 | Every accepted pointer has as many tokens as raw slashes |
| PointerText.PointerExactly | rapidjson/pointer.h:858-993 | Parse accepts a text if and only if it is a pointer of the grammar of RFC 6901 (plain, or behind a hash sign a fragment with the unreserved characters of RFC 3986 and triplets), and gives the tokens it spells |
| PointerText.ParseFailsExactly | rapidjson/pointer.h:858-993 | Each error is given, with its offset, if and only if tokens of the grammar are followed by a name that breaks off there: at a character to be percent-encoded, behind a tilde without its digit, at triplets that spell no character; or the text begins without a slash |
| PointerText.RoundExactly | rapidjson/pointer.h:901-955 | A round takes exactly one part of a name: a character for itself, an escape, or the triplets of one character |
| PointerText.RefusedExactly | rapidjson/pointer.h:901-955 | A round fails exactly where the grammar refuses |
| PointerText.UnreservedExactly | rapidjson/pointer.h:851 | Exactly the characters of section 2.3 of RFC 3986 need no percent-encoding |
| PointerText.ArrayIndexExactly | rapidjson/pointer.h:950-963 | A name is tried as an index if and only if it is one of section 4 of RFC 6901: a zero, or digits without a leading zero |
| PointerText.StringifiedExactly | rapidjson/pointer.h:1002-1033 | Stringify writes exactly this: a slash before every name, tilde and slash escaped, and in a fragment unreserved characters plainly and every other one as upper-case triplets |
| PointerMachine.PercentDecodeStream.Take | rapidjson/pointer.h:1052-1072 | A triplet gives its byte; anything else gives null and marks the stream; where it stands then, and that it looks behind the source exactly when it begins at the end |
| PointerMachine.Validate | rapidjson/encodings.h:179-201 | Into the name buffer: at most four bytes are written, more than one only behind a valid triplet; the character behind the source is read if and only if the sequence is cut off |
| PointerMachine.ParseIndex | rapidjson/pointer.h:965-978 | The index loop in 32 bits |
| PointerMachine.ParseRound | rapidjson/pointer.h:901-955 | One round: the code units written and their place, or the error and its offset; nothing in front of the name is touched, and every write is inside the buffer |
| PointerMachine.ParseToken | rapidjson/pointer.h:894-980 | One token: its name in the buffer with its terminator, its length and its index |
| PointerMachine.ParsePointer | rapidjson/pointer.h:863-993 | For every source, the buffer of the length of the source is never written past its end, the token array is filled exactly, and tokens or error and offset are the specified ones; memory behind the source is needed only where `Pointer.ReadsEnd` says that it is read |
| PointerMachine.PutName | rapidjson/pointer.h:1010-1030 | The text of a name, and failure exactly on ill-formed UTF-8 in a URI fragment; memory behind the name is read if and only if it overruns |
| PointerMachine.StringifyTo | rapidjson/pointer.h:1002-1033 | The text of the pointer appended to the stream |
| PointerDom.CreateExistsExactly | rapidjson/pointer.h:461-508 | Create reports alreadyExist exactly when Get resolves beforehand, and then leaves the document unchanged |
| PointerDom.GetAfterCreate | rapidjson/pointer.h:461-508 | After Create, Get resolves if and only if no "-" was applied to an array, and then gives the old value or the created null |
| PointerDom.EraseIsGetExactly | rapidjson/pointer.h:772-810 | Over all documents Erase returns true exactly where Get resolves, if and only if the last name contains no null character (the name is passed on as a C string) |
| PointerDom.FailedEraseChangesNothing | rapidjson/pointer.h:772-810 | When Erase returns false the document is unchanged |
| PointerDom.EraseKeepsOthers | rapidjson/pointer.h:772-810 | What branches off from the way to the erased child, by name or by index, resolves to the same value, one place further down behind an erased element |
| PointerChanges.GetExactly | rapidjson/pointer.h:540-568 | Get gives a value if and only if the tokens lead to it, step by step: to the first member of a name, or to the element at an index |
| PointerChanges.CreateGrows | rapidjson/pointer.h:461-508 | Every container on the way of Create, old or new, is what its token makes of it: a missing member stands behind all old ones, missing elements are nulls behind all old ones, everything else is as it was, and only a value that cannot hold the child is replaced |
| PointerChanges.MinusIsTheEnd | rapidjson/pointer.h:466-470 | "-" on an array does what the index of the element behind the last does |
| PointerChanges.CreateKeepsOthers | rapidjson/pointer.h:461-508 | What branches off from the way of Create, at a container that the token keeps, resolves to the same value |
| PointerChanges.EraseRemoves | rapidjson/pointer.h:772-810 | A successful Erase takes exactly the named child from its container, the others keeping their order, and changes no other member or element on the way |
| PointerChanges.CStringStops | rapidjson/pointer.h:801 | The name that Erase looks for ends at the first null character |
| PointerDomMachine.Dom.FindChild | rapidjson/pointer.h:547-562 | Where one token leads from a value |
| PointerDomMachine.Dom.Get | rapidjson/pointer.h:540-568 | The walk ends at a place that holds what the pointer resolves to, or nowhere |
| PointerDomMachine.Dom.MakeChild | rapidjson/pointer.h:464-499 | One round of Create: the document changes at the cursor only, as specified |
| PointerDomMachine.Dom.Create | rapidjson/pointer.h:461-508 | The document and alreadyExist after the walk |
| PointerDomMachine.Dom.Erase | rapidjson/pointer.h:772-810 | The document and the answer after the walk |
| Pool.EveryRunIsSafe | rapidjson/allocators.h:158-262 | After every run of Malloc, Realloc and Clear with sizes whose sums do not wrap around, and any answers of the base allocator, live blocks are pairwise disjoint, 8-byte rounded and inside the used part of one chunk; Size is the sum of the rounded allocations and at most Capacity |
| Pool.RunKeepsValid | rapidjson/allocators.h:158-262 | The invariant behind it, from any valid state |
| Pool.MallocKeepsValid | rapidjson/allocators.h:189-201 | Malloc keeps the invariant where no sum wraps around |
| Pool.MallocSafeExactly | rapidjson/allocators.h:189-201 | For every size_t, Malloc keeps the invariant and hands out at least the size, whatever the base allocator answers, if and only if no sum wraps around: rounding, used size plus block, header plus block; or a size rounded down to nothing finds no chunk |
| Pool.ReallocSafeExactly | rapidjson/allocators.h:204-235 | The same for Realloc of a block the caller holds, growing in place or moving |
| Pool.WrappedBlocksOverlap | rapidjson/allocators.h:189-201 | A failing run: after Malloc of 2^64 - 1 bytes the next block gets the same address |
| Pool.WrappedCapacityIsUnsafe | rapidjson/allocators.h:250-262 | A failing pool: a chunk capacity that wraps around with a header |
| Pool.ObjectsFit | rapidjson/allocators.h:189-201 | Sizes up to PTRDIFF_MAX never wrap around in a valid pool |
| Pool.MallocPlace | rapidjson/allocators.h:189-201 | A fresh block begins where the used part of its chunk ended and fits the capacity |
| Pool.ReallocKeepsValid | rapidjson/allocators.h:204-235 | Realloc keeps the invariant where no sum wraps around |
| Pool.ReallocMovesExactly | rapidjson/allocators.h:204-235 | The address stays if and only if the block need not grow or can grow as the last one of the head chunk; all other blocks stay where they are, and a moved block is new |
| Pool.ClearKeepsValid | rapidjson/allocators.h:158-167 | Clear keeps the invariant and leaves nothing in use |
| Pool.SizeWithinCapacity | rapidjson/allocators.h:171-186 | Size never exceeds Capacity |
| Pool.AlignExactly | rapidjson/rapidjson.h:275-277 | Rounding in 64 bits gives the next multiple of eight if and only if the size is at most 2^64 - 8 |
| Pool.HasRoomExactly | rapidjson/allocators.h:194-195 | The room test in 64 bits is right for every capacity if and only if the sum does not wrap |
| PoolSteps.MallocExactly | rapidjson/allocators.h:189-201 | Malloc, told without 64-bit arithmetic: the rounded size is taken from the head chunk if it has room, or else from a new chunk of the usual capacity or of the size of the block, if it is granted |
| PoolSteps.ReallocExactly | rapidjson/allocators.h:204-235 | Realloc, told likewise: nothing shrinks, the last block of the head chunk grows in place if there is room, and any other block is allocated afresh |
| PoolSteps.ReallocOfNothing | rapidjson/allocators.h:204-209 | A null pointer is allocated afresh; a size of zero gives nothing and changes nothing |
| PoolSteps.ClearLeavesBuffer | rapidjson/allocators.h:158-167 | After every run Clear leaves no block and no chunk, but for the user buffer, empty and with its capacity of the buffer less the header |
| Allocator.MemoryPoolAllocator.WithBuffer | rapidjson/allocators.h:138-149 | A pool over a user buffer |
| Allocator.MemoryPoolAllocator.AddChunk | rapidjson/allocators.h:250-262 | A new head, or no change at all |
| Allocator.MemoryPoolAllocator.Malloc | rapidjson/allocators.h:189-201 | Place and bookkeeping over the linked chunks; no memory is written |
| Allocator.MemoryPoolAllocator.Expand | rapidjson/allocators.h:216-235 | In place exactly where GrowsInPlace holds, otherwise by a new block with the contents copied |
| Allocator.MemoryPoolAllocator.MoveBlock | rapidjson/allocators.h:227-235 | The new block has the contents of the old one, and no used byte anywhere changes |
| Allocator.MemoryPoolAllocator.Realloc | rapidjson/allocators.h:204-235 | State and result as specified, the invariant kept, old contents in the result, every used byte of every chunk unchanged |
| Allocator.MemoryPoolAllocator.Size | rapidjson/allocators.h:181-186 | The walk down the chunks gives the sum of the used sizes |
| Allocator.MemoryPoolAllocator.Capacity | rapidjson/allocators.h:171-176 | The walk down the chunks gives the sum of the capacities |
| Allocator.MemoryPoolAllocator.Clear | rapidjson/allocators.h:158-167 | All chunks but the user buffer are gone, and that is empty |
| WorkerPoolProof.StepKeepsInv | test.py:965-1033 | Every step of the dispatcher, a worker, the collector, the joiner or an interrupt keeps the invariant |
| WorkerPoolProof.RunKeepsInv | test.py:965-1033 | So does every interleaving |
| WorkerPoolProof.MeasureDrops | test.py:965-1033 | Every step makes a measure of the whole system smaller |
| WorkerPoolProof.EveryRunEnds | test.py:1399-1832 | No schedule is longer than 8 * processors + 6 * tests + 2 steps |
| WorkerPoolProof.NeverStuckExactly | test.py:1664-1692 | The system can always go on until it has returned, in every reachable state, if and only if there is a worker or there is no test |
| WorkerPoolProof.DeliveredExactlyOnce | test.py:1667-1692 | When run_tests returns, every test was collected exactly once, both queues are empty, and every worker stopped on a poison job of its own |
| WorkerPoolProof.CountsPartition | test.py:1682-1718 | The six verdicts partition the collected jobs |
| WorkerPoolProof.ExitCodeMeaning | test.py:1913-1916 | The counts partition the tests, and the result is 0 if and only if every test passed or was skipped; an interrupted job implies the interrupt flag |
| WorkerRuns.EveryTestIsRun | test.py:965-1033 | When run_tests returns, every test was checked by a worker exactly once; it was run exactly once if it is not skipped and no interrupt came before its check, and otherwise never; its return code is that of its run |
| WorkerRuns.ExitCodeIsZero | test.py:1913-1916 | The result is 0 if and only if no test was broken off and the one run of every test that is not skipped ended with 0; otherwise it is 1 |
| WorkerRuns.CountsMeaning | test.py:1682-1718 | Passed, failed, valgrind and crashed count the tests whose run ended with 0, 1, 2 and any other code; skipped those passed over without an interrupt |
| WorkerRuns.FlagIsInterrupt | test.py:1664-1692 | The interrupt flag is set exactly when an interrupt has come |

## Left out

Weaker than the source, member by member:

- ReaderEquivalence.IterativeIsRecursive: error codes and error offsets are not compared, because the two parsers report different codes for a first token such as `]`.
- ReaderLanguage.ParseExactly: says nothing of the events that a refused text has delivered before its error; they are only known to be the same for the recursive and the iterative parser.
- NumbersMachine.ParseNumber: no value is computed for doubles; the conversion and its overflow test are a parameter, and NaN, Infinity and numbers kept as strings are not modelled.
- RoundTrip.ReadingUndoesWriting: trees without doubles, since the digits a double is printed with are not modelled.
- Equality.Transitive: values without doubles, since an integer and a double are compared after rounding; NaN, which is equal to nothing, is not modelled.
- Hasher.EqualHashes: values without doubles and without integers from 2^63 on, which can equal a value of another kind or sign; the floating-point image of an integer that enters its hash is a parameter.
- SchemaProof.StreamingIsRecursive: schemas without patterns, enum, uniqueItems, multipleOf, string lengths and references; the conversions to double that numeric bounds use are a parameter.
- SchemaDraft.StreamingIsDraft: one direction only, because a schema that breaks a condition can mean the same through its other keywords; the exact conditions are those of the single keywords.
- Schema.DependencySlot: slots of dependency schemas follow the order of the properties; the source numbers them in the order of `dependencies`. No verdict depends on it.
- Equality.SymmetricOverAllExactly: and the two lemmas beside it, for objects whose member values are duplicate-free themselves.
- Pool.EveryRunIsSafe: user buffers up to PTRDIFF_MAX, the largest object there is; chunk capacities up to where the header wraps around.
- WriterMachine.JsonWriter.WriteString: the string is followed by a null character in memory, as strings of documents are; the source accepts a pointer and a length without one.

Not modelled:

- Floating point: strtod, dtoa, NaN and Infinity. A double is its literal text where it occurs in a value.
- The digit tables of itoa; integers print in canonical decimal form.
- Regular expressions and with them `pattern` and `patternProperties`; verdicts of `enum` and `uniqueItems`, which depend on hash collisions; `multipleOf`; `minLength` and `maxLength`.
- Compilation of a schema document, `$ref` and the objects that report errors. A schema is given in its compiled form, as a finite tree.
- Sub-validators are values inside their contexts, so sharing of one validator by two places is not captured.
- Error codes and offsets of the three structural parsers.
- Scanning with vector instructions; file, wide and encoded streams, byte order marks, UTF-16 with byte order, UTF-32 and ASCII as source encodings.
- Values of int beyond its range, where the source has no defined behaviour; the exact condition is stated instead.
- Wrap-around of the writer's value count, raw values and raw numbers, and a pretty writer whose format options were never initialised.
- The cursor of a pointer walk is a path into the tree instead of an address, so two aliases of one node are not captured. The same holds for capacities, reserved space and move semantics of values.
- The memory of the pool is one byte sequence per chunk; whether the base allocator grants a chunk is a parameter of each call. Free does nothing in the source.
- Packing of pointers, short-string layout, template traits.
- In `test.py`: running a job (its return code is arbitrary), options, reports and files. In the runner's model a step is one queue operation or one look at the interrupt flag.
- The ns-3 scenario programs, topology scripts and build files: straight-line setup.
