# Proofs about the JSON normaliser, the mining engine and the vendored libraries

This project models the parts of the miner whose correctness is hardest to see from one
function, and proves what they promise. Code that computes a value is a function; code that
changes an object, a buffer or a lock-protected state step by step is a method of a class or
over an array, proved equal to a function of the old state, and the theorems are about that
function. `dafny verify dfyconfig.toml` checks everything.

## What is modelled

**The JSON normaliser** (`lx_rapidjson_minify`, called by `rapidjson_minify`).
`Bytes`, `Json` and `Scalars` hold the shared vocabulary: NUL-terminated streams, handler events,
document values, and what one scalar token means. `RecursiveDescent` and `Automaton` are the two
parsers of `GenericReader` as functions from a text to events and an error; `Reader` is the object
that computes both with a cursor, a stack and a result. `ParserEquivalence` proves that they
are the same parser up to one exception. `Document`, `NumberFlags` and `Writer` are the stack that
folds events into a value, the flags kept beside a number, and the level stack that
writes it out again. `RoundTrip`, `Accepted` and `Minify` compose them: what is written reads
back as the same tree, minifying preserves meaning, is idempotent and never makes a text
longer. `Spelling` and `Grammar` are RFC 8259 written down by itself, as trees that keep every byte of
a text, and show that the texts the reader accepts, and the documents they become, are those of
that grammar; `ReadErrors` explains the errors of all other texts. `Bridge` is the bounded C buffer and the doubling loop around it. `Utf8` is the encoder, the
table-driven decoder and the transcoder, against the grammar of section 4 of RFC 3629.

**The schema validator.** `Schema` says what it means for a value to satisfy a schema, by
recursion over both. `SchemaValidator` is the streaming validator: a stack of contexts and the
sub-validators run in parallel inside them. `SchemaStreaming` and `SchemaTheorem` prove that
streaming decides satisfaction, from any state in mid-stream; `SchemaReading` feeds it from the
reader; `SchemaHandlers` are the handlers with their loops; `SchemaProperties` is how `properties`
and `required` are gathered, through the schema map.

**The mining engine.** `DatasetCache` and `CacheRuns` are `get_or_build` as interleaved steps of any
number of calls. `Nonce`, `Mining` and `Miner` are the masked write into the block, the
strided search and the worker that batches sixteen blocks. `Target` is the nested division
between a Stratum target and an accepted hash. `Dns` is the resolver's query and response format.

**Algorithms of the vendored RapidJSON tree.** `Limbs`, `Borrowing` and `BigInteger` are
multi-limb arithmetic in an array of 64-bit words. `PointerTree`, `PointerEdit`, `PointerText`,
`PointerErrors` and `PointerParser` are JSON pointers as paths and as text. `DotSegments` rewrites a URI path in place.
`MembersMap` is the object with and without a multimap of names. `Pool` is the memory pool.
`Arithmetic` holds facts about quotients.

## What the proofs found

Each of these is a lemma with a concrete input or an exact condition.

- The two parsers report different errors for a text that begins with `]`, `}`, `,` or `:`, and agree on
  every other text (`ParserEquivalence.ParsersAgree`).
- `BigInteger::Difference` loses a borrow where one comes in and the subtrahend limb is 2^64 - 1
  (`Borrowing.BorrowLost`); `Borrowing.DiffIsExact` is the condition under which it does not.
- `BigInteger::operator<<=` writes one limb more than its assertion allows for, so a decimal
  string can fit the capacity and its construction still write behind the array
  (`BigInteger.FittingIsNotEnough`); `BigInteger.StaysInside` is the condition under which it does not.
- The overflow test of a pointer's array index misses wrapping around (`PointerText.OverflowMissed`);
  `PointerText.PassesOverflowTest` tells for which names, and `PointerText.IndexExact` when an index is right.
- `RemoveDotSegments` cites RFC 3986, and agrees with it exactly on the paths in step: those on which
  no `..` backs over the first segment of a relative path for good (`DotSegments.RemovedOrAhead`,
  `DotSegments.RelativePathsDiffer`).
- A property declared twice keeps the schema of its first declaration, not of its last
  (`SchemaProperties.FirstDeclarationWins`, `SchemaProperties.SecondDefaultIgnored`).
- A property that only `required` lists escapes `additionalProperties`, and a missing required
  property is allowed if its schema has a non-empty default string (`SchemaProperties`).
- Two calls of the dataset cache can build at the same time exactly if two keys are in play
  (`CacheRuns.OverlapNeedsTwoKeys`).
- The last, incomplete group of sixteen nonces under the NiceHash mask is never hashed
  (`Mining.HashesWholeGroups`); on plain jobs two workers meet after a wrap unless their
  number divides 2^32 (`Mining.ApartForEver`).
- The two divisions can accept a hash that is not below the target, the target itself for one
  (`Target.EqualAccepted`), but none from twice the target on (`Target.TargetDecides`);
  `Target.TargetIsExact` tells for which targets acceptance is exact.

## Model

| member | source | states |
|---|---|---|
| `ParserEquivalence.ParsersAgree` | src/3rdparty/rapidjson/reader.h:2192-2224 | For every text and both flags the pushdown automaton and recursive descent give the same events with the same member and element counts, the same error code and the same offset, if and only if the first token is not punctuation; on punctuation one says DocumentEmpty and the other ValueInvalid, at the same place |
| `ParserEquivalence.SimulateValue` | src/3rdparty/rapidjson/reader.h:2011-2160 | From any nested configuration that expects a value, the automaton goes on exactly as recursive descent does on that value |
| `ParserEquivalence.SimulateMembers` | src/3rdparty/rapidjson/reader.h:740-804 | The automaton's member states with their count on the stack simulate the member loop of ParseObject |
| `ParserEquivalence.SimulateElements` | src/3rdparty/rapidjson/reader.h:808-853 | The automaton's element states simulate the element loop of ParseArray |
| `Automaton.TransitKeepsWellFormed` | src/3rdparty/rapidjson/reader.h:2011-2160 | Every transition keeps the stack discipline (states and counts in pairs, as deep as the state needs), consumes input and only extends the events |
| `Scalars.OverflowIsExact` | src/3rdparty/rapidjson/reader.h:1487-1575 | The digit-by-digit limit tests fire exactly when one more digit would pass 2^31, 2^32-1, 2^63 or 2^64-1 |
| `Reader.Reader.SkipWhitespace` | src/3rdparty/rapidjson/reader.h:266-273 | Moves the cursor past exactly the white space |
| `Reader.Reader.ParseHex4` | src/3rdparty/rapidjson/reader.h:906-925 | Reads four hexadecimal digits or reports the escape's offset |
| `Reader.Reader.ParseUnicodeEscape` | src/3rdparty/rapidjson/reader.h:1022-1045 | Reads an escape or a surrogate pair; lone and mismatched surrogates are errors |
| `Reader.Reader.ParseString` | src/3rdparty/rapidjson/reader.h:959-1068 | Reads a string token into its bytes, or fails with the code and offset the grammar gives |
| `Reader.Reader.ParseNumber` | src/3rdparty/rapidjson/reader.h:1468-1748 | Reads the integer part of a number and emits it as the narrowest of the four kinds |
| `Reader.Reader.ParseLiteral` | src/3rdparty/rapidjson/reader.h:856-892 | Reads null, true or false and reports where a wrong one stops |
| `Reader.Reader.ParseValue` | src/3rdparty/rapidjson/reader.h:1752-1765 | Dispatches on the first character, leaving cursor, events and result as the grammar says |
| `Reader.Reader.ParseObject` | src/3rdparty/rapidjson/reader.h:740-804 | The member loop: events, count, trailing comma and every error position |
| `Reader.Reader.ParseArray` | src/3rdparty/rapidjson/reader.h:808-853 | The element loop likewise |
| `Reader.Reader.Parse` | src/3rdparty/rapidjson/reader.h:559-590 | The whole recursive parse, with the root-singular check unless told to stop when done |
| `Reader.Reader.Transit` | src/3rdparty/rapidjson/reader.h:2011-2160 | One transition on the reader's own stack has the effect the automaton prescribes |
| `Reader.Reader.IterativeParse` | src/3rdparty/rapidjson/reader.h:2192-2224 | The loop over transitions ends as the automaton's run does |
| `Spelling.UnicodeRead` | src/3rdparty/rapidjson/reader.h:1022-1045 | A `\u` escape is read as the scalar value whose UTF-16 units its digits spell: one unit, or both of a surrogate pair, high digit first, in letters of either case |
| `Spelling.UnicodeOf` | src/3rdparty/rapidjson/reader.h:1022-1045 | And whatever is read as a `\u` escape is such units of the value it is read as |
| `Spelling.SpellingRead` | src/3rdparty/rapidjson/reader.h:991-1068 | A string of bytes that stand for themselves, the eight two-character escapes and `\u` escapes is read as what it spells |
| `Spelling.SpellingOf` | src/3rdparty/rapidjson/reader.h:991-1068 | Every string that is read is spelled so; of one that is refused, the offset is behind its longest part spelled so, and what stands there calls for that error code |
| `Spelling.WriterSpells` | src/3rdparty/rapidjson/writer.h:384-456 | What the writer writes for a byte spells that byte |
| `Grammar.SkipGap` | src/3rdparty/rapidjson/reader.h:266-273 | White space is skipped exactly: space, tab, line feed and carriage return |
| `ReadErrors.ErrorsStand` | src/3rdparty/rapidjson/reader.h:740-1068 | Every error stands where it is reported: for each code, what is at its offset (and not white space) calls for it, be it a missing name, colon, comma, bracket or quotation mark, a broken word, sign or escape, an empty text or one that goes on |
| `Grammar.LiteralFails` | src/3rdparty/rapidjson/reader.h:856-892 | A wrong literal is refused at the first character in which it differs from the word |
| `Grammar.NumberFails` | src/3rdparty/rapidjson/reader.h:1468-1748 | A number is refused as invalid only where a digit is missing at its start |
| `Grammar.NodeRead` | src/3rdparty/rapidjson/reader.h:1752-1765 | The text of a tree of RFC 8259, with any white space, spelling and nesting, is read with the events of the tree and to its end |
| `Grammar.NodeOf` | src/3rdparty/rapidjson/reader.h:1752-1765 | Every value that is read is the text of such a tree, and reading stops behind it |
| `Grammar.AcceptedTextsAreTrees` | src/3rdparty/rapidjson/reader.h:559-590 | The accepted texts, without or with the flag for trailing commas, are exactly the texts of trees between white space |
| `Grammar.NodeBuilds` | src/3rdparty/rapidjson/document.h:2821-2861 | The events of a tree put the one value it denotes on the stack |
| `Grammar.DocumentsAreDenoted` | src/bridge/native_bridge.cpp:34-38 | A text has a document exactly if it is the text of a tree, and the document is the value the tree denotes |
| `Grammar.TextPrintable` | src/3rdparty/rapidjson/writer.h:384-456 | What the writer writes holds no control characters, so no line ends and no NUL |
| `Grammar.MinifyingKeepsMeaning` | src/bridge/native_bridge.cpp:29-55 | Exactly the texts of trees are minified, to printable texts of trees for the same value |
| `Document.CopyMembers` | src/3rdparty/rapidjson/document.h:2415-2428 | Entries of the value stack become members, two and two in order |
| `Document.PopElements` | src/3rdparty/rapidjson/document.h:2855-2861 | Ending an array folds exactly its own elements, in order, into the value below them |
| `Document.PopMembers` | src/3rdparty/rapidjson/document.h:2845-2853 | Ending an object folds exactly its own names and values, in order, into the value below them |
| `Document.PairsOfFlatten` | src/3rdparty/rapidjson/document.h:2849-2853 | Laying members out on the stack and reading them back are inverse |
| `Document.Document.On` | src/3rdparty/rapidjson/document.h:2821-2861 | One handler call changes the stack as the event says |
| `Document.Document.Populate` | src/3rdparty/rapidjson/document.h:2623-2630 | A log of events that builds one value leaves that value as the document |
| `NumberFlags.FlagsSayWhatFits` | src/3rdparty/rapidjson/document.h:792-828 | Whichever of the four integer constructors is used, each flag is set exactly if the number fits that kind |
| `NumberFlags.EqualNumbersLookAlike` | src/3rdparty/rapidjson/document.h:1948-1985 | Equal numbers have equal flags, so what the document sends on depends on the number alone and fits its kind |
| `Writer.Writer.Prefix` | src/3rdparty/rapidjson/writer.h:480-498 | The separator before a value follows from the level's count and kind, and only strings are names |
| `Writer.Writer.WriteString` | src/3rdparty/rapidjson/writer.h:384-456 | Writes the escaped form of any byte string, quotes included |
| `Writer.Accept` | src/3rdparty/rapidjson/document.h:1948-1985 | Feeding a document to the writer appends exactly its text, at any level |
| `RoundTrip.StringReadBack` | src/3rdparty/rapidjson/reader.h:991-1068 | Escaping and unescaping are inverse on arbitrary bytes |
| `RoundTrip.NumberReadBack` | src/3rdparty/rapidjson/reader.h:1468-1748 | The decimal text of every number in [-2^63, 2^64-1] reads back as that number |
| `RoundTrip.ValueReadBack` | src/3rdparty/rapidjson/document.h:1948-1985 | The text of any value, wherever it stands, parses with the events of that value and stops right behind it |
| `Minify.TextDenotesValue` | src/bridge/native_bridge.cpp:29-55 | Parsing what Accept writes rebuilds the same ordered tree, duplicate names and arbitrary byte strings included |
| `Minify.DenotedValues` | src/bridge/native_bridge.cpp:34-38 | The values texts denote are exactly those whose numbers are in range |
| `Minify.MinifyPreserves` | src/bridge/native_bridge.cpp:29-55 | Minified text denotes the same value, is a fixed point of minifying, is never longer than the input and keeps valid UTF-8 valid |
| `Minify.RejectedIsError` | src/bridge/native_bridge.cpp:34-38 | A text is refused exactly when the reader reports an error |
| `Minify.SameDomFromAutomaton` | src/3rdparty/rapidjson/reader.h:2192-2224 | The document does not depend on which parser read the text |
| `Accepted.NumberIsExact` | src/3rdparty/rapidjson/reader.h:1468-1748 | An accepted integer is exactly the number its digits denote; only -0 loses its sign |
| `Accepted.StringNoLonger` | src/3rdparty/rapidjson/writer.h:384-456 | Escaping a string again never takes more room than its token did |
| `Accepted.StringStaysValid` | src/3rdparty/rapidjson/reader.h:991-1068 | In well-formed UTF-8 a string token decodes to well-formed UTF-8 |
| `Accepted.ValueBuilds` | src/3rdparty/rapidjson/document.h:2821-2861 | The events of an accepted value build exactly one value on top of the stack, in range, no longer than its text, and UTF-8 if the text was |
| `Bridge.LxRapidjsonMinify` | src/bridge/native_bridge.cpp:29-55 | Parser, document, writer and bounded buffer composed: success exactly if the text is accepted and the result with its terminator fits |
| `Bridge.RapidjsonMinify` | src/native_bridge.rs:30-58 | On every valid UTF-8 string without NUL the doubling loop returns the minified form, after at most two rounds and with a buffer of at most twice the first size; a NUL byte gives nothing |
| `Utf8.CharIsEncoding` | src/3rdparty/rapidjson/encodings.h:102-121 | A well-formed character is the encoding of the scalar value it stands for |
| `Utf8.EncodeThenDecode` | src/3rdparty/rapidjson/encodings.h:102-176 | Encoding a sequence of scalar values and decoding it is the identity |
| `Utf8.DecodeThenEncode` | src/3rdparty/rapidjson/encodings.h:102-176 | Decoding a well-formed text and encoding it is the identity |
| `Utf8.Source.Decode` | src/3rdparty/rapidjson/encodings.h:146-176 | The table-driven decoder accepts exactly the well-formed character of section 4 of RFC 3629 at its position, with its value |
| `Utf8.Source.Validate` | src/3rdparty/rapidjson/encodings.h:179-202 | The validator accepts exactly the well-formed characters and copies them |
| `Utf8.DecodeText` | src/3rdparty/rapidjson/encodings.h:146-176 | A whole byte stream decodes exactly if it is well-formed UTF-8, to its scalar values |
| `Utf8.ValidateText` | src/3rdparty/rapidjson/encodings.h:179-202 | A whole byte stream validates exactly if it is well-formed, and is copied unchanged |
| `Utf8.Decode16OfEncode16` | src/3rdparty/rapidjson/encodings.h:276-322 | UTF-16 decoding inverts encoding for every scalar value |
| `Utf8.TranscodeTo16` | src/3rdparty/rapidjson/encodings.h:658-667 | Transcoding UTF-8 to UTF-16 succeeds exactly on well-formed texts and encodes their scalar values |
| `Utf8.TranscodeThereAndBack` | src/3rdparty/rapidjson/encodings.h:658-667 | UTF-8 to UTF-16 and back is the identity on every well-formed text |
| `SchemaTheorem.ValidatorDecides` | src/3rdparty/rapidjson/schema.h:2799-2891 | For every schema tree of the fragment and every value, the value's events leave a fresh validator valid exactly if the value satisfies the schema, whichever sender picks the number kinds |
| `SchemaTheorem.Stream` | src/3rdparty/rapidjson/schema.h:2980-3054 | The same from any validator in mid-stream: the next value is consumed, everything open moves on and nothing else changes, or the validator fails |
| `SchemaTheorem.ElementsStream` | src/3rdparty/rapidjson/schema.h:867-897 | Elements are checked against list, tuple, additional or keyword-free schemas by position |
| `SchemaTheorem.ElementMeans` | src/3rdparty/rapidjson/schema.h:867-897 | The schema BeginValue chooses for an element, or its refusal, is what items and additionalItems mean for that place |
| `SchemaTheorem.MembersStream` | src/3rdparty/rapidjson/schema.h:1104-1155 | Members are checked against property or additional schemas by name, and the presence flags record exactly the properties seen |
| `SchemaTheorem.MemberMeans` | src/3rdparty/rapidjson/schema.h:1104-1155 | The schema Key chooses for a member, or its refusal, is what properties and additionalProperties mean for that name |
| `SchemaTheorem.ObjectEndsDecides` | src/3rdparty/rapidjson/schema.h:1157-1177 | The end of an object checks the count limits and that no required property is missing, unless its schema has a non-empty default string |
| `SchemaReading.AcceptedTextValidates` | src/3rdparty/rapidjson/schema.h:2799-2891 | Feeding the validator straight from the reader of any accepted text gives the verdict on the document the text denotes |
| `SchemaReading.HandleSame` | src/3rdparty/rapidjson/schema.h:2832-2835 | The validator cannot tell in which kind a number is sent, in itself or in any sub-validator |
| `SchemaReading.ValueSent` | src/3rdparty/rapidjson/reader.h:1752-1765 | The events of an accepted value are those of some value, but for the kinds of its numbers |
| `SchemaReading.MinifyingKeepsVerdict` | src/bridge/native_bridge.cpp:29-55 | Reading a text and reading its minified form give the same verdict |
| `SchemaStreaming.ValueEndsDecides` | src/3rdparty/rapidjson/schema.h:944-985 | The verdicts of the sub-validators decide allOf, anyOf, oneOf (exactly one) and not as their meaning says |
| `SchemaStreaming.NumberCheckIsKindless` | src/3rdparty/rapidjson/schema.h:1530-1624 | The signed and unsigned integer checks, with their cases on the kind of each bound, amount to one comparison of numbers |
| `SchemaStreaming.LengthsCountCodePoints` | src/3rdparty/rapidjson/schema.h:1053-1080 | A string of any scalar values passes the validator's check, and satisfies the schema, exactly if their number lies within minLength and maxLength |
| `SchemaStreaming.InvalidStringsHaveNoLength` | src/3rdparty/rapidjson/schema.h:1060-1071 | A string that is not well-formed UTF-8 passes whatever the limits |
| `SchemaStreaming.StartStep` | src/3rdparty/rapidjson/schema.h:2799-2828 | An event that begins a value: the schema checks it, sub-validators are created, and every open context passes it on |
| `SchemaStreaming.DocumentSends` | src/3rdparty/rapidjson/document.h:1948-1985 | The number kind the document sends is the one its flags select |
| `SchemaValidator.CombinedDepth` | src/3rdparty/rapidjson/schema.h:1460-1481 | Sub-validators are for schemas strictly inside the one that creates them, so nesting ends |
| `Schema.TypesMean` | src/3rdparty/rapidjson/schema.h:990-1003 | With only the keyword `type`, a value satisfies the schema exactly if it has one of the types listed, an integer being a number as well |
| `Schema.TypelessAcceptsAll` | src/3rdparty/rapidjson/schema.h:538-572 | The schema without keywords is satisfied by every value |
| `SchemaProperties.CreateSchema` | src/3rdparty/rapidjson/schema.h:2176-2201 | After one more declaration the map is again what the declarations so far make it, and the schema that comes out is the one they prescribe for the name: its first object declaration's, or the one without keywords |
| `SchemaProperties.GetSchema` | src/3rdparty/rapidjson/schema.h:2380-2385 | The search of the schema map finds the first entry under a pointer |
| `SchemaProperties.MakeProperties` | src/3rdparty/rapidjson/schema.h:649-717 | Gathers the properties: the names of both keywords in the order they first occur, each with its declared schema and whether it is required, the schema map being filled on the way |
| `SchemaProperties.FirstDeclarationWins` | src/3rdparty/rapidjson/schema.h:682-691 | Of several declarations of a name the last decides whether there is a schema, and the first that is an object decides which |
| `SchemaProperties.SecondDefaultIgnored` | src/3rdparty/rapidjson/schema.h:682-691 | An input on which that shows: the second declaration's default string does not count, and the object without the property is refused |
| `SchemaProperties.AllNamesAre` | src/3rdparty/rapidjson/schema.h:650-660 | The gathered names are those of either keyword, each once |
| `SchemaProperties.NameAllowed` | src/3rdparty/rapidjson/schema.h:1116-1151 | What a member must satisfy: its declared schema if either keyword lists its name, else the additional schema, else additional properties must be on |
| `SchemaProperties.RequiredNameEscapes` | src/3rdparty/rapidjson/schema.h:653-681 | A name that only `required` lists escapes additionalProperties: any value is allowed for it |
| `SchemaProperties.RequiredMeans` | src/3rdparty/rapidjson/schema.h:1159-1167 | What `required` demands of an object: each listed name occurs, or its declared schema has a non-empty default string |
| `SchemaHandlers.FindPropertyIndex` | src/3rdparty/rapidjson/schema.h:1509-1520 | The linear search finds the first property of a name |
| `SchemaHandlers.CheckCombinators` | src/3rdparty/rapidjson/schema.h:944-985 | The loops with their early exits reach the combinators' verdict |
| `SchemaHandlers.CheckRequired` | src/3rdparty/rapidjson/schema.h:1159-1167 | The loop over properties finds whether one is missing |
| `SchemaHandlers.CountStringCodePoint` | src/3rdparty/rapidjson/internal/strfunc.h:64-78 | The loop over the decoder counts the code points, or stops at a malformed character |
| `SchemaHandlers.SchemaString` | src/3rdparty/rapidjson/schema.h:1053-1080 | The string check of a schema, counting only where there is a limit |
| `SchemaHandlers.SchemaNumber` | src/3rdparty/rapidjson/schema.h:1006-1032 | The number check of a schema, by the kind in which the number is sent |
| `SchemaHandlers.GenericSchemaValidator.Begin` | src/3rdparty/rapidjson/schema.h:2980-3011 | The validator's BeginValue pushes a context for the right schema, or fails on a disallowed element |
| `SchemaHandlers.GenericSchemaValidator.Parallel` | src/3rdparty/rapidjson/schema.h:2809-2819 | Every sub-validator of every open context is told the event |
| `SchemaHandlers.GenericSchemaValidator.Start` | src/3rdparty/rapidjson/schema.h:2825-2880 | The handlers that begin a value check it by its kind, a string by counting its code points, and take the state to its successor under the event |
| `SchemaHandlers.GenericSchemaValidator.Key` | src/3rdparty/rapidjson/schema.h:2850-2861 | Likewise Key |
| `SchemaHandlers.GenericSchemaValidator.EndObject` | src/3rdparty/rapidjson/schema.h:2863-2872 | Likewise EndObject |
| `SchemaHandlers.GenericSchemaValidator.EndArray` | src/3rdparty/rapidjson/schema.h:2882-2891 | Likewise EndArray |
| `DatasetCache.RxDatasetCache.Consult` | src/miner.rs:66-90 | One turn under the lock: returns, sleeps or claims the build, and only the last changes the state |
| `DatasetCache.StepKeepsInvariant` | src/miner.rs:60-128 | Every step of every call keeps the invariant that ties state, sleepers, results and finished builds together |
| `DatasetCache.RunsKeepInvariant` | src/miner.rs:60-128 | So it holds in every interleaving of any number of calls |
| `DatasetCache.ResultsAreRight` | src/miner.rs:60-128 | A returned dataset was built for the requested key; None means a build for that key failed |
| `DatasetCache.SleepersHaveBuilder` | src/miner.rs:77-81 | No lost wake-up: while a call sleeps, a call for the same key is still to publish |
| `DatasetCache.BuildsAtMostOnce` | src/miner.rs:98 | Each call builds at most once |
| `CacheRuns.RunsAreBounded` | src/miner.rs:68-90 | Apart from wake-ups nobody asked for, the number of steps is bounded by the number of calls |
| `CacheRuns.NeverStuck` | src/miner.rs:60-128 | While a call has not returned, some call can take a step of its own |
| `CacheRuns.EveryCallReturns` | src/miner.rs:60-128 | In a run that cannot go on every call has returned |
| `CacheRuns.OneKeyBuildsOnce` | src/miner.rs:60-128 | Calls for one key build once at most in total, never two at a time, and all that return agree |
| `CacheRuns.OverlapNeedsTwoKeys` | src/miner.rs:82-98 | Two builds can overlap exactly if two calls ask for different keys |
| `CacheRuns.KeysAreInjective` | src/miner.rs:66 | Names without a colon make the cache key injective |
| `CacheRuns.ColonsCollide` | src/miner.rs:66 | Names with a colon can share a key |
| `CacheRuns.DatasetMatchesRequest` | src/miner.rs:60-128 | For the supported names a returned dataset was built for exactly the requested algorithm and seed bytes |
| `CacheRuns.SupportedNamesHaveNoColon` | src/algorithms.rs:37-46 | The supported names hold no colon |
| `BigInteger.BigInteger.FromDecimals` | src/3rdparty/rapidjson/internal/biginteger.h:45-58 | In an array of any size that the highest written limb fits, a non-empty decimal string builds exactly its value in normal form, and the highest limb written is the one `Reach` tells |
| `BigInteger.StaysInside` | src/3rdparty/rapidjson/internal/biginteger.h:45-58 | The construction writes no limb beyond the array exactly if the number before the last chunk is zero, or its product with the chunk's power of five leaves one limb free |
| `BigInteger.LastReachesHighest` | src/3rdparty/rapidjson/internal/biginteger.h:48-57 | No earlier chunk writes a higher limb than the last |
| `BigInteger.SmallNumbersFit` | src/3rdparty/rapidjson/internal/biginteger.h:45-58 | Building a number that leaves one limb of the capacity free stays inside |
| `BigInteger.ShiftStaysInside` | src/3rdparty/rapidjson/internal/biginteger.h:133-157 | The highest limb a shift by bits writes, count + offset, is inside the array exactly if the number leaves free the limbs it moves by and one more |
| `BigInteger.FittingIsNotEnough` | src/3rdparty/rapidjson/internal/biginteger.h:133-157 | A value that fits the capacity does not suffice: building it from some string of at most 20 * 416 + 40 digits writes the limb right behind the array |
| `BigInteger.BigInteger.Add` | src/3rdparty/rapidjson/internal/biginteger.h:75-90 | += carries through all limbs, grows by one where needed and stays normal |
| `BigInteger.BigInteger.Multiply64` | src/3rdparty/rapidjson/internal/biginteger.h:92-108 | *= by a word multiplies the value and stays normal |
| `BigInteger.BigInteger.Multiply32` | src/3rdparty/rapidjson/internal/biginteger.h:110-131 | *= by halves multiplies the value and no intermediate product exceeds a word |
| `BigInteger.BigInteger.ShiftLeft` | src/3rdparty/rapidjson/internal/biginteger.h:133-157 | The overlapping in-place shift multiplies by the power of two, and the highest limb it writes is count + offset for a shift by bits |
| `BigInteger.BigInteger.MultiplyPow5` | src/3rdparty/rapidjson/internal/biginteger.h:167-187 | Multiplies by the power of five through 5^27, 5^13 and the table |
| `BigInteger.BigInteger.Compare` | src/3rdparty/rapidjson/internal/biginteger.h:213-222 | The sign of the comparison is the order of the values |
| `BigInteger.BigInteger.Difference` | src/3rdparty/rapidjson/internal/biginteger.h:191-211 | The flag tells which number is smaller, and the result is the absolute difference exactly if no subtrahend limb is all ones where the limbs below it borrow |
| `BigInteger.BigInteger.Subtract` | src/3rdparty/rapidjson/internal/biginteger.h:199-208 | The loop writes the limbs of the subtraction and counts up to the highest that is not zero |
| `Borrowing.DiffIsExact` | src/3rdparty/rapidjson/internal/biginteger.h:199-208 | The limbs are the difference plus the borrows that were lost, which is zero exactly under that condition |
| `Borrowing.BorrowLost` | src/3rdparty/rapidjson/internal/biginteger.h:204 | A pair of normal forms whose difference comes out wrong |
| `BigInteger.BigInteger.AppendDecimal64` | src/3rdparty/rapidjson/internal/biginteger.h:230-238 | Appends up to nineteen digits: times a power of ten, plus their value; and which limb it writes highest |
| `BigInteger.ParseUint64` | src/3rdparty/rapidjson/internal/biginteger.h:246-253 | Up to nineteen digits convert without overflow |
| `BigInteger.MulAdd64` | src/3rdparty/rapidjson/internal/biginteger.h:256-284 | The portable two-word multiply-add is exact |
| `Limbs.NormalCount` | src/3rdparty/rapidjson/internal/biginteger.h:213-222 | In normal form the number of limbs follows from the value |
| `Limbs.ShiftedVal` | src/3rdparty/rapidjson/internal/biginteger.h:146-148 | The limb-wise shift formula multiplies the value |
| `PointerTree.CreateFindsWhatGetFinds` | src/3rdparty/rapidjson/pointer.h:458-505 | Create finds its place already existing exactly if Get resolves, and then returns that place and changes nothing |
| `PointerTree.GetAfterSet` | src/3rdparty/rapidjson/pointer.h:732-734 | After Set, Get finds the value, at the place Create made, exactly if no `-` token meets an array |
| `PointerTree.SetWhatIsThere` | src/3rdparty/rapidjson/pointer.h:732-734 | Setting what is there changes nothing |
| `PointerTree.SetTwice` | src/3rdparty/rapidjson/pointer.h:732-734 | Of two Sets the later wins, under the same condition |
| `PointerTree.CreateTwice` | src/3rdparty/rapidjson/pointer.h:458-505 | Creating again finds what was created, exactly under that condition |
| `PointerTree.CreateOne` | src/3rdparty/rapidjson/pointer.h:458-505 | What one token makes of a node: an object gets a member of that name at its end unless it has one, an array is padded with null up to the index or by one element for `-`, and any other node becomes an empty object or array first, by whether the token has an index |
| `PointerTree.SetElsewhere` | src/3rdparty/rapidjson/pointer.h:458-505 | A value whose path parts from the path that is set, at a node that keeps its type, keeps its value |
| `PointerTree.EraseFindsWhatGetFinds` | src/3rdparty/rapidjson/pointer.h:833-871 | Erase succeeds exactly on what Get finds below the root, and failing it changes nothing |
| `PointerTree.GetAfterErase` | src/3rdparty/rapidjson/pointer.h:833-871 | After Erase the pointer leads to the next member of that name or the next element, if there is one |
| `PointerTree.EraseMember` | src/3rdparty/rapidjson/pointer.h:833-871 | With distinct names, after erasing a member the pointer leads nowhere |
| `PointerTree.WithoutKeepsRest` | src/3rdparty/rapidjson/pointer.h:860-870 | Erasing one child leaves the others with their names and in their order, those behind it one place lower |
| `PointerTree.EraseElsewhere` | src/3rdparty/rapidjson/pointer.h:833-871 | A pointer whose path parts from the erased one leads to the same value as before, after lowering the index of an element behind the erased one |
| `PointerEdit.Tree.Locate` | src/3rdparty/rapidjson/pointer.h:601-629 | The walk finds the place, or the first token that leads nowhere |
| `PointerEdit.Tree.Create` | src/3rdparty/rapidjson/pointer.h:458-505 | Nodes are converted and extended on the way down to the created tree, place and flag |
| `PointerEdit.Tree.Set` | src/3rdparty/rapidjson/pointer.h:732-734 | Create, then replace at the place |
| `PointerEdit.Tree.Erase` | src/3rdparty/rapidjson/pointer.h:833-871 | Walks to the parent and removes one child |
| `PointerText.ParseOfStringify` | src/3rdparty/rapidjson/pointer.h:1069-1100 | Tokens written in either form read back as the same tokens, indexes included |
| `PointerText.StringifyOfParse` | src/3rdparty/rapidjson/pointer.h:930-1060 | What parsing yields can be written in the same form and reads back the same |
| `PointerText.StringFormExact` | src/3rdparty/rapidjson/pointer.h:930-1060 | The accepted string forms are exactly those of the grammar (section 3 of RFC 6901), and each is written back as it was read |
| `PointerText.FragmentFormExact` | src/3rdparty/rapidjson/pointer.h:930-1060 | The accepted fragment forms are exactly those of a grammar of units: unreserved characters, escapes, and the triplets of well-formed characters (section 6 of RFC 6901) |
| `PointerText.FormsExist` | src/3rdparty/rapidjson/pointer.h:1069-1100 | A pointer has a fragment form exactly if its names are valid UTF-8 |
| `PointerErrors.ErrorsStand` | src/3rdparty/rapidjson/pointer.h:930-1060 | An error stands where it is reported: behind a tilde without 0 or 1, at a percent sign where no character of UTF-8 stands percent-encoded, at a character that must be encoded, or where a first solidus is missing |
| `PointerText.IndexIsDecimal` | src/3rdparty/rapidjson/pointer.h:1032-1045 | An index is the decimal value up to wrapping around, and that value whenever it is below 2^32 |
| `PointerText.IndexExact` | src/3rdparty/rapidjson/pointer.h:1028-1045 | A name that looks like a number has its decimal value as index exactly if that value is below 2^32 - 1 |
| `PointerText.IndexesAreDecimal` | src/3rdparty/rapidjson/pointer.h:1028-1045 | Only decimal forms without leading zeros are indexes, and that of a number is its index exactly if it is below 2^32 - 1 |
| `PointerText.PassesOverflowTest` | src/3rdparty/rapidjson/pointer.h:1033-1043 | The digits that pass the overflow test are those whose value modulo 2^32 never shrinks from one digit to the next |
| `PointerText.FirstWrapUnnoticed` | src/3rdparty/rapidjson/pointer.h:1036-1037 | The digit that first passes 2^32 goes unnoticed exactly if the wrapped result is not below the number before it |
| `PointerText.OverflowMissed` | src/3rdparty/rapidjson/pointer.h:1036-1037 | A name on which the overflow test is wrong |
| `PointerParser.GenericPointer.Parse` | src/3rdparty/rapidjson/pointer.h:930-1060 | The single pass yields the outcome the forms prescribe, tokens or error code and offset, with every write inside a buffer as long as the text |
| `PointerParser.DecodeChar` | src/3rdparty/rapidjson/pointer.h:972-989 | One percent-encoded character is decoded into the buffer, and even what a malformed one writes stays inside |
| `PointerParser.PercentDecodeStream.Take` | src/3rdparty/rapidjson/pointer.h:1119-1139 | A triplet yields its byte, anything else 0 and an invalid stream |
| `PointerParser.ReadName` | src/3rdparty/rapidjson/pointer.h:966-1026 | One name is unescaped into the buffer, and whether it is all digits is noted |
| `PointerParser.ConvertIndex` | src/3rdparty/rapidjson/pointer.h:1033-1043 | The wrapping conversion stops where the number shrinks |
| `PointerParser.PutTokens` | src/3rdparty/rapidjson/pointer.h:1069-1100 | Writes the text of the tokens, and fails exactly where the fragment form does not exist |
| `DotSegments.RemovedOrAhead` | src/3rdparty/rapidjson/uri.h:411-458 | On every path, absolute or relative, the rewriting gives what section 5.2.4 of RFC 3986 prescribes or that without its first solidus, and which of the two a walk over the segments tells; so the two agree exactly on the paths in step |
| `DotSegments.RemovedIsStandard` | src/3rdparty/rapidjson/uri.h:411-458 | In particular they agree on every path that begins with a solidus |
| `DotSegments.StaysInStep` | src/3rdparty/rapidjson/uri.h:411-458 | And on every path, relative or not, without a segment `..` |
| `DotSegments.RelativePathsDiffer` | src/3rdparty/rapidjson/uri.h:425-440 | `a/..` is out of step: the solidus behind the segment that is backed over is lost |
| `DotSegments.BackInStep` | src/3rdparty/rapidjson/uri.h:425-440 | `a/..//..` is in step: the lost solidus is made up for, because backing up leaves a lone solidus alone |
| `DotSegments.RemovedIsClean` | src/3rdparty/rapidjson/uri.h:411-458 | No dot segment is left, a path without any is kept, and removing twice is removing once |
| `DotSegments.RemoveDotSegments` | src/3rdparty/rapidjson/uri.h:411-458 | In the path's own buffer, the new path never overtaking what is read next and ending in a solidus wherever the source asserts it |
| `DotSegments.BackUp` | src/3rdparty/rapidjson/uri.h:425-440 | Backs up to behind the solidus before the last segment |
| `DotSegments.MoveSegment` | src/3rdparty/rapidjson/uri.h:444-452 | Moves a segment down over memory that has been read |
| `MembersMap.PlainMembers.Find` | src/3rdparty/rapidjson/document.h:2282-2288 | The scan finds the first member of a name |
| `MembersMap.PlainMembers.Add` | src/3rdparty/rapidjson/document.h:2304-2318 | Adding appends, growing the array as the source does |
| `MembersMap.AddingIsAmortized` | src/3rdparty/rapidjson/document.h:2304-2318 | Adding takes amortized constant time, as documented: n members take at most 3n moves, and beyond sixteen there is never room for more than half as many again |
| `MembersMap.PlainMembers.Remove` | src/3rdparty/rapidjson/document.h:2320-2342 | Removing moves the last member to the free place |
| `MembersMap.SwappedKeepsRest` | src/3rdparty/rapidjson/document.h:2320-2342 | Removing takes away that member and no other, and those before it keep their places |
| `MembersMap.PlainMembers.Erase` | src/3rdparty/rapidjson/document.h:2344-2376 | Erasing a range keeps the order of the rest |
| `MembersMap.MappedMembers.Find` | src/3rdparty/rapidjson/document.h:2229-2238 | The map lookup gives the position of some member of that name, or none if there is none |
| `MembersMap.MappedMembers.FromMembers` | src/3rdparty/rapidjson/document.h:2415-2432 | An object made at once from members in order has them all, each with its iterator and map entry |
| `MembersMap.MappedMembers.Reserve` | src/3rdparty/rapidjson/document.h:2191-2226 | Members and iterators move to the larger block, as many as the map has entries; the entries stay |
| `MembersMap.MappedMembers.Add` | src/3rdparty/rapidjson/document.h:2304-2318 | The same list as without the map, and the side array and map still fit it |
| `MembersMap.MappedMembers.Remove` | src/3rdparty/rapidjson/document.h:2320-2342 | Likewise: the last member's entry is pointed to its new place |
| `MembersMap.MappedMembers.Erase` | src/3rdparty/rapidjson/document.h:2344-2376 | Likewise: entries of the range go, the ones behind move down one by one |
| `MembersMap.EntryCount` | src/3rdparty/rapidjson/document.h:2199-2211 | The map has exactly one entry per member |
| `MembersMap.LookupAnswers` | src/3rdparty/rapidjson/document.h:2229-2238 | Whichever entry of a name the map returns, it is a right answer |
| `MembersMap.AnswersAreFirst` | src/3rdparty/rapidjson/document.h:2229-2288 | The two lookups agree for every name exactly if names are distinct |
| `MembersMap.DistinctNamesKept` | src/3rdparty/rapidjson/document.h:2304-2376 | Removing and erasing keep names distinct, and adding does exactly if the name was not found |
| `Pool.RunsKeepInvariant` | src/3rdparty/rapidjson/allocators.h:277-402 | Over every run of Malloc, Realloc and Clear the blocks handed out are aligned, lie in the used part of one chunk and share no byte, and Size() is at most Capacity() |
| `Pool.RunsCountBlocks` | src/3rdparty/rapidjson/allocators.h:277-402 | Over every run Size() is exactly the sum of the blocks handed out, each at the size it has grown to in place |
| `Pool.MallocKeeps` | src/3rdparty/rapidjson/allocators.h:321-334 | A new block is aligned, has room for what was asked, and is apart from all others, which stay as they are; there is none, and no change, only where nothing was asked for or the chunk was not granted |
| `Pool.ReallocKeeps` | src/3rdparty/rapidjson/allocators.h:337-369 | All ways through Realloc keep the invariant: what comes back has room for the new size, a block that is large enough stays in place, every other block stays as it is, and a size of zero gives null |
| `Pool.ExtensibleIsLast` | src/3rdparty/rapidjson/allocators.h:353-359 | The test for the last block holds only for a block that really ends the head chunk, with its true size, because headers keep chunks apart |
| `Pool.ExtendKeeps` | src/3rdparty/rapidjson/allocators.h:353-359 | Growing in place meets no other block |
| `Pool.ClearKeeps` | src/3rdparty/rapidjson/allocators.h:277-288 | Clearing leaves one empty chunk |
| `Pool.MemoryPoolAllocator.constructor` | src/3rdparty/rapidjson/allocators.h:201-214 | A caller's buffer is aligned and split into shared data, header and first chunk |
| `Pool.MemoryPoolAllocator.Owning` | src/3rdparty/rapidjson/allocators.h:168-189 | Without a caller's buffer the pool begins with a chunk that has no room, and the invariant holds from there on |
| `Pool.MemoryPoolAllocator.AddChunk` | src/3rdparty/rapidjson/allocators.h:390-402 | A granted chunk becomes the head |
| `Pool.MemoryPoolAllocator.Malloc` | src/3rdparty/rapidjson/allocators.h:321-334 | Takes from the head, adding a chunk where it is too small |
| `Pool.MemoryPoolAllocator.Realloc` | src/3rdparty/rapidjson/allocators.h:337-369 | Keeps the bytes the caller owns and changes no other block's bytes |
| `Pool.MemoryPoolAllocator.Clear` | src/3rdparty/rapidjson/allocators.h:277-288 | Gives back all chunks but the first |
| `Pool.MemoryPoolAllocator.Capacity` | src/3rdparty/rapidjson/allocators.h:293-299 | The sum of the capacities, at least what Size counts |
| `Pool.MemoryPoolAllocator.Size` | src/3rdparty/rapidjson/allocators.h:304-310 | The sum of the used sizes, at most the capacity |
| `Nonce.WriteNonce` | src/job.rs:273-278 | Writes the merged nonce in place and returns the word that stands there, or does nothing to a short block |
| `Nonce.MergedUnderMasks` | src/job.rs:273-278 | Under the NiceHash mask the reserved byte stays; under the full mask the word is the nonce |
| `Nonce.MergeLow` | src/job.rs:275 | A mask of low ones takes those bits of the nonce and leaves the rest of the word |
| `Nonce.WrittenBytes` | src/job.rs:273-278 | Only the masked bytes of the field change, to the nonce's |
| `Nonce.WrittenTwice` | src/job.rs:273-278 | Writing again forgets the nonce written before |
| `Nonce.WrittenIsInjective` | src/job.rs:225-231 | Different nonces within the mask make different blocks |
| `Nonce.LeThereAndBack` | src/job.rs:263-271 | Reading a written word gives the word |
| `Mining.HashesWholeGroups` | src/miner.rs:329-345 | On one job a worker hashes exactly its share rounded down to whole groups of sixteen, and no more however long it goes on |
| `Mining.ShareCounts` | src/miner.rs:333-345 | The share is the number of nonces within the mask that leave the worker's remainder |
| `Mining.RunWithinShare` | src/miner.rs:312-372 | How many groups and steps any number of batches makes |
| `Mining.NoNonceTwice` | src/miner.rs:344 | No nonce belongs to two workers or two steps |
| `Mining.RunPlain` | src/miner.rs:312-372 | Without a mask every batch is hashed in full |
| `Mining.ApartUntilWrap` | src/miner.rs:344 | On plain jobs the workers stay apart until a counter wraps |
| `Mining.ApartForEver` | src/miner.rs:344 | And for ever exactly if the number of workers divides 2^32 |
| `Miner.Worker.TakeJob` | src/miner.rs:236-249 | A new job resets the counter and copies the template into every block |
| `Miner.Worker.Prepare` | src/miner.rs:331-345 | Fills blocks until the first nonce beyond the mask, and records beside each the word that stands in its field, or zero for a block without one |
| `Miner.Worker.MineOneBatch` | src/miner.rs:312-372 | Hashes exactly the blocks of the full groups; what it sends from the recorded words are the shares those blocks deserve, in order; and the counter is left behind what was prepared |
| `Miner.WorkOn` | src/miner.rs:234-297 | While the job stays the same the hashed blocks and the shares are those of the whole run, and the number hashed is at most, and in the end exactly, the worker's share rounded down to whole groups of sixteen |
| `Miner.NoBlockTwice` | src/miner.rs:312-372 | For a template whose bytes 39..42 are not all zero, over whole runs of all workers, each of any length, no block is hashed twice |
| `Miner.NicehashTemplates` | src/job.rs:280-282 | A job is a NiceHash job exactly if bytes 39..42 of its template are there and not all zero, and then the mask spares the highest of them |
| `Miner.HashedBlocksCarryNonces` | src/job.rs:225-278 | Every hashed block is the template with its step's counter in bytes 39..41, lowest byte first, and in byte 42 that of the template if its field was not all zero, else the counter's highest |
| `Miner.WriteBlock` | src/job.rs:273-278 | The word that writing the nonce returns is the one that stands in the block's field afterwards |
| `Miner.SharesAreHonest` | src/miner.rs:359-369 | The two records agree: what is sent for blocks with the words recorded beside them is, share for share, each passing block with the nonce in its own field |
| `Miner.HashedCount` | src/miner.rs:312-372 | How many blocks a run hashes |
| `Target.Threshold64` | src/job.rs:284-313 | For eight bytes the threshold is at least the target, below twice the target, and equal to it exactly if the remainder is below the difficulty |
| `Target.Threshold32` | src/job.rs:284-313 | For four bytes it is at least the target times 2^32 + 1, below twice that, and equal to it exactly if the target divides 2^32 - 1 |
| `Target.DifficultyIsPositive` | src/job.rs:302-312 | A difficulty is never 0 |
| `Target.DecodeOfEncode` | src/job.rs:284-286 | Hexadecimal text, high digit first and in letters of either case, decodes to the bytes it was made from |
| `Target.EncodeOfDecode` | src/job.rs:284-286 | And what decodes is such text for what it decodes to |
| `Target.WrongTargets` | src/job.rs:284-313 | A target is refused as bad hexadecimal exactly if it is no such text, and for its length exactly if it is one of neither four nor eight bytes |
| `Target.AcceptanceShrinks` | src/miner.rs:466-475 | What passes a higher difficulty passes every lower one |
| `Target.TargetDecides` | src/miner.rs:466-475 | From the hexadecimal text of the target to the verdict on a hash, for both lengths: every hash below the target is accepted, none from twice the target on |
| `Target.TargetIsExact` | src/miner.rs:466-475 | From the hexadecimal text of the target, for both lengths: acceptance means lying below the target, for every hash, if and only if the target is one on which the divisions lose nothing |
| `Target.EqualAccepted` | src/miner.rs:466-475 | The target 2^63, in its hexadecimal text, has difficulty 1, and a hash equal to it is accepted |
| `Target.ZeroTarget` | src/job.rs:302-304 | A target of zero leaves only the all-zero hash |
| `Dns.BuildDnsQuery` | src/doh.rs:32-46 | Builds header, labels, root and question fields |
| `Dns.SplitOfJoined` | src/doh.rs:38 | Splitting labels without dots, joined by dots, gives those labels |
| `Dns.JoinedOfSplit` | src/doh.rs:38 | Every host name is the parts it is split into, joined by dots, and they hold no dot |
| `Dns.QueryIsMessage` | src/doh.rs:32-46 | For labels of 1 to 63 bytes, joined by dots, the query is a well-formed message of section 4.1 of RFC 1035 with these labels in its one question, the fixed header and no answers |
| `Dns.SkipNameLoop` | src/doh.rs:48-58 | The loop ends, at the position behind the name |
| `Dns.SkipWholeName` | src/doh.rs:48-58 | A name of labels that ends at the root or with a compression pointer is skipped whole |
| `Dns.ParseDnsResponse` | src/doh.rs:60-105 | Reads the addresses with every access in bounds on arbitrary bytes |
| `Dns.AddressesOfMessage` | src/doh.rs:60-105 | From a well-formed message exactly the A and AAAA addresses come out, in order |
| `Dns.AnswerToQuery` | src/doh.rs:60-105 | In particular from the question of a query for such labels, followed by records |
| `Dns.AnswersAreStretches` | src/doh.rs:78-103 | On arbitrary bytes every address is a stretch of them, and there are at most as many as announced |

## Left out

Weaker than the source, on purpose:

- Reader.Reader.ParseNumber: a fraction, an exponent or an integer outside [-2^63, 2^64 - 1] ends in an outcome of its own, `NumberNotInteger`, where the source goes on with a double; every statement about accepted texts is therefore about texts whose numbers are integers in that range.
- Minify.RejectedIsError: counts a text with such a number as refused.
- Minify.MinifyPreserves: says nothing about a text with such a number, which the source minifies.
- Bridge.LxRapidjsonMinify: reports failure on a text with such a number, where the source succeeds.
- Bridge.RapidjsonMinify: gives nothing on a text with such a number, where the source gives its minified form.
- Reader.Reader.ParseValue: the handler never refuses an event, the event log stands for it, and the counts of members and elements are unbounded, where `SizeType` would wrap at 2^32.
- Document.Document.On: the stack holds whole values; moving them without copying, and allocation failure, are not modelled.
- Writer.Accept: the handler is the compact writer, and no write fails.
- Grammar.AcceptedTextsAreTrees: for texts without a NUL byte, which would end the stream early, and read to their end; the numbers of a tree are the integers above.
- Utf8.Source.Decode: the code point of a malformed character, which the source leaves half computed, is not stated.
- SchemaTheorem.ValidatorDecides: the fragment is `type`, `allOf`, `anyOf`, `oneOf`, `not`, `properties`, `additionalProperties`, `required`, `items`, `additionalItems`, the count and length limits and integer bounds, as a finite tree and under the default flags.
- SchemaHandlers.GenericSchemaValidator.Key: sub-validators are values inside the contexts, so what they share with their parent (allocators, error handlers) is not captured; a value event inside an object with no key before it, which the source asserts away, counts as a failure.
- SchemaProperties.MakeProperties: starts from the declared names and schemas; reading the rest of a schema out of its JSON text is not modelled, and no schema is under the properties' pointers beforehand, as is so without references.
- DatasetCache.StepKeepsInvariant: a turn under the lock is one atomic step, and whether a build succeeds is an input.
- BigInteger.BigInteger.Difference: the operands differ, as the source asserts, and the result object and its array are apart from theirs.
- PointerTree.GetAfterSet: for tokens in which the name `-` carries no index, as in all that parsing yields; a token with that name and an index, built by hand, is excluded.
- PointerEdit.Tree.Create: the document is a value and a place in it a path of positions, so references into the tree, their invalidation and the capacity of arrays are not captured.
- DotSegments.RemoveDotSegments: the path ends where its length says, inside a buffer with room for the terminator.
- MembersMap.MappedMembers.Find: the order of equal names in the multimap is not modelled, so with duplicate names any of them may be found.
- Pool.MemoryPoolAllocator.Malloc: what the base allocator answers is an argument, constrained to be a fresh aligned stretch or nothing, and sizes do not overflow `size_t`.
- Miner.NoBlockTwice: for a number of workers that, added to the mask, stays below 2^32, which holds for fewer than 2^32 - 2^24 workers; beyond that the counter could wrap before it passes the mask.
- Miner.Worker.MineOneBatch: the hash is any function of the block, every share reaches the channel, and the sleep and the job watching between batches are not modelled.

Not modelled at all:

- Doubles: parsing, printing, NaN and infinities, and the schema checks on them.
- SIMD scanning, in-situ parsing, comments, encoding detection, and reading token by token (`IterativeParseInit`, `IterativeParseNext`).
- Schema keywords `enum`, `uniqueItems`, `pattern`, `patternProperties`, `dependencies`, `$ref`, `readOnly` and `writeOnly`; error reports and the continue-on-error flag; the OpenAPI variants.
- Reference counts, sharing, moving and freeing in the pool; copying, clearing and freeing of members.
- `GenericPointer::GetUri`, `Swap`, `GetWithDefault`, comparison and appending of tokens.
- The rest of `GenericUri`: parsing, resolving and percent-encoding.
- Hexadecimal forms of nonces and results, login and job messages, statistics, pool and transport code.
- The DNS transport: base64url, HTTPS requests, latency ranking and caching.
- RandomX itself, thread placement, TLS, proxies, configuration and the command line.
