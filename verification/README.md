# ServeRick core in Dafny

This project models the logic at the core of ServeRick, a small C# web server with its
own template languages (HAML, SCSS), its own Earley-style parsing library, an in-memory
data driver and a work-item pipeline. Each model is a pure function over immutable
datatypes, and Dafny proves the properties that the server's code and its unit tests
rely on. Every file holds one module, named after the component it models:

- `results.dfy` (`Results`): the `Result`/`Option` outcomes used in place of C#
  exceptions and nulls, and the C# integer ranges (`int`, wrapping `int` and `ulong`
  arithmetic).
- `text.dfy` (`Text`): string helpers the source takes from .NET: `Split`, `Join`,
  `IndexOf`, the invariant-culture upper-casing of the Latin-1 range, ASCII bytes, and
  decimal parsing (`int.Parse`).
- `http_request.dfy` (`HttpRequest`) and `http_request_parser.dfy` (`HttpRequestParser`):
  the request record and the incremental reader of the request head. The reader is a
  character state machine over byte chunks.
- `boundary.dfy` (`Boundary`), `multipart.dfy` (`MultiPart`) and `part_stream.dfy`
  (`PartStream`): the multipart/form-data reader. It covers the boundary matcher, the
  part-header reader and the size-limited part stream.
- `websocket.dfy` (`WebSocket`): decoding of one incoming frame, the header of an
  outgoing text frame, and the per-socket field table.
- `haml_outliner.dfy` (`HamlOutliner`) and `sharp_outliner.dfy` (`SharpOutliner`): the
  two HAML indentation outliners. They turn leading white space into INDENT, DEDENT,
  BOL and EOL tokens. The first keeps a stack of levels, the second a map of levels.
- The parsing library: `token.dfy` (`Tokens`), `grammar.dfy` (`Grammar`: terms,
  sequences and the rule algebra `+`/`|`) and `labels.dfy` (`Labels`: the active-label
  chains).
  - `edges.dfy` (`Edges`): active and complete edges and the incoming-edge sets.
  - `source.dfy` (`ParseSource`): source contexts, whose `EOF` and `BOF` are
    predicates, and the per-position source data.
  - `parser.dfy` (`Parser`): transitions, scan, predict, complete and the agenda.
  - `node.dfy` (`ParseTree`): rebuilding the tree from back-links.
- The compiler helpers: `compiler_base.dfy` (`AstPaths`: path navigation in the tree),
  `syntax_error.dfy` (`SyntaxError`), `compiler_helpers.dfy` (`CompilerHelpers`),
  `scss.dfy` (`Scss`: selector lists and CSS blocks) and `haml_interval.dfy`
  (`HamlInterval`).
- The database layer: `queries.dfy` (`Queries`: where clauses, select and update
  builders) and `light_data_driver.dfy` (`LightData`: the in-memory driver).
- The resources: `buffers.dfy` (`Buffers`: buffer provider and data buffers),
  `work_item.dfy` (`WorkItems`) and `work_chain.dfy` (`WorkChains`).

Some design choices apply throughout:

- A C# exception becomes a `Throws(...)` outcome.
- A `Debug.Assert` becomes a `requires`.
- A null reference becomes `None`.
- A C# `int` or `ulong` that can wrap is wrapped explicitly (`Wrap32`, `Wrap64u`).
- Where the code as written has a defect, the model keeps it as an "as written"
  member and proves a corrected member beside it (see "Findings").
- Where such a defect sits inside a larger operation, the operation takes a selector
  that picks one of the two. `Boundary.Matcher` does this for the multipart reader,
  `SharpOutliner.Variant` for the outliner, and `Parser.Enumeration` for the agenda.
  The source selector (`SourceMatcher`, `SourceOutliner`, `LiveSet`) gives the program
  as written. The composite's lemmas about meaning and balance are proved for the
  corrected selector. Counterexample lemmas show how the source selector fails on a
  concrete input.
- `WebSocket.Send` and `Buffers.GetBufferAsWritten` are the code as written.
  `WebSocket.SendCorrected` and `Buffers.GetBuffer` are the corrected operations
  beside them.

The string operators of `Term` (`Term + string`, `string + Term`, `Term | string`,
`string | Term`, Term.cs lines 66-84) convert the string with `Unnamed` and then apply
`TermPlus` or `TermOr`. They have no member of their own: `Grammar.Unnamed`,
`Grammar.TermPlusIsPlus` and `Grammar.TermOrIsOr` state their parts.

## Model

| member | source | states |
|---|---|---|
| HttpRequest.NewRequest | trunk/VSProjects/ServeRick/Networking/HttpRequest.cs:99-106 | method and version are upper-cased, the URI is kept as given, and there are no headers or posted variables yet |
| HttpRequest.TryGetHeader | trunk/VSProjects/ServeRick/Networking/HttpRequest.cs:115-124 | found exactly when the name's key is stored; then the stored value, otherwise the caller's default |
| HttpRequest.SetHeader | trunk/VSProjects/ServeRick/Networking/HttpRequest.cs:172-182 | a later lookup of the name finds the new value; the key set only gains that name; nothing but the headers changes |
| HttpRequest.CompleteHead | trunk/VSProjects/ServeRick/Networking/HttpRequest.cs:189-196 | the head is complete with the given encoding and length; the request is complete iff the content already received reaches the length |
| HttpRequest.GetPost | trunk/VSProjects/ServeRick/Networking/HttpRequest.cs:137-142 | a posted variable's value, or null exactly when it was not posted |
| HttpRequest.GetGet | trunk/VSProjects/ServeRick/Networking/HttpRequest.cs:144-149 | a query-string variable's value, or null exactly when it is absent |
| HttpRequest.SetPost | trunk/VSProjects/ServeRick/Networking/HttpRequest.cs:203-206 | the variable reads back as the new value and every other posted variable is unchanged |
| HttpRequest.HeaderLookupIgnoresCase | trunk/VSProjects/ServeRick/Networking/HttpRequest.cs:26 | a header set under one spelling is found under every spelling that differs only in case |
| HttpRequest.SetHeaderKeepsOthers | trunk/VSProjects/ServeRick/Networking/HttpRequest.cs:172-182 | setting a header leaves the lookup of every other name as it was |
| HttpRequest.SetHeaderOverwrites | trunk/VSProjects/ServeRick/Networking/HttpRequest.cs:181 | setting a header twice is the same as setting only the second value |
| HttpRequestParser.Init | trunk/VSProjects/ServeRick/Networking/HttpRequestParser.cs:21-32 | a fresh parser reads the request-line value, has no request, no received bytes, and is neither head-complete nor complete |
| HttpRequestParser.CreateRequest | trunk/VSProjects/ServeRick/Networking/HttpRequestParser.cs:144-162 | the URI is cut at its first '?' only when that is not the first character; the URI and '?' and query give back the original, and the variables are those read from the query |
| HttpRequestParser.OnHeaderComplete | trunk/VSProjects/ServeRick/Networking/HttpRequestParser.cs:94-118 | a completed line keeps the reader state reachable and the head open, and never clears the error flag |
| HttpRequestParser.HeaderLineOutcome | trunk/VSProjects/ServeRick/Networking/HttpRequestParser.cs:94-118 | a request line that is not exactly three space-separated tokens sets the error flag and completes the parser; three tokens create the request; a named line stores a header; in the last two cases the buffers are cleared |
| HttpRequestParser.OnHeadComplete | trunk/VSProjects/ServeRick/Networking/HttpRequestParser.cs:123-138 | closing the head changes only the request; its only failure is a malformed Content-length |
| HttpRequestParser.HeadCompletionDefaults | trunk/VSProjects/ServeRick/Networking/HttpRequestParser.cs:123-138 | the encoding defaults to "ascii" and the length to 0 when their headers are absent; an unparsable Content-length throws; the headers are kept |
| HttpRequestParser.Colon | trunk/VSProjects/ServeRick/Networking/HttpRequestParser.cs:223-235 | a colon ends a name and switches to the value, and is kept inside a value |
| HttpRequestParser.Whitespace | trunk/VSProjects/ServeRick/Networking/HttpRequestParser.cs:237-247 | a space never enters a name or the front of a value, and is kept inside a value |
| HttpRequestParser.Content | trunk/VSProjects/ServeRick/Networking/HttpRequestParser.cs:264-276 | any other character extends exactly the name or the value being read |
| HttpRequestParser.NewLine | trunk/VSProjects/ServeRick/Networking/HttpRequestParser.cs:249-262 | a line ends the head exactly when it carries no name and the request line exists; its only failure is the Content-length parse |
| HttpRequestParser.StepChar | trunk/VSProjects/ServeRick/Networking/HttpRequestParser.cs:187-217 | '\r' is ignored; only '\n' can close the head or throw; the error flag is never cleared |
| HttpRequestParser.Run | trunk/VSProjects/ServeRick/Networking/HttpRequestParser.cs:184-221 | a run stops at the '\n' that closes the head, reporting its position, or at the first exception; otherwise every character is read and the head stays open |
| HttpRequestParser.RunConcat | trunk/VSProjects/ServeRick/Networking/HttpRequestParser.cs:184-221 | reading `a + b` is reading `a` and then, if the head is still open, `b`: the outcome does not depend on how the bytes are chunked |
| HttpRequestParser.RunStops | trunk/VSProjects/ServeRick/Networking/HttpRequestParser.cs:196-203 | once the head has closed or an exception escaped, later characters are not consumed |
| HttpRequestParser.AppendDataToHead | trunk/VSProjects/ServeRick/Networking/HttpRequestParser.cs:184-221 | returns the offset just past the '\n' that closed the head, or the full length when the head stays open; reading past the buffer throws |
| HttpRequestParser.AppendDataToHeadByRun | trunk/VSProjects/ServeRick/Networking/HttpRequestParser.cs:184-221 | the buffer reader agrees with the character-by-character run over the bytes it covers |
| HttpRequestParser.AppendDataToHeadLoop | trunk/VSProjects/ServeRick/Networking/HttpRequestParser.cs:184-221 | the byte loop as the source writes it computes the same outcome as `AppendDataToHead` |
| HttpRequestParser.AppendData | trunk/VSProjects/ServeRick/Networking/HttpRequestParser.cs:71-87 | a null buffer returns 0 and changes nothing; otherwise the received count grows by the length (wrapping as an `int`); a complete head consumes nothing and returns 0 |
| HttpRequestParser.ReceivedBytesAccumulate | trunk/VSProjects/ServeRick/Networking/HttpRequestParser.cs:77 | over two calls the received count grows by the sum of both lengths, whatever the head reader did |
| HttpRequestParser.ReadName | trunk/VSProjects/ServeRick/Networking/HttpRequestParser.cs:264-276 | while a name is read, ordinary characters extend it and nothing else changes |
| HttpRequestParser.ReadValue | trunk/VSProjects/ServeRick/Networking/HttpRequestParser.cs:237-247 | while a value is read, every character but line breaks is kept, except a space at its very front |
| HttpRequestParser.ColonSpace | trunk/VSProjects/ServeRick/Networking/HttpRequestParser.cs:223-247 | ": " after a name switches to the value and drops the space |
| HttpRequestParser.LineBreak | trunk/VSProjects/ServeRick/Networking/HttpRequestParser.cs:191-205 | CR LF completes the line being read, the CR being ignored |
| HttpRequestParser.HeaderLine | trunk/VSProjects/ServeRick/Networking/HttpRequestParser.cs:184-276 | the text `Name: value` CR LF stores exactly that value under that name and starts a new name |
| HttpRequestParser.RequestLine | trunk/VSProjects/ServeRick/Networking/HttpRequestParser.cs:94-107 | a first line of three tokens creates the request from them; any other shape sets the error flag and completes the parser without a request |
| HttpRequestParser.BlankLine | trunk/VSProjects/ServeRick/Networking/HttpRequestParser.cs:249-256 | an empty line after the request line closes the head two characters in, or raises the Content-length exception |
| Boundary.AsciiBytes | trunk/VSProjects/ServeRick/Modules/Input/Boundary.cs:52-55 | ASCII encoding keeps the length and maps each non-ASCII character to '?' |
| Boundary.New | trunk/VSProjects/ServeRick/Modules/Input/Boundary.cs:46-60 | the delimiter is CR LF "--" and the boundary cut to 70 characters; the cursor starts at 2, so the first boundary needs no CR LF |
| Boundary.AcceptNextAsWritten | trunk/VSProjects/ServeRick/Modules/Input/Boundary.cs:62-95 | the source's matcher: on completion the end lies inside the window, otherwise it is `int.MaxValue` |
| Boundary.MissedDelimiter | trunk/VSProjects/ServeRick/Modules/Input/Boundary.cs:85-89 | the source's matcher misses the delimiter in CR CR LF "--": the byte that breaks a partial match is not tested again |
| Boundary.AcceptNext | trunk/VSProjects/ServeRick/Modules/Input/Boundary.cs:62-95 | the corrected matcher keeps the same interface: it completes inside the window or reports `int.MaxValue` |
| Boundary.AcceptNextFindsFirst | trunk/VSProjects/ServeRick/Modules/Input/Boundary.cs:62-95 | the corrected matcher completes at the first byte that ends an occurrence of the delimiter, counting the bytes matched before the window; otherwise its cursor is the longest tail read that begins the delimiter |
| Boundary.ScanFindsFirst | trunk/VSProjects/ServeRick/Modules/Input/Boundary.cs:68-92 | the corrected scan stops exactly at the first occurrence and otherwise keeps the longest matching tail |
| Boundary.ScanAsWritten | trunk/VSProjects/ServeRick/Modules/Input/Boundary.cs:68-92 | the source's scan: a completion happens exactly when the cursor reaches the delimiter length, at an index inside the data |
| Boundary.BorderStep | trunk/VSProjects/ServeRick/Modules/Input/Boundary.cs:73-89 | the longest matching tail after one more byte depends only on the previous one and the byte |
| MultiPart.New | trunk/VSProjects/ServeRick/Modules/Input/MultiPart.cs:88-91 | a fresh reader is downloading, has seen no starting boundary, no part, no section and no bytes |
| MultiPart.ApplyPairsLookup | trunk/VSProjects/ServeRick/Modules/Input/MultiPart.cs:214-222 | every captured name is stored, the last capture of a name wins, and other entries are kept |
| MultiPart.OnSectionComplete | trunk/VSProjects/ServeRick/Modules/Input/MultiPart.cs:204-225 | it throws exactly when the section has no Content-Disposition; a non-matching disposition changes nothing; an open part's stream is the one the controller gives for the dispositions |
| MultiPart.LineEnd | trunk/VSProjects/ServeRick/Modules/Input/MultiPart.cs:247-289 | a '\n' clears the buffer, never restarts a stopped download, and a closed section leaves a stream open unless the download stopped |
| MultiPart.HeaderByte | trunk/VSProjects/ServeRick/Modules/Input/MultiPart.cs:232-298 | only a '\n' can stop the header reader or close a section; the boundary and byte count are untouched |
| MultiPart.ReadHeader | trunk/VSProjects/ServeRick/Modules/Input/MultiPart.cs:230-299 | a stretch of header bytes ends exhausted, stopped, or closed at a '\n' inside it, with a stream open unless the download stopped |
| MultiPart.ReadHeaderConcat | trunk/VSProjects/ServeRick/Modules/Input/MultiPart.cs:227-299 | the header reader does not depend on how the bytes are chunked |
| MultiPart.ReportHeaderContent | trunk/VSProjects/ServeRick/Modules/Input/MultiPart.cs:227-312 | returns where part content starts: just after the closing '\n', the end of the stretch, or `int.MaxValue` when reading stopped |
| MultiPart.ReportPartContent | trunk/VSProjects/ServeRick/Modules/Input/MultiPart.cs:184-202 | header bytes are read first, then content goes to the open part; the counters are kept and a stopped download stays stopped |
| MultiPart.ReportPartEnd | trunk/VSProjects/ServeRick/Modules/Input/MultiPart.cs:169-182 | the open part is completed and closed; without one, the download stops |
| MultiPart.GetStartingBoundary | trunk/VSProjects/ServeRick/Modules/Input/MultiPart.cs:150-167 | with either matcher, the source's or the corrected one: reading continues after the first boundary when found; otherwise more bytes in total than the delimiter holds stop the download |
| MultiPart.Loop | trunk/VSProjects/ServeRick/Modules/Input/MultiPart.cs:125-147 | with either matcher, the body loop keeps the reader valid and the byte count unchanged |
| MultiPart.AcceptData | trunk/VSProjects/ServeRick/Modules/Input/MultiPart.cs:93-148 | with either matcher, the source's one giving the reader as written: the total of received bytes grows by every chunk's length, and a stopped download stays stopped |
| MultiPart.ReadPlain | trunk/VSProjects/ServeRick/Modules/Input/MultiPart.cs:291-297 | ordinary bytes are buffered as characters |
| MultiPart.SkipBlanks | trunk/VSProjects/ServeRick/Modules/Input/MultiPart.cs:292-294 | white space read into an empty buffer is dropped |
| MultiPart.LineBeforeSection | trunk/VSProjects/ServeRick/Modules/Input/MultiPart.cs:253-273 | before a section opens, "--" ends the input, an empty line opens a section, and any other line stops with an error |
| MultiPart.KeyValueLine | trunk/VSProjects/ServeRick/Modules/Input/MultiPart.cs:236-289 | inside a section, "key:", blanks, a value and '\n' store the value under the key |
| MultiPart.ReadKey | trunk/VSProjects/ServeRick/Modules/Input/MultiPart.cs:240-245 | ':' confirms the buffered text as the key |
| MultiPart.ReadValueEnd | trunk/VSProjects/ServeRick/Modules/Input/MultiPart.cs:286-289 | '\n' with a key pending stores the buffered value under it |
| MultiPart.EmptyLineClosesSection | trunk/VSProjects/ServeRick/Modules/Input/MultiPart.cs:275-284 | an empty line closes the section, content starts right after its '\n', and a controller that gives no stream stops the download |
| MultiPart.NoStartingBoundaryStops | trunk/VSProjects/ServeRick/Modules/Input/MultiPart.cs:150-166 | with either matcher, more bytes than the delimiter holds before any boundary stop the download |
| MultiPart.StartingBoundaryMissedAsWritten | trunk/VSProjects/ServeRick/Modules/Input/MultiPart.cs:150-166 | on the body CR CR CR LF "--" with an empty boundary text, the source's reader stops without a first boundary, where the corrected matcher finds it |
| PartStream.New | trunk/VSProjects/ServeRick/Modules/Input/PartStream.cs:18-21 | a fresh stream has written nothing under its limit |
| PartStream.Write | trunk/VSProjects/ServeRick/Modules/Input/PartStream.cs:24-34 | the total grows by the chunk (wrapping as a `ulong`); past the limit the chunk is refused and not passed on, otherwise the concrete write decides |
| PartStream.WriteAll | trunk/VSProjects/ServeRick/Modules/Input/PartStream.cs:24-34 | chunk after chunk, stopping at the first refusal, keeps the stream valid under its limit |
| PartStream.WriteAllWithinLimit | trunk/VSProjects/ServeRick/Modules/Input/PartStream.cs:26-33 | within the limit (equality included) the stream receives exactly the concatenated chunks and the total is their length |
| PartStream.OverLimitStaysRefused | trunk/VSProjects/ServeRick/Modules/Input/PartStream.cs:27-31 | once past the limit, every later chunk is refused and nothing more is passed on |
| WebSocket.BigEndianRoundTrip | trunk/VSProjects/ServeRick/Networking/WebSocket.cs:126-127 | big-endian length bytes read back to the number they encode |
| WebSocket.XorTwice | trunk/VSProjects/ServeRick/Networking/WebSocket.cs:241 | XOR with the same key byte twice gives the byte back |
| WebSocket.Mask | trunk/VSProjects/ServeRick/Networking/WebSocket.cs:235-243 | byte i of the payload is XOR-ed with byte i mod 4 of the key (section 5.3 of RFC 6455) |
| WebSocket.MaskTwice | trunk/VSProjects/ServeRick/Networking/WebSocket.cs:235-243 | unmasking is masking again |
| WebSocket.AsciiString | trunk/VSProjects/ServeRick/Networking/WebSocket.cs:245 | ASCII decoding keeps the length and maps each byte above 127 to '?' |
| WebSocket.Int16 | trunk/VSProjects/ServeRick/Networking/WebSocket.cs:220 | `BitConverter.ToInt16` of two big-endian bytes is a signed 16-bit number |
| WebSocket.LayoutAsWritten | trunk/VSProjects/ServeRick/Networking/WebSocket.cs:206-230 | a length code up to 125 puts the key at byte 2; 126 reads a 16-bit length and puts the key at byte 4; code 127 leaves every number at 0 |
| WebSocket.DecodePayload | trunk/VSProjects/ServeRick/Networking/WebSocket.cs:232-245 | a frame longer than the buffer throws; otherwise the payload is unmasked with the four key bytes and read as ASCII |
| WebSocket.GetDecodedData | trunk/VSProjects/ServeRick/Networking/WebSocket.cs:187-246 | a non-final frame and opcodes other than 1 and 8 throw; opcode 8 gives null; only a final text frame gives text |
| WebSocket.SendHeaderAsWritten | trunk/VSProjects/ServeRick/Networking/WebSocket.cs:109-128 | the source's header starts with FIN and the text opcode |
| WebSocket.SendHeader | trunk/VSProjects/ServeRick/Networking/WebSocket.cs:109-128 | the corrected header starts with FIN and the text opcode and leaves the mask bit clear |
| WebSocket.Send | trunk/VSProjects/ServeRick/Networking/WebSocket.cs:104-130 | the source's frame starts with FIN and the text opcode, ends with the message bytes, and its header announces the message length to a reader; the header is minimal for every length but 65535 |
| WebSocket.SendCorrected | trunk/VSProjects/ServeRick/Networking/WebSocket.cs:104-130 | the corrected frame ends with the message bytes and its header announces their length in the minimal form of section 5.2 of RFC 6455 |
| WebSocket.SendHeaderAsWrittenAnnounces | trunk/VSProjects/ServeRick/Networking/WebSocket.cs:116-128 | the source's header announces every length below 2^64, and is minimal except for 65535 |
| WebSocket.SendHeaderAnnounces | trunk/VSProjects/ServeRick/Networking/WebSocket.cs:116-128 | the corrected header announces the message length, in the minimal form of section 5.2 of RFC 6455 |
| WebSocket.SendHeaderAsWrittenNotMinimal | trunk/VSProjects/ServeRick/Networking/WebSocket.cs:122-123 | a 65535-byte message gets the eight-byte length form where two bytes suffice |
| WebSocket.DecodeFrame | trunk/VSProjects/ServeRick/Networking/WebSocket.cs:187-246 | the corrected decoder keeps the opcode handling of the source |
| WebSocket.DecodeClientFrame | trunk/VSProjects/ServeRick/Networking/WebSocket.cs:187-246 | decoding a masked client frame gives back its payload as ASCII, for every payload length |
| WebSocket.DecodeAsWrittenShortFrames | trunk/VSProjects/ServeRick/Networking/WebSocket.cs:211-223 | the source's decoder gets short frames and 16-bit lengths below 32768 right |
| WebSocket.DecodeAsWrittenSignedLength | trunk/VSProjects/ServeRick/Networking/WebSocket.cs:218-223 | the source's decoder throws on a client frame of 32768 to 65535 bytes |
| WebSocket.LongFrameAsWritten | trunk/VSProjects/ServeRick/Networking/WebSocket.cs:225-230 | the source's decoder reads a frame longer than 65535 bytes as the empty text: its 64-bit branch is unreachable |
| WebSocket.Get | trunk/VSProjects/ServeRick/Networking/WebSocket.cs:66-72 | the stored field value, or the default when the field is missing |
| WebSocket.Set | trunk/VSProjects/ServeRick/Networking/WebSocket.cs:82-86 | the field holds the value, which is returned; other fields are kept |
| WebSocket.Initialize | trunk/VSProjects/ServeRick/Networking/WebSocket.cs:95-102 | it stores and returns true exactly when the field has no value; otherwise it returns false and changes nothing |
| WebSocket.InitializeOnce | trunk/VSProjects/ServeRick/Networking/WebSocket.cs:95-102 | after `Initialize` the field holds its earlier value if it had one, and a second `Initialize` changes nothing |
| Tokens.Create | trunk/VSProjects/Parsing/Token.cs:46-63 | the end is the start plus the data length, and an end that would wrap past `int.MaxValue` is refused |
| Tokens.Special | trunk/VSProjects/Parsing/Token.cs:65-69 | a special token has no data, length 0, and ends where it starts |
| Tokens.SpecialIsCreated | trunk/VSProjects/Parsing/Token.cs:52-55 | a special token is what the constructor makes of a name without data |
| Tokens.Text | trunk/VSProjects/Parsing/Token.cs:71-75 | a text token is refused exactly when its end would pass `int.MaxValue` |
| Tokens.TextToken | trunk/VSProjects/Parsing/Token.cs:56-59 | a text token is named "Text" and ends at its start plus the data length |
| Tokens.SetChild | trunk/VSProjects/Parsing/Token.cs:30-43 | a child can be set only once and only to a token; setting it makes the token the child's parent |
| Tokens.ChildSetOnce | trunk/VSProjects/Parsing/Token.cs:35-36 | a second attempt to set the child is refused, whatever it sets |
| Grammar.Unnamed | trunk/VSProjects/Parsing/Terms/Term.cs:86-89 | an unnamed key terminal whose text is the keyword |
| Grammar.FromTermText | trunk/VSProjects/Parsing/Terms/Term.cs:51-54 | a term converted to a rule is one single-term sequence, rendered on one line |
| Grammar.TermPlusIsPlus | trunk/VSProjects/Parsing/Terms/Term.cs:56-59 | `t1 + t2` is the one-sequence rule `[t1, t2]` |
| Grammar.TermOrIsOr | trunk/VSProjects/Parsing/Terms/Term.cs:61-64 | `t1 \| t2` is the two one-term sequences |
| Grammar.NewSequence | trunk/VSProjects/Parsing/GrammarSequence.cs:34-41 | a new sequence keeps its terms in order and has no parent yet |
| Grammar.SetParent | trunk/VSProjects/Parsing/GrammarSequence.cs:47-53 | the parent is set only when none was, and a second parent throws |
| Grammar.SetParentTwice | trunk/VSProjects/Parsing/GrammarSequence.cs:49-50 | whatever the first parent, a second one throws |
| Grammar.SequenceTextAppend | trunk/VSProjects/Parsing/GrammarSequence.cs:55-65 | the rendering lists the terms in order: one more term adds ", " and its text before the closing brace |
| Grammar.SequenceTextSingle | trunk/VSProjects/Parsing/GrammarSequence.cs:55-65 | a one-term sequence renders as that term in braces |
| Grammar.Or | trunk/VSProjects/Parsing/GrammarRule.cs:125-128 | `r1 \| r2` holds r1's sequences followed by r2's |
| Grammar.CrossIndex | trunk/VSProjects/Parsing/GrammarRule.cs:103-117 | the cross product is r1-major: entry `i * \|s2\| + j` joins `s1[i]` and `s2[j]` |
| Grammar.PlusSequences | trunk/VSProjects/Parsing/GrammarRule.cs:103-117 | `r1 + r2` has \|r1\|·\|r2\| sequences, each an r1 sequence followed by an r2 sequence, in r1-major order |
| Grammar.KeyPlusSequences | trunk/VSProjects/Parsing/GrammarRule.cs:81-84 | a keyword before a rule leads each of its sequences with the same unnamed key terminal |
| Grammar.PlusKeySequences | trunk/VSProjects/Parsing/GrammarRule.cs:92-95 | a keyword after a rule ends each of its sequences with the unnamed key terminal |
| Grammar.NonTerminalsExactly | trunk/VSProjects/Parsing/GrammarRule.cs:44-54 | the non-terminals of a term list are exactly its terms of non-terminal kind |
| Grammar.NonTerminalsOrdered | trunk/VSProjects/Parsing/GrammarRule.cs:44-54 | the non-terminals of a term list are those of any prefix followed by those of the rest, so the order of the terms is kept, and they are all non-terminals |
| Grammar.OrTerms | trunk/VSProjects/Parsing/GrammarRule.cs:27-39 | the terms and non-terminals of `r1 \| r2` are r1's followed by r2's |
| Grammar.NonTerminalsOfRule | trunk/VSProjects/Parsing/GrammarRule.cs:44-54 | a rule's non-terminals are exactly its terms of non-terminal kind |
| Grammar.OrText | trunk/VSProjects/Parsing/GrammarRule.cs:150-160 | the rendering of `r1 \| r2` is r1's lines followed by r2's |
| Labels.LabelLinks | trunk/VSProjects/Parsing/Labels/ActiveLabel.cs:24-45 | a label completes iff it is at the last term; then it has a complete label and no next one, otherwise the next label sits one term further; a terminal label exists iff the current term is a terminal |
| Labels.NewLabel | trunk/VSProjects/Parsing/Labels/ActiveLabel.cs:29-31 | a label exists only for an index inside the sequence |
| Labels.ChainFromShape | trunk/VSProjects/Parsing/Labels/ActiveLabel.cs:37-44 | the chain from a label visits every later position in order, and only its last label completes |
| Labels.ChainShape | trunk/VSProjects/Parsing/Labels/ActiveLabel.cs:24-45 | a sequence's chain holds one label per term, the k-th waiting for the k-th term; an empty sequence has no chain |
| Edges.SelfEdge | trunk/VSProjects/Parsing/Edges/ActiveEdge.cs:35-40 | the self-edge is zero-width at the end of the edge it extends |
| Edges.ExtendAndComplete | trunk/VSProjects/Parsing/Edges/ActiveEdge.cs:42-61 | extending spans the edge's start to the constituent's end with the next label; completing spans the same with the complete label and the owner as parent |
| Edges.TerminalEdge | trunk/VSProjects/Parsing/Edges/TerminalEdge.cs:14-18 | a terminal edge takes the terminal as parent and ends where the match ends |
| Edges.EqualityIgnoresBackLinks | trunk/VSProjects/Parsing/Edges/ActiveEdge.cs:68-79 | edges are equal by label and span, whatever their back-links |
| Edges.JoinRespectsEquality | trunk/VSProjects/Parsing/Edges/ActiveEdge.cs:51-61 | equal edges joined with equal constituents give equal edges, so dropping a duplicate loses nothing |
| Edges.HashesAgree | trunk/VSProjects/Parsing/Edges/ActiveEdge.cs:81-84 | equal edges have equal hashes, for active and complete edges |
| Edges.ConnectComplete | trunk/VSProjects/Parsing/Edges/IncommingEdges.cs:51-57 | connecting a complete edge is a set insertion that reports whether the edge was new |
| Edges.ClearWaiting | trunk/VSProjects/Parsing/Edges/IncommingEdges.cs:59-62 | only the waiting terminals are cleared |
| Edges.ConnectActiveMeaning | trunk/VSProjects/Parsing/Edges/IncommingEdges.cs:28-49 | a duplicate changes nothing and reports false; a new edge is recorded, reported true, filed under its term and its terminal label waits |
| Edges.ConnectActiveFiles | trunk/VSProjects/Parsing/Edges/IncommingEdges.cs:40-47 | a new edge is appended to the edges filed under its term, and nowhere else |
| Edges.ConnectActiveWaiting | trunk/VSProjects/Parsing/Edges/IncommingEdges.cs:33-37 | the waiting set gains the new edge's terminal label and nothing else |
| Edges.ConnectActiveIndexed | trunk/VSProjects/Parsing/Edges/IncommingEdges.cs:28-49 | connecting keeps the incoming set's bookkeeping consistent |
| Edges.ExtensibleWithExactly | trunk/VSProjects/Parsing/Edges/IncommingEdges.cs:19-26 | the edges extensible with a constituent are exactly the recorded edges waiting for its parent, each once |
| Edges.ConnectCompleteTwice | trunk/VSProjects/Parsing/Edges/IncommingEdges.cs:51-57 | connecting a complete edge a second time reports false and changes nothing |
| ParseSource.GetSourceContext | trunk/VSProjects/Parsing/Source/SourceData.cs:65-75 | the context object of an index is created on first request and cached |
| ParseSource.ContextsCanonical | trunk/VSProjects/Parsing/Source/SourceData.cs:65-75 | one context object per index: asking again gives the same context and changes nothing |
| ParseSource.ShiftMeaning | trunk/VSProjects/Parsing/Source/SourceContext.cs:51-61 | `Shift` succeeds exactly when the data follows the context, and then gives the context just past it |
| ParseSource.SkipWhitespacesMeaning | trunk/VSProjects/Parsing/Source/SourceContext.cs:68-77 | lands on the first index at or after the context that is not white space, or on the end of the text |
| ParseSource.MatchTerminalMeaning | trunk/VSProjects/Parsing/Terms/KeyTerminal.cs:19-25 | a key terminal matches exactly when its key follows the white space, ending right after it; the empty terminal always matches with zero width |
| ParseSource.MatchMemoised | trunk/VSProjects/Parsing/Source/SourceContext.cs:32-49 | the memoised match agrees with matching afresh, and a second request returns the stored match unchanged |
| ParseSource.IncomingAt | trunk/VSProjects/Parsing/Source/SourceData.cs:54-63 | the edges ending at an index, created empty on first request |
| ParseSource.IncomingOnce | trunk/VSProjects/Parsing/Source/SourceData.cs:54-63 | created once, then reused unchanged |
| ParseSource.WaitingLabels | trunk/VSProjects/Parsing/Source/SourceData.cs:29-34 | the waiting terminals of an index; the lookup throws for an index without incoming set |
| ParseSource.ConnectActiveRouted | trunk/VSProjects/Parsing/Source/SourceData.cs:45-52 | connecting an active edge touches only the set at its end and reports what that set reports |
| ParseSource.ConnectCompleteRouted | trunk/VSProjects/Parsing/Source/SourceData.cs:36-43 | connecting a complete edge touches only the set at its end and reports what that set reports |
| ParseSource.Interpret | trunk/VSProjects/Parsing/Source/SourceContext.cs:80-91 | one terminal edge per waiting label whose terminal matches at the context, in the labels' order |
| ParseSource.InterpretKeepsMatches | trunk/VSProjects/Parsing/Source/SourceContext.cs:80-91 | no successful match is lost, and nothing but successful matches is kept |
| ParseSource.GetInterpretations | trunk/VSProjects/Parsing/Source/SourceContext.cs:80-91 | the successful matches of the waited-for terminals at the context; throws for an index without incoming set |
| Parser.Construct | trunk/VSProjects/Parsing/Parser.cs:58-78 | building the label chains throws on an empty sequence or on a non-terminal without a rule |
| Parser.TransitionsClosed | trunk/VSProjects/Parsing/Parser.cs:275-301 | a label's transitions are the heads of the non-terminal it waits for, closed under prediction; there are none for a label waiting for a terminal |
| Parser.RootTransitionsMeaning | trunk/VSProjects/Parsing/Parser.cs:248-258 | the root transitions are exactly each root sequence's head and its transitions |
| Parser.RootTransitionsValid | trunk/VSProjects/Parsing/Parser.cs:248-258 | every root transition is a valid label |
| Parser.ConnectSelfEdges | trunk/VSProjects/Parsing/Source/SourceContext.cs:97-104 | the zero-width edges of the given labels are connected at the context, keeping the chart well indexed |
| Parser.Initial | trunk/VSProjects/Parsing/Parser.cs:86-101 | the start of parsing connects the root transitions at the first context, which becomes the only next-word context |
| Parser.Collect | trunk/VSProjects/Parsing/Parser.cs:178-190 | the interpretations of every next-word context, in order; a context without an incoming set throws |
| Parser.Enqueue | trunk/VSProjects/Parsing/Parser.cs:194-203 | every interpretation joins the chart, and its end becomes a next-word context unless it is zero-width and not alone |
| Parser.EnqueueNext | trunk/VSProjects/Parsing/Parser.cs:194-203 | a context is a next-word context afterwards exactly when it was one before or ends a non-zero-width interpretation, or any interpretation when it is the only one |
| Parser.Scan | trunk/VSProjects/Parsing/Parser.cs:175-220 | `scan` reports false when no next-word context has an interpretation |
| Parser.ScanMeaning | trunk/VSProjects/Parsing/Parser.cs:175-220 | scanning fails only on a context without incoming edges, reports false exactly when there is nothing to read, and otherwise appends every interpretation to the agenda |
| Parser.Predict | trunk/VSProjects/Parsing/Parser.cs:141-153 | the extended edge is connected, and its transitions' self-edges only when it is new |
| Parser.PredictMeaning | trunk/VSProjects/Parsing/Parser.cs:141-153 | an extended edge already in the chart changes nothing; a new one brings the self-edges of all its transitions |
| Parser.Complete | trunk/VSProjects/Parsing/Parser.cs:155-173 | a new constituent is connected and enqueued; a final one spanning the whole text becomes the result and empties the agenda |
| Parser.CompleteMeaning | trunk/VSProjects/Parsing/Parser.cs:155-173 | a duplicate constituent is not enqueued again; the result is only ever a final constituent from the first character to the end |
| Parser.ProcessEdgesJoins | trunk/VSProjects/Parsing/Parser.cs:127-137 | every edge of the snapshot is completed when its label completes, and extended otherwise |
| Parser.ProcessConstituentJoins | trunk/VSProjects/Parsing/Parser.cs:119-139 | each edge ending at the constituent's start and waiting for its parent is joined with it, the result recorded at the constituent's end |
| Parser.AsWrittenAgrees | trunk/VSProjects/Parsing/Parser.cs:127-137 | while the enumerated set is not disturbed, the source's loop does what the snapshot loop does |
| Parser.AsWrittenThrows | trunk/VSProjects/Parsing/Parser.cs:127-137 | an extension that lands in the hash set being enumerated makes the source's loop throw |
| Parser.ThrowsOnSelfExtension | trunk/VSProjects/Parsing/Parser.cs:127-137 | a zero-width constituent whose extension waits for its parent again makes the source's loop throw |
| Parser.CollectionModifiedExample | trunk/VSProjects/Parsing/Parser.cs:127-137 | with the grammar `R -> X X`, `X` empty, the source's loop throws on every text |
| Parser.AsWrittenEnumerates | trunk/VSProjects/Parsing/Parser.cs:123-137 | the source's loop enumerates the live extensible edges at the constituent's start |
| Parser.ProcessAgenda | trunk/VSProjects/Parsing/Parser.cs:119-139 | with either enumeration, working off the agenda keeps the chart well indexed, only grows it and empties the agenda; only the live set of the source throws `CollectionModified` |
| Parser.WorkOff | trunk/VSProjects/Parsing/Parser.cs:119-139 | a constituent worked off without an exception gives the snapshot result; only the live set throws, and only `CollectionModified` |
| Parser.ProcessAgendaAgrees | trunk/VSProjects/Parsing/Parser.cs:119-139 | when the source's agenda loop returns, the snapshot loop returns the same chart |
| Parser.Run | trunk/VSProjects/Parsing/Parser.cs:103-109 | with either enumeration, scan and agenda rounds repeat until there is a result or nothing more to read, keeping the chart well indexed and growing |
| Parser.RunAgrees | trunk/VSProjects/Parsing/Parser.cs:103-109 | when the source's loop returns, the snapshot loop returns the same chart |
| Parser.RunSnapshotNeverModified | trunk/VSProjects/Parsing/Parser.cs:103-109 | the snapshot loop never throws `CollectionModified` |
| Parser.Parse | trunk/VSProjects/Parsing/Parser.cs:86-114 | with either enumeration, a result is a constituent of a final non-terminal from the first character to the end of the text |
| Parser.ParseAgrees | trunk/VSProjects/Parsing/Parser.cs:86-114 | when the source's parse returns, the snapshot parse returns the same constituent |
| Parser.ParseCollectionModified | trunk/VSProjects/Parsing/Parser.cs:86-137 | with `R -> X X`, `X` empty, the source's parse throws `CollectionModified` on every text, and the snapshot parse does not |
| Parser.ParseSnapshotNeverModified | trunk/VSProjects/Parsing/Parser.cs:86-114 | the snapshot parse never throws `CollectionModified` |
| ParseTree.NodeNameMeaning | trunk/VSProjects/Parsing/Node.cs:64-71 | a node is named after the owner of its completed sequence, or after the terminal its label waited for |
| ParseTree.CollectedInOrder | trunk/VSProjects/Parsing/Node.cs:73-81 | walking the back-links and reversing yields the constituents left to right |
| ParseTree.ChildrenSmaller | trunk/VSProjects/Parsing/Node.cs:73-80 | the rebuilt children are smaller than their constituent, so rebuilding terminates |
| ParseTree.ChildrenSpan | trunk/VSProjects/Parsing/Node.cs:73-81 | the children of a completed sequence lie end to end from the node's start to its end |
| ParseTree.SkipTransientChildren | trunk/VSProjects/Parsing/Node.cs:112-126 | a spliced child is replaced in place by its children, which are not examined again |
| ParseTree.RemovePunctuation | trunk/VSProjects/Parsing/Node.cs:90-107 | a punctuation child is removed, and the child moving into its place is examined next |
| ParseTree.FlattenMembers | trunk/VSProjects/Parsing/Node.cs:112-126 | every node left by splicing is an original child that is not spliced, or a child of a spliced one |
| ParseTree.UnpunctuatedMembers | trunk/VSProjects/Parsing/Node.cs:90-107 | removing punctuation keeps exactly the children that are not punctuation |
| ParseTree.Build | trunk/VSProjects/Parsing/Node.cs:59-85 | a node per constituent, rebuilt recursively, then spliced and cleaned |
| ParseTree.BuildClean | trunk/VSProjects/Parsing/Node.cs:59-85 | no node of a rebuilt tree keeps a transient child with children or a punctuation child |
| ParseTree.BuildChildren | trunk/VSProjects/Parsing/Node.cs:59-85 | a rebuilt node keeps exactly the non-punctuation nodes of its unspliced constituents and the children of its spliced ones, left to right |
| ParseTree.FlattenClean | trunk/VSProjects/Parsing/Node.cs:112-126 | splicing clean children leaves clean children none of which is spliceable |
| AstPaths.FirstNamed | trunk/VSProjects/ServeRick/Compiling/CompilerBase.cs:142-150 | the first child with the given name, if any |
| AstPaths.GetDescendant | trunk/VSProjects/ServeRick/Compiling/CompilerBase.cs:133-157 | the empty path gives the root; each step takes the first child of that name; a missing step gives null |
| AstPaths.DescendantStep | trunk/VSProjects/ServeRick/Compiling/CompilerBase.cs:133-157 | the walk takes the first name from the root, then the rest of the path from there |
| AstPaths.OmitLast | trunk/VSProjects/ServeRick/Compiling/CompilerBase.cs:258-261 | the path without its last name |
| AstPaths.ChildrenNamedMembers | trunk/VSProjects/ServeRick/Compiling/CompilerBase.cs:176-180 | the children with a name are exactly those children, in order |
| AstPaths.GetDescendants | trunk/VSProjects/ServeRick/Compiling/CompilerBase.cs:165-183 | the children with the last name of the node the rest of the path reaches; none when it is missing; the empty path throws |
| AstPaths.DescendantsMeaning | trunk/VSProjects/ServeRick/Compiling/CompilerBase.cs:165-183 | every returned node is such a child, and every such child is returned |
| AstPaths.GetTerminalText | trunk/VSProjects/ServeRick/Compiling/CompilerBase.cs:216-224 | the matched text of the node the path reaches, or null for a missing or non-terminal node |
| AstPaths.GetTerminalTexts | trunk/VSProjects/ServeRick/Compiling/CompilerBase.cs:191-209 | the texts of the terminal children of the node the path without its last name reaches |
| AstPaths.TerminalTextsMeaning | trunk/VSProjects/ServeRick/Compiling/CompilerBase.cs:198-206 | one text per terminal child, in order, non-terminal children skipped |
| AstPaths.StepToChild | trunk/VSProjects/ServeRick/Compiling/CompilerBase.cs:245-251 | the only child; throws unless there is exactly one |
| AstPaths.GetSubTerminalText | trunk/VSProjects/ServeRick/Compiling/CompilerBase.cs:231-238 | the text of the single child when it is a terminal |
| SyntaxError.NearPreview | trunk/VSProjects/ServeRick/Compiling/SyntaxError.cs:30-62 | a substring of the text, between the last '\n' before the location (kept) and the next '\n' or the end, bounds clamped to the text |
| SyntaxError.PreviewUnique | trunk/VSProjects/ServeRick/Compiling/SyntaxError.cs:35-57 | the two scans stop at positions fixed by the text and the location: the preview is the one line around the location |
| Queries.NewClause | trunk/VSProjects/ServeRick/Database/WhereClause.cs:35-38 | a new clause holds no condition |
| Queries.AddItem | trunk/VSProjects/ServeRick/Database/WhereClause.cs:49-52 | the item goes last and every earlier item stays in place |
| Queries.NewSelect | trunk/VSProjects/ServeRick/Database/SelectQuery.cs:52-56 | no condition, limit `int.MaxValue`, offset 0 |
| Queries.CloneWith | trunk/VSProjects/ServeRick/Database/SelectQuery.cs:122-129 | a clone on another clause keeps the limit and the offset |
| Queries.Where | trunk/VSProjects/ServeRick/Database/SelectQuery.cs:73-81 | one more condition, at the end; limit and offset kept |
| Queries.Limit | trunk/VSProjects/ServeRick/Database/SelectQuery.cs:98-103 | only the maximal count changes |
| Queries.Offset | trunk/VSProjects/ServeRick/Database/SelectQuery.cs:105-110 | only the start changes |
| Queries.Find | trunk/VSProjects/ServeRick/Database/SelectQuery.cs:63-66 | an equality condition on "id" followed by a limit of one row |
| Queries.BuildersCommute | trunk/VSProjects/ServeRick/Database/SelectQuery.cs:73-110 | limit and offset commute, a second one replaces the first, and neither disturbs the conditions |
| Queries.WhereAllAppends | trunk/VSProjects/ServeRick/Database/SelectQuery.cs:73-81 | a chain of `Where` calls appends its conditions in call order |
| Queries.NewUpdate | trunk/VSProjects/ServeRick/Database/UpdateQuery.cs:24-28 | a new update query holds no pair |
| Queries.Update | trunk/VSProjects/ServeRick/Database/UpdateQuery.cs:35-40 | a new query with the pair last and the same select |
| Queries.SelectUpdate | trunk/VSProjects/ServeRick/Database/SelectQuery.cs:91-96 | an update over this select holding the one pair |
| Queries.UpdateAllAppends | trunk/VSProjects/ServeRick/Database/UpdateQuery.cs:35-40 | a chain of `Update` calls keeps the select and records the pairs in call order |
| LightData.Put | trunk/VSProjects/ServeRick/Modules/LightDataDriver.cs:26-35 | a new key goes last, an existing one keeps its place with the new record |
| LightData.Initialize | trunk/VSProjects/ServeRick/Modules/LightDataDriver.cs:26-35 | each record of the table's type is stored under its id |
| LightData.InitializeMeaning | trunk/VSProjects/ServeRick/Modules/LightDataDriver.cs:26-35 | a key is present iff it was before or a record of the table's type has it; the last such record is stored; records of other types are skipped |
| LightData.Test | trunk/VSProjects/ServeRick/Modules/LightDataDriver.cs:107-129 | `Equal` compares the column with the operand; `HasSubstring` looks for the operand in a string column |
| LightData.PassesMeaning | trunk/VSProjects/ServeRick/Modules/LightDataDriver.cs:107-142 | a row passes exactly when every condition holds of it |
| LightData.PullIsWindow | trunk/VSProjects/ServeRick/Modules/LightDataDriver.cs:58-66 | the lazy enumeration yields the skip/take window of the passing rows, in table order |
| LightData.PullPasses | trunk/VSProjects/ServeRick/Modules/LightDataDriver.cs:131-142 | every row yielded passes the conditions |
| LightData.ExecuteRows | trunk/VSProjects/ServeRick/Modules/LightDataDriver.cs:58-66 | the window of the rows passing the conditions, with the table's size as total count |
| LightData.ExecuteRow | trunk/VSProjects/ServeRick/Modules/LightDataDriver.cs:37-56 | no condition gives the first record (an empty table throws); more than one gives the first row passing them all |
| LightData.GetUid | trunk/VSProjects/ServeRick/Modules/LightDataDriver.cs:101-105 | one more than the largest key, wrapping as an `int`; an empty table throws |
| LightData.UidFresh | trunk/VSProjects/ServeRick/Modules/LightDataDriver.cs:101-105 | when the largest key leaves room, the new id is not yet used |
| LightData.InsertRows | trunk/VSProjects/ServeRick/Modules/LightDataDriver.cs:68-77 | each row in turn gets the next id and is added under it |
| LightData.InsertRowsMeaning | trunk/VSProjects/ServeRick/Modules/LightDataDriver.cs:68-77 | each row is added, renumbered, after the existing keys, in order, and the existing records are kept |
| LightData.SetColumn | trunk/VSProjects/ServeRick/Modules/LightDataDriver.cs:107-129 | "id" sets the record's id; any other name must be an existing field |
| LightData.ApplyAllUntouched | trunk/VSProjects/ServeRick/Modules/LightDataDriver.cs:81-95 | a column no pair names is untouched |
| LightData.ApplyAllLast | trunk/VSProjects/ServeRick/Modules/LightDataDriver.cs:81-95 | a column named by some pair ends with the value of the last such pair |
| LightData.UpdateEachMeaning | trunk/VSProjects/ServeRick/Modules/LightDataDriver.cs:81-95 | each record selected once gets every pair applied once, in order |
| LightData.UpdateRows | trunk/VSProjects/ServeRick/Modules/LightDataDriver.cs:81-95 | the selected rows are updated with every pair and the table keeps its keys |
| LightData.UpdateRowsMeaning | trunk/VSProjects/ServeRick/Modules/LightDataDriver.cs:81-95 | each selected record has every pair applied and every other record is as it was |
| CompilerHelpers.PairsToContainer | trunk/VSProjects/ServeRick/Compiling/CompilerHelpers.cs:53-61 | each pair is stored by indexer assignment, so a later duplicate key overwrites |
| CompilerHelpers.PairsLastWins | trunk/VSProjects/ServeRick/Compiling/CompilerHelpers.cs:53-61 | a key ends with the value of the last pair carrying it |
| CompilerHelpers.CreateDictionary | trunk/VSProjects/ServeRick/Compiling/CompilerHelpers.cs:19-28 | the dictionary is built exactly when the keys are distinct; a duplicate key throws |
| CompilerHelpers.SetValue | trunk/VSProjects/ServeRick/Compiling/CompilerHelpers.cs:30-34 | the key is bound to the value and every other entry is unchanged |
| CompilerHelpers.AttributesToString | trunk/VSProjects/ServeRick/Compiling/CompilerHelpers.cs:36-51 | nothing for no attributes; otherwise a leading space, then each `k="v"` followed by a space |
| CompilerHelpers.AttributesRenderEach | trunk/VSProjects/ServeRick/Compiling/CompilerHelpers.cs:36-51 | each attribute's text appears after the texts of the attributes before it |
| CompilerHelpers.IsEqual | trunk/VSProjects/ServeRick/Compiling/CompilerHelpers.cs:73-79 | null equals only null; otherwise the first operand's `Equals` decides |
| CompilerHelpers.IsEqualIsEquality | trunk/VSProjects/ServeRick/Compiling/CompilerHelpers.cs:73-79 | with value equality as `Equals`, `IsEqual` is equality of the operands, in both directions |
| Scss.Add | trunk/VSProjects/ServeRick/Languages/SCSS/SpecifierList.cs:38-41 | the selector goes last, the others stay |
| Scss.SetParent | trunk/VSProjects/ServeRick/Languages/SCSS/SpecifierList.cs:13-29 | the nested loops build the parent × own cross product, parent-major |
| Scss.SetParentMeaning | trunk/VSProjects/ServeRick/Languages/SCSS/SpecifierList.cs:13-29 | an empty parent list gives none; entry `i * n + j` joins parent i, a space and own selector j |
| Scss.SpecifiersToCss | trunk/VSProjects/ServeRick/Languages/SCSS/SpecifierList.cs:31-36 | the selectors joined by commas; none gives the empty text |
| Scss.SpecifiersRoundTrip | trunk/VSProjects/ServeRick/Languages/SCSS/SpecifierList.cs:31-36 | selectors without commas are recovered by splitting the rendering at commas |
| Scss.NewBlock | trunk/VSProjects/ServeRick/Languages/SCSS/CssBlock.cs:20-26 | the head is the rendered selectors and the block is empty |
| Scss.AddDefinition | trunk/VSProjects/ServeRick/Languages/SCSS/CssBlock.cs:28-31 | `key: value;` goes last, the block is no longer empty, and head and selectors stay |
| Scss.AddDefinitions | trunk/VSProjects/ServeRick/Languages/SCSS/CssBlock.cs:33-36 | the definitions go last in order; the block is empty iff it was and none were given |
| Scss.BlockToCss | trunk/VSProjects/ServeRick/Languages/SCSS/CssBlock.cs:38-53 | the head, `{`, one tab-indented line per definition, then `}` |
| Scss.BlockTextAdd | trunk/VSProjects/ServeRick/Languages/SCSS/CssBlock.cs:38-53 | an empty block renders as empty braces; a new definition adds exactly its line before the closing brace |
| HamlInterval.NewEnumerator | trunk/VSProjects/ServeRick/Languages/HAML/Compiling/HAMLInterval.cs:36-47 | a new enumerator's `Current` is 0, and the lower bound is only stored |
| HamlInterval.MoveNext | trunk/VSProjects/ServeRick/Languages/HAML/Compiling/HAMLInterval.cs:59-66 | false, changing nothing, exactly when `Current` equals the upper bound; otherwise `Current` is incremented as a wrapping `int` |
| HamlInterval.Reset | trunk/VSProjects/ServeRick/Languages/HAML/Compiling/HAMLInterval.cs:68-71 | `Current` becomes the lower bound |
| HamlInterval.CurrentObject | trunk/VSProjects/ServeRick/Languages/HAML/Compiling/HAMLInterval.cs:54-57 | the non-generic `Current` always throws |
| HamlInterval.MoveNextCloser | trunk/VSProjects/ServeRick/Languages/HAML/Compiling/HAMLInterval.cs:59-66 | each successful step brings `Current` closer to the bound, so enumeration ends |
| HamlInterval.YieldsUpTo | trunk/VSProjects/ServeRick/Languages/HAML/Compiling/HAMLInterval.cs:59-66 | from `Current` at or below the bound, the integers after `Current` up to the bound are yielded |
| HamlInterval.ResetYields | trunk/VSProjects/ServeRick/Languages/HAML/Compiling/HAMLInterval.cs:59-71 | after `Reset`, the enumeration yields `from + 1` to `to`: the lower bound itself is skipped |
| HamlInterval.FreshYieldsAsWritten | trunk/VSProjects/ServeRick/Languages/HAML/Compiling/HAMLInterval.cs:43-47 | a fresh enumerator yields 1 to `to`, whatever the lower bound |
| HamlInterval.FreshIgnoresLowerBound | trunk/VSProjects/ServeRick/Languages/HAML/Compiling/HAMLInterval.cs:43-47 | the interval 3..5 yields 1, 2, 3, 4, 5 |
| HamlInterval.StartingYieldsInterval | trunk/VSProjects/ServeRick/Languages/HAML/Compiling/HAMLInterval.cs:59-66 | started just below the lower bound, the enumeration yields exactly `from` to `to` |
| Buffers.NewProvider | trunk/VSProjects/ServeRick/Memory/BufferProvider.cs:45-55 | a length below 1 throws first, then a budget below 1; otherwise an empty, consistent provider |
| Buffers.RecycleBufferStorage | trunk/VSProjects/ServeRick/Memory/BufferProvider.cs:62-70 | the storage is pushed on the free stack and the memory usage is unchanged |
| Buffers.Allocate | trunk/VSProjects/ServeRick/Memory/BufferProvider.cs:95-104 | allocation succeeds exactly when the usage plus one buffer fits the budget, and then grows the usage by one buffer with fresh storage |
| Buffers.AllocateAsWritten | trunk/VSProjects/ServeRick/Memory/BufferProvider.cs:97-102 | the source's test and update use the wrapping `int` sum |
| Buffers.AllocateOverflowExample | trunk/VSProjects/ServeRick/Memory/BufferProvider.cs:97-102 | with 0x6000_0000-byte buffers the second allocation passes the wrapped test and the usage goes negative |
| Buffers.GetBuffer | trunk/VSProjects/ServeRick/Memory/BufferProvider.cs:76-89 | the corrected `GetBuffer`: the most recently recycled storage when there is one, otherwise a new allocation within the budget |
| Buffers.GetBufferAsWritten | trunk/VSProjects/ServeRick/Memory/BufferProvider.cs:76-89 | the source's `GetBuffer`: recycled storage as the corrected one, else the wrapping allocation; both agree whenever usage plus one buffer fits an `int` |
| Buffers.GetBufferOverflowAsWritten | trunk/VSProjects/ServeRick/Memory/BufferProvider.cs:76-104 | with the free stack empty, the source hands out a 0x6000_0000-byte buffer beyond the budget and the usage goes negative; the corrected one refuses |
| Buffers.RecycleThenGet | trunk/VSProjects/ServeRick/Memory/BufferProvider.cs:62-89 | recycling and then getting a buffer gives back that storage and the provider as it was |
| Buffers.GetStorage | trunk/VSProjects/ServeRick/Memory/DataBuffer.cs:29-38 | the storage, unless the buffer has been recycled |
| Buffers.RecycleAsWritten | trunk/VSProjects/ServeRick/Memory/DataBuffer.cs:65-73 | the source's recycle hands the storage back but leaves the buffer unchanged |
| Buffers.DoubleRecycleAsWritten | trunk/VSProjects/ServeRick/Memory/DataBuffer.cs:65-73 | recycling twice puts the storage on the free stack twice, and two later buffers share it |
| Buffers.Recycle | trunk/VSProjects/ServeRick/Memory/DataBuffer.cs:65-73 | the corrected recycle marks the buffer and hands its storage back |
| Buffers.RecycleOnce | trunk/VSProjects/ServeRick/Memory/DataBuffer.cs:65-73 | a second recycle throws and the storage can no longer be read |
| WorkItems.PlanProcessor | trunk/VSProjects/ServeRick/Processing/WorkItem.cs:49-56 | planning succeeds exactly when no processor is planned |
| WorkItems.PlanOnce | trunk/VSProjects/ServeRick/Processing/WorkItem.cs:49-56 | replanning throws |
| WorkItems.Complete | trunk/VSProjects/ServeRick/Processing/WorkItem.cs:58-67 | completion succeeds exactly once; the hook runs first, then the event when it has subscribers |
| WorkItems.CompleteOnce | trunk/VSProjects/ServeRick/Processing/WorkItem.cs:58-62 | completing twice throws |
| WorkItems.EnqueueToProcessor | trunk/VSProjects/ServeRick/Processing/WorkItem.cs:80-85 | the item is marked enqueued and handed to its planned processor; no processor throws |
| WorkChains.InsertItem | trunk/VSProjects/ServeRick/Processing/WorkChain.cs:63-74 | with no cursor the item is appended; otherwise it goes right after the cursor; either way it becomes the cursor, and the processed node keeps its item |
| WorkChains.AppendItem | trunk/VSProjects/ServeRick/Processing/WorkChain.cs:91-96 | the item goes at the end and neither node reference moves |
| WorkChains.InsertAllAfterCursor | trunk/VSProjects/ServeRick/Processing/WorkChain.cs:63-74 | items inserted one after another land as a block right after the cursor, in insertion order |
| WorkChains.InsertIntoNew | trunk/VSProjects/ServeRick/Processing/WorkChain.cs:63-74 | inserts into a new chain give the items in insertion order, the last as cursor |
| WorkChains.StartProcessing | trunk/VSProjects/ServeRick/Processing/WorkChain.cs:76-85 | fails once started or complete; otherwise the first item becomes the processed one |
| WorkChains.OnComplete | trunk/VSProjects/ServeRick/Processing/WorkChain.cs:102-121 | only the processed item may complete; processing moves to the next node, and the chain completes at the end or when aborted |
| WorkChains.ProcessesInOrder | trunk/VSProjects/ServeRick/Processing/WorkChain.cs:102-121 | a started chain that is not aborted processes its items in list order and completes after the last |
| WorkChains.Abort | trunk/VSProjects/ServeRick/Processing/WorkChain.cs:133-150 | a complete chain is unchanged; otherwise it is marked aborted and the items from the cursor on are aborted in order |
| WorkChains.AbortedCompletesNext | trunk/VSProjects/ServeRick/Processing/WorkChain.cs:102-150 | after an abort, the next completion completes the chain instead of enqueuing the next item |
| HamlOutliner.IndentationLengthWeighs | trunk/VSProjects/ServeRick/Languages/HAML/IndentOutliner.cs:174-191 | a space weighs 1 and a tab the tab length; a line of blanks keeps the current length |
| HamlOutliner.LevelDeltaMeaning | trunk/VSProjects/ServeRick/Languages/HAML/IndentOutliner.cs:133-172 | a deeper line pushes one level; an equal one changes nothing; a shallower one must match an open level or it throws; the stack stays strictly increasing |
| HamlOutliner.ShallowerKeeps | trunk/VSProjects/ServeRick/Languages/HAML/IndentOutliner.cs:149-171 | a shallower line keeps exactly the levels not deeper than it |
| HamlOutliner.Indentation | trunk/VSProjects/ServeRick/Languages/HAML/IndentOutliner.cs:193-207 | \|delta\| INDENT tokens for a positive delta, DEDENT tokens for a negative one |
| HamlOutliner.IndentationBalance | trunk/VSProjects/ServeRick/Languages/HAML/IndentOutliner.cs:193-207 | the indentation tokens count exactly the level change |
| HamlOutliner.OutlineLine | trunk/VSProjects/ServeRick/Languages/HAML/IndentOutliner.cs:98-114 | a line gives its level change, then BOL, the left-trimmed text and EOL |
| HamlOutliner.BlankLineEmitsNothing | trunk/VSProjects/ServeRick/Languages/HAML/IndentOutliner.cs:106-114 | a line of blanks emits nothing and keeps the stack |
| HamlOutliner.OutlineLineBalance | trunk/VSProjects/ServeRick/Languages/HAML/IndentOutliner.cs:101-114 | one line keeps the stack valid and emits as many net levels as the stack grows |
| HamlOutliner.OutlineLinesBalance | trunk/VSProjects/ServeRick/Languages/HAML/IndentOutliner.cs:96-117 | over many lines the INDENT − DEDENT count follows the stack size |
| HamlOutliner.OutlineDataBalance | trunk/VSProjects/ServeRick/Languages/HAML/IndentOutliner.cs:92-121 | from an empty stack, a text's INDENTs and DEDENTs balance |
| HamlOutliner.OutlineTextBalance | trunk/VSProjects/ServeRick/Languages/HAML/IndentOutliner.cs:92-121 | a text token closes every level it leaves open |
| HamlOutliner.OutlineTextCloses | trunk/VSProjects/ServeRick/Languages/HAML/IndentOutliner.cs:119-120 | the closing DEDENTs, one per open level, come last |
| HamlOutliner.TextEndOffset | trunk/VSProjects/ServeRick/Languages/HAML/IndentOutliner.cs:116-120 | the closing DEDENTs sit at the end of the text token |
| HamlOutliner.SpecialsPassThrough | trunk/VSProjects/ServeRick/Languages/HAML/IndentOutliner.cs:67-84 | special tokens come through unchanged |
| HamlOutliner.StaleLevelsAcrossTokens | trunk/VSProjects/ServeRick/Languages/HAML/IndentOutliner.cs:120 | the stack is not reset, so the DEDENTs of the output outnumber the INDENTs by the levels a text token left open |
| HamlOutliner.StaleLevelsExample | trunk/VSProjects/ServeRick/Languages/HAML/IndentOutliner.cs:120 | two indented text tokens around a special token give one INDENT and two DEDENTs |
| HamlOutliner.OutlineFromResetBalanced | trunk/VSProjects/ServeRick/Languages/HAML/IndentOutliner.cs:67-121 | with the stack reset after each text token, the INDENTs and DEDENTs of the whole output balance |
| HamlOutliner.ValidLevelsOrdered | trunk/VSProjects/ServeRick/Languages/HAML/IndentOutliner.cs:142-171 | a valid stack holds exactly positive, strictly increasing lengths |
| SharpOutliner.AddTokens | trunk/VSProjects/SharpServer/Languages/HAML/IndentOutliner.cs:221-228 | `count` special tokens at one position; none for a count below 1 |
| SharpOutliner.AddTokensBalance | trunk/VSProjects/SharpServer/Languages/HAML/IndentOutliner.cs:221-228 | INDENTs count one level up, DEDENTs one level down |
| SharpOutliner.AddIndentationMeaning | trunk/VSProjects/SharpServer/Languages/HAML/IndentOutliner.cs:192-219 | in the corrected outliner, the first line emits nothing, a deeper one one INDENT, any other DEDENTs to its recorded level, forgetting deeper levels; an unrecorded indentation throws |
| SharpOutliner.AddIndentationAsWrittenMeaning | trunk/VSProjects/SharpServer/Languages/HAML/IndentOutliner.cs:192-219 | the source's line throws, emits and moves the level as the corrected one, but keeps every recorded level; a dedent to a stale deeper level emits nothing yet raises the level |
| SharpOutliner.IndentLinesBalance | trunk/VSProjects/SharpServer/Languages/HAML/IndentOutliner.cs:192-219 | with closed levels forgotten, the INDENT − DEDENT count of any run of lines equals its change of level |
| SharpOutliner.StaleLevelAsWritten | trunk/VSProjects/SharpServer/Languages/HAML/IndentOutliner.cs:207-218 | lines indented 0, 4, 8, 12, 0, 12, 8: the source emits nothing for the last line but raises the level, so the tokens stop following the level |
| SharpOutliner.StaleLevelCorrected | trunk/VSProjects/SharpServer/Languages/HAML/IndentOutliner.cs:230-237 | with closed levels forgotten, the same lines throw: 8 matches no open level |
| SharpOutliner.Substring | trunk/VSProjects/SharpServer/Languages/HAML/IndentOutliner.cs:179-184 | `String.Substring` throws outside the text |
| SharpOutliner.LineTailMeaning | trunk/VSProjects/SharpServer/Languages/HAML/IndentOutliner.cs:170-190 | a line gives its optional prefix, its text and EOL; prefix and text are the data of the line, each at its own position |
| SharpOutliner.OutlineLineMeaning | trunk/VSProjects/SharpServer/Languages/HAML/IndentOutliner.cs:170-190 | in the corrected outliner, a line throws only for an unrecorded indentation; otherwise its INDENT − DEDENT count is the change of level and its text tokens hold the data at their positions |
| SharpOutliner.ScanMeaning | trunk/VSProjects/SharpServer/Languages/HAML/IndentOutliner.cs:117-160 | in the corrected outliner, the lines of a text throw only for an unrecorded indentation and otherwise follow the level |
| SharpOutliner.OutlineDataMeaning | trunk/VSProjects/SharpServer/Languages/HAML/IndentOutliner.cs:115-168 | in the corrected outliner, a text's tokens hold its data at their positions and their INDENT − DEDENT count is the change of level |
| SharpOutliner.OutlineTokenMeaning | trunk/VSProjects/SharpServer/Languages/HAML/IndentOutliner.cs:115-168 | in the corrected outliner, a text token throws only for an unrecorded indentation and ends with EOL at its end |
| SharpOutliner.EndPositionAsWritten | trunk/VSProjects/SharpServer/Languages/HAML/IndentOutliner.cs:163-167 | a one-letter token past position 0: the source's outliner, for the token and for the whole input, reads past the data and throws, where the corrected one succeeds |
| SharpOutliner.AsWrittenAtZero | trunk/VSProjects/SharpServer/Languages/HAML/IndentOutliner.cs:163-167 | for a token at position 0 the source's outliner ends the last line at the end of the data, as the corrected one does |
| SharpOutliner.OutlineFromMeaning | trunk/VSProjects/SharpServer/Languages/HAML/IndentOutliner.cs:83-97 | in the corrected outliner, the input throws only for an unrecorded indentation; otherwise the INDENT − DEDENT count follows the level |
| SharpOutliner.CloseBeforeLastMeaning | trunk/VSProjects/SharpServer/Languages/HAML/IndentOutliner.cs:99-105 | one DEDENT per open level is inserted before the last token, at its position |
| SharpOutliner.OutlineBalanced | trunk/VSProjects/SharpServer/Languages/HAML/IndentOutliner.cs:83-107 | in the corrected outliner, the INDENTs and DEDENTs of the output balance |
| SharpOutliner.SpecialPassesThrough | trunk/VSProjects/SharpServer/Languages/HAML/IndentOutliner.cs:88-92 | in either outliner, special tokens come through unchanged |

## Left out

- Network I/O, sockets, accept loops, downloading, threaded processors and queues: the
  parsers receive their bytes as arguments, and a processor is a number.
- Regular expressions are parameters. The query-string splitter (`fillGetVars`) is
  `HttpRequestParser.QueryReader`. The Content-Disposition regex of `MultiPart` is
  `Handlers.parseDisposition`. The Pattern and Special terminals of the parsing library
  are not modelled.
- The WebSocket handshake (SHA-1 and Base64 of the accept key), the client-side send
  and receive, and the UTF-8 encoder: `Send` takes the encoded bytes.
- `HttpRequest` cookies (`FillCookies`) and `AppendContentData`, which is not
  implemented in the source.
- `WorkItem.Run`, the `OnCompleted` event handlers of a chain, and the per-item `Abort`
  calls. `WorkChains.Abort` returns the items to abort instead of calling them.
- `GrammarBase`, `Terminal.cs` and `TerminalLabel.cs` are not part of this model.
  Terminals are key terminals and the empty terminal.
- `DataTable`'s `MemoryRecords`, `GetColumn` and `SetColumn` are not part of this model.
  A record is a map from column names to values.
- `CompilerBase`'s `Print`, `PrintError` and `PrintErrors`: text formatting of
  diagnostics.
- `SyntaxError`'s `Location` is an index into the text.
- `ToString` of labels and edges.
- `Tokens.Length`: a member of the token datatype, used by the contracts.
- `Environment.NewLine` is the parameter `nl` of `Scss.BlockToCss`. The grammar
  rendering uses "\r\n".
- Text.UpperChar: folds the Latin-1 range under the invariant culture. It leaves µ
  (U+00B5) and every character above U+00FF unchanged, and does not model a current
  culture other than the invariant one. `Text.Upper` and `Text.SameIgnoringCase` share
  this limit.
- HttpRequest.HeaderKey: `OrdinalIgnoreCase` is equality after `Text.Upper`, with that
  limit. HttpRequest.NewRequest, HttpRequest.TryGetHeader,
  HttpRequest.HeaderLookupIgnoresCase and HttpRequest.SetHeaderKeepsOthers inherit it.
  Request text reaches them through `(char)byte`, so µ is the only reachable character
  left out.
- Tokens.TextToken: positions are unbounded, so it does not refuse an end past
  `int.MaxValue` as `Token.Text` (Token.cs lines 46-58) does. The outliners build tokens
  from .NET strings, whose ends cannot pass that bound. `Tokens.Text` keeps the refusal.
- LightData.InsertRows: an exception returns no table, while the source keeps the rows
  already added to the table it mutates in place. The contract speaks only of the
  outcome without an exception.
- LightData.UpdateRows: an exception returns no table, while the source keeps the
  columns already set on the records it mutates in place. The contract speaks only of
  the outcome without an exception.
- SharpOutliner.AddIndentationMeaning: stated for the corrected outliner.
  `SharpOutliner.AddIndentationAsWrittenMeaning` states the source's line.
- SharpOutliner.OutlineLineMeaning: stated for the corrected outliner only. The source's
  outliner fails it once a stale level is reached (`SharpOutliner.StaleLevelAsWritten`).
- SharpOutliner.ScanMeaning: stated for the corrected outliner only, for the same reason.
- SharpOutliner.OutlineDataMeaning: stated for the corrected outliner only, for the same
  reason.
- SharpOutliner.OutlineTokenMeaning: stated for the corrected outliner only. The
  source's outliner also throws `ArgumentOutOfRange` for a token past position 0
  (`SharpOutliner.EndPositionAsWritten`).
- SharpOutliner.OutlineFromMeaning: stated for the corrected outliner only, for both
  reasons above.
- SharpOutliner.OutlineBalanced: stated for the corrected outliner only, for both
  reasons above.
- Parser.Parse: runs on a `fuel` bound and returns `OutOfFuel` when the bound is
  reached, because the source's loop has no termination measure.
- Parser.ProcessAgenda: bounded by the number of constituents it dequeues, for the same
  reason.
- Parser.Scan: appends all interpretations to the agenda at once, where the source
  appends them inside its loop. Nothing reads the agenda in between.
- Parser.TransitionsClosed: does not state that the transitions are distinct.
- ParseTree.Build: the transient and punctuation tests are parameters. They come from
  the unseen grammar.
- LightData.ExecuteRows: the total count is the size of the table, as in the source.
- LightData.GetUid: its freshness is stated only when the largest key is below
  `int.MaxValue`, where the `int` addition does not wrap.
- LightData.InsertRowsMeaning: assumes room below `int.MaxValue` for every new id. An
  insert into an empty table throws, as `Max()` of nothing does.
- LightData.ExecuteRow: the single-condition case (`findItem`, lines 144-154) is a key
  lookup that requires an id equality, as in the source.
- AstPaths.GetTerminalTexts: ignores the last name of the path, as the source does.
- CompilerHelpers.IsEqual: `Equals` is a parameter. Its .NET contract is only assumed
  where `CompilerHelpers.IsEqualIsEquality` takes value equality.
- WorkItems.EnqueueToProcessor: the source's debug assertion against a second enqueue
  is a precondition.
- HttpRequest.SetHeader: the source's debug assertion that the head is open is a
  precondition. The same holds for HttpRequest.CompleteHead.
- PartStream.OverLimitStaysRefused: stated only while the `ulong` total does not wrap.
- WorkItems.PlanOnce: Dafny proves it unaided from the contract of `PlanProcessor`.
  WorkItems.CompleteOnce and WorkChains.AbortedCompletesNext are likewise proved
  unaided.

## Findings

| source | as written | input that shows it | evidently intended | confidence | as-written member | corrected member |
|---|---|---|---|---|---|---|
| trunk/VSProjects/ServeRick/Modules/Input/Boundary.cs:85-89 | a mismatching byte drops the cursor to 0 and is not compared again | delimiter CR LF "--" (empty boundary text), bytes CR CR LF "-" "-" | fall back to the longest matched tail that still begins the delimiter, so every occurrence is found | not executed | Boundary.MissedDelimiter | Boundary.AcceptNextFindsFirst |
| trunk/VSProjects/ServeRick/Networking/WebSocket.cs:218-223 | the 16-bit extended length is read with `BitConverter.ToInt16`, a signed number | a masked client text frame with 32768 to 65535 payload bytes | read the length as an unsigned 16-bit number (section 5.2 of RFC 6455) | not executed | WebSocket.DecodeAsWrittenSignedLength | WebSocket.DecodeClientFrame |
| trunk/VSProjects/ServeRick/Networking/WebSocket.cs:225-230 | the 64-bit test `payloadLength - 128 == 127` can never hold, so all lengths stay 0 | a masked client text frame with more than 65535 payload bytes decodes as "" | take the 64-bit branch for length code 127 | not executed | WebSocket.LongFrameAsWritten | WebSocket.DecodeClientFrame |
| trunk/VSProjects/ServeRick/Networking/WebSocket.cs:122-123 | the two-byte length form is used only below `UInt16.MaxValue` | a 65535-byte message gets the eight-byte length form | use two bytes up to 65535, the minimal form of section 5.2 of RFC 6455 | not executed | WebSocket.SendHeaderAsWrittenNotMinimal | WebSocket.SendHeaderAnnounces |
| trunk/VSProjects/ServeRick/Languages/HAML/IndentOutliner.cs:120 | the level stack survives the closing DEDENTs of a text token | two text tokens indented by two spaces with a special token between them give one INDENT and two DEDENTs | reset the stack after closing a text token | not executed | HamlOutliner.StaleLevelsExample | HamlOutliner.OutlineFromResetBalanced |
| trunk/VSProjects/SharpServer/Languages/HAML/IndentOutliner.cs:207-218 | the recorded levels of closed blocks are not forgotten | lines indented 0, 4, 8, 12, 0, 12, 8 | forget the levels deeper than the one a dedent reaches | not executed | SharpOutliner.StaleLevelAsWritten | SharpOutliner.StaleLevelCorrected |
| trunk/VSProjects/SharpServer/Languages/HAML/IndentOutliner.cs:163-167 | the last line ends at the token's absolute end position, used as an index into its data | a one-letter text token at position 1 makes `Substring` throw | end the last line at the end of the data | not executed | SharpOutliner.EndPositionAsWritten | SharpOutliner.OutlineTokenMeaning |
| trunk/VSProjects/Parsing/Parser.cs:127-137 | `processAgenda` enumerates the live hash set of extensible edges while extending edges into it | the grammar `R -> X X` with `X` the empty terminal, any text | enumerate a snapshot of the extensible edges | not executed | Parser.ParseCollectionModified | Parser.ProcessConstituentJoins |
| trunk/VSProjects/ServeRick/Languages/HAML/Compiling/HAMLInterval.cs:43-47 | a fresh enumerator starts with `Current` 0 and ignores the lower bound | the interval 3..5 yields 1, 2, 3, 4, 5 | start `Current` just below the lower bound | not executed | HamlInterval.FreshIgnoresLowerBound | HamlInterval.StartingYieldsInterval |
| trunk/VSProjects/ServeRick/Memory/BufferProvider.cs:97-102 | the budget test adds two `int`s, which can wrap | buffers of 0x6000_0000 bytes and a budget of `int.MaxValue`: the second allocation passes and the usage goes negative | compare without overflow and refuse the allocation | not executed | Buffers.AllocateOverflowExample | Buffers.Allocate |
| trunk/VSProjects/ServeRick/Memory/DataBuffer.cs:65-73 | `Recycle` tests the recycled flag but never sets it | recycling one buffer twice, after which two `GetBuffer`s hand out the same storage | set the flag on the first recycle | not executed | Buffers.DoubleRecycleAsWritten | Buffers.RecycleOnce |
