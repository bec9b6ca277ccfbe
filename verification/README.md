# Verified models of njs components

A Dafny model of seven parts of njs, the JavaScript engine used by nginx, with proofs of what
each part promises. Loops and in-place updates of the C code are methods with invariants over
arrays and class fields; each is proved equal to a specification function, and the laws are
lemmas about those functions.

| component | modules |
|---|---|
| Form parser: multipart/form-data and urlencoded bodies | `FormParams`, `FormHeaders`, `FormDisposition`, `FormHeaderGrammar`, `FormMultipart`, `FormGrammar`, `FormPrinter`, `FormRoundTrip`, `FormUrlencoded`, `FormUrlencodedGrammar`, `FormParser`, `FormContentType`, `FormErrors` |
| AES-CTR with a counter of 1 to 128 bits | `Counter128`, `AesCtr` |
| Shell: agent broadcast, timers, event loop, reading a file | `Broadcast`, `BroadcastRuns`, `Timers`, `TimerLoop`, `ReadLoop` |
| Query string: parse, stringify, escape, unescape | `Utf8`, `Utf8Laws`, `QueryEscape`, `QueryUnescape`, `QueryParser`, `QueryGrammar`, `QueryStringify` |
| File system: tree walk, removal, recursive mkdir | `FileSystem`, `TreeWalk`, `TreeWalkLoop`, `TreeVisits`, `TreeRemoval`, `TreeConditions`, `PathNames`, `MakePath`, `MakePathOutcome` |
| XML: subset visibility, text escaping | `XmlVisibility`, `XmlEscape` |
| Regular expressions: rewriting of patterns for PCRE2 | `RegexEscape`, `RegexMeaning` |
| Shared | `Bytes`, `Hex`, `Text` |

`dafny verify dfyconfig.toml` checks everything.

## How the proofs are arranged

* **Form parser.** The parser methods are proved equal to a reading of the body as text
  (`MultipartOf`, `UrlencodedOf`, `FormOf`). Against it stands a grammar of content types,
  multipart bodies, header blocks, dispositions and urlencoded bodies, written without the
  parser's functions; `FormContentType.FormReadIff` says that the parser returns exactly the
  entries the grammar derives. `FormErrors` says with which error each stage stops otherwise.
  The round trip, printing followed by parsing, follows from the grammar. The delimiter scan, which looks for CRLF `--`, compares the boundary and
  resumes four bytes later, is proved to find the first occurrence of the whole delimiter.
* **AES-CTR.** The cipher is any function from 128-bit counters to blocks. The one- or two-run
  result equals the standard incrementing function on the low bits (appendix B.1 of NIST
  SP 800-38A). The byte masks are those of the code, on bit vectors.
* **Broadcast.** Main thread and agents take atomic steps in any order under the mutex; the
  condition variable may wake an agent or the main thread at any time. Safety is proved over
  every finite run, and a waiting broadcast can return exactly when no agent has finished with
  its flag up.
* **Timers.** Any sequence of set, clear and run steps keeps the tree, the queue and the log
  consistent; a turn of the loop runs the function that was passed when its timer was set,
  however much happened in between; the loop ends and leaves both structures empty.
* **File system.** Directory listing, resolution of path strings and the outcome of each system
  call are parameters. The loops over the shared path buffer refine a recursive definition, and
  post-order, the exact set of visited entries, containment and complete removal are proved
  about that definition, in terms of devices, inode numbers, depth and path lengths. `PathNames` exhibits surroundings that meet all the assumptions.
* **Regular expressions.** A pattern is read as tokens, with the rules of JavaScript and with
  those of PCRE2.

## Where the code differs from what one would expect

* Multipart: the check that rejects a body whose close delimiter comes before its first marker
  (nginx/ngx_js_form.c:314-327) never rejects anything, because the close delimiter starts with
  the marker. `FormMultipart.CloseDelimiterIsNeverFirst` proves it; the model follows the code.
* AES-CTR: the block count of an empty message wraps to 2^60 (`AesCtr.CeilDivBlocks`). So an
  empty message is refused for every counter shorter than 60 bits
  (`AesCtr.RefusedIffTooManyBlocks`), and with a longer counter that has fewer than 2^60 blocks
  left the message is split behind its end: the library is handed more bytes than there are.
  `AesCtr.SplitFitsIff` proves that this happens in no other case,
  `AesCtr.EmptyMessageOverruns` gives an input; the model calls the outcome `Overrun`.
* Regular expressions: inside a character class the scan ignores backslashes, so it leaves the
  class at an escaped `]`. The pattern `[\][]` is rewritten to `[\](?!)`, which means something
  else (`RegexMeaning.EscapedBracketIsMisread`). `RegexMeaning.MeaningKeptIff` gives the exact
  condition: the meaning is kept if and only if no class has, after an escaped `]`, an unescaped
  `[` or `[^` standing directly before its closing bracket at a place the scan takes for the
  outside.
* Query string: if empty arrays come first and the first value written is a single string, the
  output starts with a separator and has one piece more than pairs. It reads back if and only if
  the limit on keys covers every piece (`QueryStringify.PairsReadBack`); `{a: [], b: "x"}` with
  a limit of one key does not (`QueryStringify.LeadingSeparatorTakesAKey`).
* Query string: a `+` leaves a half-read character waiting for its other bytes, so that
  `%C3+%A9` is a space followed by U+00E9 (`QueryUnescape.PlusInsideCharacter`). It separates
  what follows if and only if no character is half read (`QueryUnescape.PlusSeparatesIff`).
* Broadcast: an agent that has finished stays in the queue. A broadcast that raises its flag
  waits for ever; `BroadcastRuns.CanReturnIff` proves that nothing else blocks one, and
  `BroadcastRuns.FinishedAgentBlocks` gives a run.
* Recursive mkdir: for the empty path the search for a slash starts behind the terminator. It
  leaves the buffer if and only if neither a slash nor a NUL is found there
  (`MakePath.OverreadIff`, with an input in `MakePath.EmptyPathOverreads`); otherwise the call
  fails as mkdir of the empty path does. The model calls the outcome `Overread`.
* Canonicalization: excluding a node hides comments whatever the `comments` argument says
  (`XmlVisibility.CanonicalizedNode`).

## Model

| member | source | states |
|---|---|---|
| `Text.FindIsFirst` | nginx/ngx_js_form.c:842-860 | the position found is an occurrence and none lies before it; nothing found means no occurrence anywhere |
| `Text.Search` | nginx/ngx_js_form.c:842-860 | the byte-by-byte search returns the first occurrence, or none |
| `FormParams.SkipOwsLoop` | nginx/ngx_js_form.c:824-832 | stops at the first byte that is no blank or tab |
| `FormParams.CopyQuoted` | nginx/ngx_js_form.c:781-813 | the copy is the text with escapes removed, and fits the buffer of the input's length |
| `FormParams.ParseQuoted` | nginx/ngx_js_form.c:632-655 | a quoted value ends at the first unescaped quote; without one it is an error |
| `FormParams.ParseValue` | nginx/ngx_js_form.c:627-671 | reads a quoted or plain value and refuses an empty plain one |
| `FormParams.ParseParam` | nginx/ngx_js_form.c:598-676 | reads `key=value` as the parameter grammar `ParamAt` does, errors included, and always advances |
| `FormParams.UnquoteQuote` | nginx/ngx_js_form.c:781-813 | removing escapes undoes quoting, for every text |
| `FormParams.ClosingQuoteAfterQuote` | nginx/ngx_js_form.c:632-655 | the closing quote of a quoted text is found just behind it, whatever the text holds |
| `FormParams.ParamAtPrinted` | nginx/ngx_js_form.c:598-676 | a printed parameter reads back with its key and value, in any surroundings |
| `FormHeaders.ParseDisposition` | nginx/ngx_js_form.c:513-595 | refuses everything but `form-data` and yields the name and file name, or the error of the first bad parameter |
| `FormHeaders.ParseDispositionParams` | nginx/ngx_js_form.c:539-595 | the parameter loop: a second name or file name, a missing name and malformed parameters are errors |
| `FormHeaders.ParseHeaderField` | nginx/ngx_js_form.c:453-497 | one header line: a duplicate disposition and a line without colon are errors, other headers are passed over |
| `FormHeaders.ParsePartHeaders` | nginx/ngx_js_form.c:415-510 | all header lines within the limits on number and length, with exactly one disposition |
| `FormPrinter.DispositionReadsBack` | nginx/ngx_js_form.c:513-595 | a printed disposition gives back its name and file name, for all of them |
| `FormPrinter.HeaderTextReadsBack` | nginx/ngx_js_form.c:415-510 | printed part headers, with other headers beside the disposition, read back |
| `FormPrinter.HeadersEndAtBlankLine` | nginx/ngx_js_form.c:343-352 | the first blank line of a printed part is the one that ends its headers |
| `FormMultipart.NoDelimiterAtFalseStart` | nginx/ngx_js_form.c:363-378 | resuming four bytes after a CRLF `--` that the boundary does not follow skips no delimiter, for every boundary |
| `FormMultipart.ScanDelimiter` | nginx/ngx_js_form.c:363-378 | the two-stage scan finds exactly the first CRLF `--` boundary |
| `FormMultipart.CloseDelimiterIsNeverFirst` | nginx/ngx_js_form.c:314-327 | the close delimiter never precedes the first marker, so this check rejects nothing |
| `FormMultipart.ParsePart` | nginx/ngx_js_form.c:343-380 | a part is its headers up to the blank line and everything before the first delimiter after it |
| `FormMultipart.Form.AddEntry` | nginx/ngx_js_form.c:679-708 | appends one entry, or refuses it beyond the maximum and leaves the entries alone |
| `FormMultipart.Form.AddPart` | nginx/ngx_js_form.c:382-397 | appends the part's own name with its value and no file name; a file instead keeps its two names, loses its value and raises the flag |
| `FormMultipart.Form.ParseParts` | nginx/ngx_js_form.c:342-411 | the part loop ends and appends the entries of the body in order; the flag holds iff some entry is a file |
| `FormMultipart.Form.ParseMultipart` | nginx/ngx_js_form.c:285-412 | the whole body: the entries, the flag and the first error |
| `FormRoundTrip.DelimiterFollowsValue` | nginx/ngx_js_form.c:363-378 | behind a value free of the delimiter the delimiter is found at its end: with a boundary free of CR none straddles the seam |
| `FormRoundTrip.FieldIsPiece` | nginx/ngx_js_form.c:343-380 | a printed field is a part of the grammar that says the field's disposition and has exactly its value |
| `FormRoundTrip.MultipartRoundTrip` | nginx/ngx_js_form.c:285-412 | printing any list of fields, with preamble and epilogue, and parsing returns entry by entry its names, values and file names in order, or the limit error exactly when there are more than the maximum |
| `FormRoundTrip.ValuesAreDelimiterFree` | nginx/ngx_js_form.c:360-391 | no value of any accepted body holds the delimiter |
| `FormRoundTrip.PrintedFilesAreFlagged` | nginx/ngx_js_form.c:382-391 | the file flag of the printed entries holds iff some field is a file |
| `FormGrammar.GrammaticalIsRead` | nginx/ngx_js_form.c:285-412 | every body written down as preamble, well-formed parts, close delimiter and epilogue is read as those parts, for every boundary |
| `FormGrammar.PieceReads` | nginx/ngx_js_form.c:343-380 | a part of the grammar is read with its disposition and exactly its value, whatever follows |
| `FormGrammar.PiecesRead` | nginx/ngx_js_form.c:342-411 | a list of parts is read in order, or the limit error is given |
| `FormGrammar.PartIsPiece` | nginx/ngx_js_form.c:343-380 | a part that was read is headers, blank line, value and delimiter, with nothing lost in between |
| `FormGrammar.AcceptedIsGrammatical` | nginx/ngx_js_form.c:285-412 | every accepted body can be written down that way, with the parts it was read as |
| `FormGrammar.MultipartAcceptedIff` | nginx/ngx_js_form.c:285-412 | the parser returns these entries iff the grammar derives the body and the entries say, field by field, what its parts say, within the limit on keys |
| `FormHeaderGrammar.LaterHeadersReadIff` | nginx/ngx_js_form.c:436-502 | once a disposition was seen, the rest is accepted iff its lines are within the limits, have colons and are no dispositions |
| `FormHeaderGrammar.HeadersReadIff` | nginx/ngx_js_form.c:415-510 | a header block is accepted iff its lines are within the limits, each has a colon and exactly one is a disposition, whose value is a disposition of the grammar and gives the result |
| `FormHeaderGrammar.HeaderIff` | nginx/ngx_js_form.c:453-483 | a line is read as a disposition with this value iff its name, up to case, stands before the first colon and the value is the rest without the blanks around it |
| `FormHeaderGrammar.HeaderBlockIff` | nginx/ngx_js_form.c:415-510 | a header block is accepted iff it is one of the grammar: at most 16384 bytes, lines within the limits with colons, exactly one of them a disposition that says the result |
| `FormHeaders.LowerIff` | nginx/ngx_js_form.c:482-486 | characters are the same up to case iff they are equal or the two forms of one letter |
| `FormDisposition.QuotedIff` | nginx/ngx_js_form.c:781-813 | a quoted body is read as a value iff each escaped or plain byte of it stands for the next byte of the value |
| `FormDisposition.TrimmedIs` | nginx/ngx_js_form.c:471-479 | trimming leaves what stands between the blanks |
| `FormDisposition.ClosingQuoteIs` | nginx/ngx_js_form.c:632-655 | the quote scan stops at a position iff a quote stands there and a quoted body before it |
| `FormDisposition.ReadIsParameter` | nginx/ngx_js_form.c:598-676 | what is read as a parameter is blanks, key, blanks, equals sign, blanks, value and blanks |
| `FormDisposition.ParameterIsRead` | nginx/ngx_js_form.c:598-676 | every such text is read as its key and the value it stands for |
| `FormDisposition.DispositionReadIff` | nginx/ngx_js_form.c:513-595 | a value is accepted as a name and file name iff it is `form-data` followed by parameters, exactly one of them the name and at most one the file name |
| `FormUrlencoded.Decode` | nginx/ngx_js_form.c:711-756 | decodes exactly the well-formed texts, never writing more than the input's length |
| `FormUrlencoded.ParseSegment` | nginx/ngx_js_form.c:248-266 | cuts a segment at its first `=` and decodes both sides |
| `FormUrlencoded.ParseUrlencoded` | nginx/ngx_js_form.c:219-282 | the in-place loop yields the entries of the split body, or the first error |
| `FormUrlencoded.AcceptedIff` | nginx/ngx_js_form.c:219-282 | accepted iff every non-empty segment has well-formed escapes and their number is within the limit; the entries are then the decoded segments |
| `FormUrlencoded.DecodedIff` | nginx/ngx_js_form.c:711-756 | a text decodes to a string iff it is written for it: bytes as they are, plus for space, escapes with digits of either case |
| `FormUrlencodedGrammar.SegmentsAreSegmented` | nginx/ngx_js_form.c:236-246 | the segments are the non-empty stretches between ampersands |
| `FormUrlencodedGrammar.PairTextIff` | nginx/ngx_js_form.c:248-266 | a segment is a name and a value written around its first equals sign, or all name |
| `FormUrlencodedGrammar.UrlencodedAcceptedIff` | nginx/ngx_js_form.c:219-282 | the parser returns these entries iff the body is segmented into texts written for their names and values, no more than the maximum |
| `FormUrlencodedGrammar.RefusedIff` | nginx/ngx_js_form.c:219-282 | a body is refused at the first segment that is malformed or one too many, with the error that says which |
| `Hex.HexValueIff` | external/njs_query_string_module.c:134-153 | a digit of either case has its value and nothing else has one |
| `Hex.EscapeIff` | external/njs_query_string_module.c:164-166 | an escape is read as a byte iff its two digits spell it |
| `Hex.HexDigitIs` | external/qjs_query_string_module.c:544-553 | digits are written in upper case |
| `FormUrlencoded.UrlencodedHasNoFiles` | nginx/ngx_js_form.c:268-269 | an accepted urlencoded body holds no file |
| `FormUrlencoded.DecodeEncoded` | nginx/ngx_js_form.c:711-756 | decoding undoes percent-encoding on every byte string |
| `FormUrlencoded.UrlencodedRoundTrip` | nginx/ngx_js_form.c:219-282 | printing any list of pairs and parsing returns it, or the limit error exactly when there are too many |
| `FormParser.ParseBoundary` | nginx/ngx_js_form.c:172-208 | the parameter loop of the content type: one boundary within its length limit, other parameters passed over |
| `FormParser.ParseContentType` | nginx/ngx_js_form.c:115-216 | the media type decides the format, without regard to case; multipart needs a boundary |
| `FormParser.ParseForm` | nginx/ngx_js_form.c:65-112 | from header and body to the entries, the file flag or the first error |
| `FormParser.ContentTypeReadsBack` | nginx/ngx_js_form.c:115-216 | every boundary of 1 to 200 bytes reads back from its printed content type |
| `FormParser.PrintedFormReadsBack` | nginx/ngx_js_form.c:65-112 | header and body printed for any fields parse to entries with their names, values and file names |
| `FormContentType.ContentTypeReadIff` | nginx/ngx_js_form.c:115-216 | a header is read as urlencoded or as multipart with a boundary iff it is that media type, up to case and blanks, followed by parameters with at most one boundary of 1 to 200 bytes |
| `FormContentType.FormReadIff` | nginx/ngx_js_form.c:65-112 | a request gives these entries iff its content type and its body say so in the grammar |
| `FormErrors.NoKey` | nginx/ngx_js_form.c:604-614 | blanks and no key: malformed parameter |
| `FormErrors.NoEquals` | nginx/ngx_js_form.c:616-625 | a key and no equals sign: malformed parameter |
| `FormErrors.NoValue` | nginx/ngx_js_form.c:627-666 | no value, or a quote that is never closed, with their errors |
| `FormErrors.WrongType` | nginx/ngx_js_form.c:525-537 | another disposition type is refused |
| `FormErrors.DispositionStops` | nginx/ngx_js_form.c:539-595 | the error at the end, at a stray byte, at a malformed parameter and at a second name or file name |
| `FormErrors.HeadersStop` | nginx/ngx_js_form.c:436-507 | the error at a line that is too long, one too many, without colon, a second disposition, or none |
| `FormErrors.NoBlankLine` | nginx/ngx_js_form.c:343-347 | headers without an end |
| `FormErrors.PartStops` | nginx/ngx_js_form.c:349-376 | headers that are too large or refused, and a value without an end |
| `FormErrors.PartsStop` | nginx/ngx_js_form.c:393-411 | a refused part, no room for it, and a delimiter followed by neither dashes nor a line end |
| `FormErrors.NoMarker` | nginx/ngx_js_form.c:322-327 | no marker: malformed body |
| `FormErrors.MarkerStops` | nginx/ngx_js_form.c:329-338 | a marker followed by neither dashes nor a line end |
| `FormErrors.NoContentType` | nginx/ngx_js_form.c:124-127 | a request without a content type is refused |
| `FormErrors.OtherMediaType` | nginx/ngx_js_form.c:148-170 | another media type is refused |
| `FormErrors.BoundaryStops` | nginx/ngx_js_form.c:172-201 | the error at a stray byte, a malformed parameter, a second boundary and one of the wrong length |
| `FormErrors.ContentTypeStops` | nginx/ngx_js_form.c:203-213 | errors of the parameters are those of the content type; multipart needs a boundary |
| `Counter128.MaskIsRemainder` | external/njs_webcrypto_module.c:1163-1205 | the code's two byte masks, as bit vectors, are the remainder by 2^r and what is left of the byte |
| `Counter128.SplitAtByte` | external/njs_webcrypto_module.c:1187-1205 | the last bytes are the number modulo a power of 256, and zeroing them subtracts it |
| `Counter128.SplitInByte` | external/njs_webcrypto_module.c:1163-1205 | the same when the cut falls inside a byte |
| `Counter128.ReadCounter` | external/njs_webcrypto_module.c:1163-1184 | reads the counter block modulo 2^bits through the masked copy, for every width from 1 to 128 |
| `Counter128.ResetCounter` | external/njs_webcrypto_module.c:1187-1205 | the reset block, made by clearing bytes and masking one, is the counter block with its low bits cleared |
| `AesCtr.CeilDivBlocks` | external/njs_webcrypto_module.c:1156-1160 | the block count is exact for non-empty data and 2^60 for empty data |
| `AesCtr.OneRun` | external/njs_webcrypto_module.c:1342-1358 | without a wrap one run of the 128-bit mode is the n-bit mode |
| `AesCtr.TwoRuns` | external/njs_webcrypto_module.c:1360-1383 | with a wrap the first piece is positive, whole and shorter than the data, and the two runs together are the n-bit mode |
| `AesCtr.RefusedIffTooManyBlocks` | external/njs_webcrypto_module.c:1308-1320 | a call is refused iff the blocks outnumber the counters |
| `AesCtr.SplitFitsIff` | external/njs_webcrypto_module.c:1342-1369 | the first run stays inside the message iff the message is not empty or 2^60 blocks are left |
| `AesCtr.EmptyMessageOverruns` | external/njs_webcrypto_module.c:1366-1369 | an empty message at the last value of a 64-bit counter is taken for at least sixteen bytes |
| `AesCtr.CipherAesCtr` | external/njs_webcrypto_module.c:1208-1406 | the call returns counter mode with the low `length` bits wrapping, or the error of the first check that fails, for every data, counter and length |
| `AesCtr.AcceptedIff` | external/njs_webcrypto_module.c:1208-1320 | a call is accepted iff the key has 16, 24 or 32 bytes, the counter 16, the length is 1 to 128 and the blocks do not outnumber the counters, and its result is then the n-bit mode |
| `AesCtr.RefusedAs` | external/njs_webcrypto_module.c:1208-1320 | the first check that fails decides the error |
| `AesCtr.Involution` | external/njs_webcrypto_module.c:1208-1406 | the mode applied twice returns the data |
| `AesCtr.SecondCallUndoesFirst` | external/njs_webcrypto_module.c:1208-1406 | any accepted call is undone by a second call with the same parameters, which is accepted too |
| `AesCtr.CounterBlocksAreDistinct` | external/njs_webcrypto_module.c:1308-1320 | an accepted call never uses a counter block twice |
| `Broadcast.InvStep` | external/njs_shell.c:2062-2104 | every step of the main thread or an agent keeps the invariant of lock, flags and counts |
| `Broadcast.InvOfRun` | external/njs_shell.c:2201-2283 | the invariant holds in every state of every run |
| `Broadcast.MutualExclusion` | external/njs_shell.c:2062-2104 | at most one thread is between lock and unlock |
| `Broadcast.AcksPlusPending` | external/njs_shell.c:2062-2104 | acknowledgements plus the pending flag equal the broadcasts raised for the agent since it started |
| `Broadcast.FlagIsDownWhenRaised` | external/njs_shell.c:2226-2283 | no flag is raised while it is still up |
| `Broadcast.AgentsPersist` | external/njs_shell.c:2115-2155 | agents stay in the queue and their counts never fall |
| `Broadcast.BarrierExactlyOnce` | external/njs_shell.c:2226-2283 | when a broadcast returns, each agent queued when it began has acknowledged it exactly once |
| `Broadcast.NobodyJoinsDuringBroadcast` | external/njs_shell.c:2226-2283 | no agent enters the queue while a broadcast is under way |
| `BroadcastRuns.CanReturnIff` | external/njs_shell.c:2226-2283 | a waiting broadcast can return iff no agent has finished with its flag up, in every reachable state |
| `BroadcastRuns.WaitingReturns` | external/njs_shell.c:2062-2104 | otherwise some steps of the agents and the main thread lead to its return |
| `BroadcastRuns.LostForEver` | external/njs_shell.c:2062-2112 | a flag that is up when its agent has finished stays up |
| `BroadcastRuns.BroadcastReturns` | external/njs_shell.c:2226-2283 | with any number of agents there is a run in which a broadcast returns |
| `BroadcastRuns.FinishedAgentBlocks` | external/njs_shell.c:2226-2283 | an agent that ends without waiting for a broadcast blocks one for ever |
| `Timers.PostKeepsInv` | external/njs_shell.c:3835-3896 | setting a timer keeps tree, queue and log consistent |
| `Timers.DropKeepsInv` | external/njs_shell.c:3915-3947 | so does clearing one |
| `Timers.TakeKeepsInv` | external/njs_shell.c:1647-1657 | so does taking the first posted event |
| `Timers.ActKeepsInv` | external/njs_shell.c:3835-3947 | so does any call a script can make, failing ones included, as long as no more than 2^32 ids were issued |
| `Timers.InvOfRun` | external/njs_shell.c:1632-1675 | so does every sequence of calls and runs, of any length, that issues at most 2^32 ids |
| `Timers.TimersAreConsistent` | external/njs_shell.c:1632-1675 | after any such sequence from the start: each issued id is in exactly one of pending, executed and cleared, tree ids are queue ids, and ids execute in increasing order |
| `Timers.SetAcceptedIff` | external/njs_shell.c:3835-3867 | a timer is set iff the first argument is a function and the delay is absent, not a number, zero or not asked for; the errors otherwise |
| `Timers.SetStores` | external/njs_shell.c:3869-3893 | the tree then holds the function passed and the arguments behind it under the new id, last in the queue, and nothing else changes |
| `Timers.ClearRemoves` | external/njs_shell.c:3915-3947 | clearing a pending id removes it from both structures and nothing else does |
| `Timers.EventStays` | external/njs_shell.c:3835-3947 | while an id stays in the tree its event is the one set for it, and once it has left it does not come back |
| `Timers.FateIsFinal` | external/njs_shell.c:1632-1675 | an executed or cleared id stays so |
| `TimerLoop.ActAllWork` | external/njs_shell.c:1659-1667 | the calls of a callback add no more work than the timers they set |
| `TimerLoop.TakeWork` | external/njs_shell.c:1647-1657 | taking an event uses up its callback's share of the work |
| `TimerLoop.TurnWorks` | external/njs_shell.c:1647-1668 | a turn of the loop leaves less work, keeps the invariant and logs the first pending id |
| `TimerLoop.ActAllIsRun` | external/njs_shell.c:1659-1660 | the calls of a callback are steps like any others, in order |
| `TimerLoop.TurnRunsWhatWasSet` | external/njs_shell.c:1647-1667 | a turn makes the calls of the function passed when its timer was set, after any run in between, and fails when that function does |
| `TimerLoop.DrainIsTurns` | external/njs_shell.c:1647-1668 | the loop is a series of turns that stops at the first failure outside interactive mode or when nothing is pending |
| `TimerLoop.Drain` | external/njs_shell.c:1632-1675 | the loop ends with tree and queue empty unless a callback fails outside interactive mode, and only extends the log, whenever the run issues at most 2^32 ids |
| `TimerLoop.DrainedMeansSettled` | external/njs_shell.c:1632-1675 | with an empty queue every issued timer was either executed or cleared |
| `TimerLoop.Console.Set` | external/njs_shell.c:3835-3896 | the new state and the id or error, for every argument list; the function passed is stored under the id returned |
| `TimerLoop.Console.Clear` | external/njs_shell.c:3915-3947 | removes the event from tree and queue; ignores non-numbers, fails on unknown ids |
| `TimerLoop.Console.Invoke` | external/njs_shell.c:1659-1667 | a callback's own set and clear calls happen in order |
| `TimerLoop.Console.ProcessEvents` | external/njs_shell.c:1632-1675 | the in-place loop reaches the state of `Drain` and returns failure, again or finished accordingly |
| `ReadLoop.Grow` | external/njs_shell.c:3343-3357 | growing keeps every byte read so far |
| `ReadLoop.ReadDescriptor` | external/njs_fs_module.c:2851-2908 | however reads are cut up the whole stream is returned, no read asks for zero bytes, and it declines iff a read failed |
| `ReadLoop.ReadFile` | external/njs_shell.c:3312-3363 | the same for the growth rule of the shell |
| `Utf8.DecodeIsGood` | src/njs_utf8.c:94-214 | from any reachable decoder state one step yields a Unicode scalar, an error or a reachable state |
| `Utf8Laws.DecodeWhole` | src/njs_utf8.c:94-214 | a character at the start of a text is read in one call, with all its bytes |
| `Utf8Laws.DecodeIff` | src/njs_utf8.c:94-214 | a decoder at rest reads a character iff the text starts with its encoding, so overlong forms and surrogates are never read |
| `QueryEscape.TableMeaning` | external/qjs_query_string_module.c:532-536 | the bit table escapes exactly the bytes that are not letters, digits or one of the listed marks |
| `QueryEscape.CountSize` | external/njs_query_string_module.c:560-568 | the counted size is the length of the escaped text |
| `QueryEscape.WriteEscaped` | external/qjs_query_string_module.c:539-563 | the writer fills the reserved buffer exactly with the escaped text |
| `QueryEscape.EscapedUnchanged` | external/njs_query_string_module.c:575-579 | when the size does not grow, escaping changes nothing, so copying is right |
| `QueryEscape.Escape` | external/njs_query_string_module.c:528-586 | appends the escaped text, by copying or by encoding |
| `QueryUnescape.ReadPiece` | external/njs_query_string_module.c:163-176 | one turn reads an escape, a `+` or raw bytes as `ReadOne` does |
| `QueryUnescape.Unescape` | external/njs_query_string_module.c:123-209 | the loop appends the characters read, with a replacement for each malformed sequence and for one cut off at the end |
| `QueryUnescape.ByteReadsBack` | external/njs_query_string_module.c:123-209 | a byte spelled with digits of either case reaches the decoder as that byte |
| `QueryUnescape.ScalarReadsBack` | src/njs_utf8.c:94-214 | every scalar, raw, spelled, or a plus for a space, decodes to itself |
| `QueryUnescape.UnescapeWritten` | external/njs_query_string_module.c:123-209 | every way of writing a text, mixing raw and spelled characters, decodes to it |
| `QueryUnescape.LonePercent` | external/njs_query_string_module.c:163-176 | a percent sign that starts no escape stands for itself |
| `QueryUnescape.CutOffCharacter` | external/njs_query_string_module.c:194-202 | a character cut off at the end becomes U+FFFD |
| `QueryUnescape.UnescapeEscape` | external/njs_query_string_module.c:123-209 | unescaping undoes escaping on every valid UTF-8 string |
| `QueryUnescape.PlusSeparatesIff` | external/njs_query_string_module.c:168-176 | a plus forgets what came before it, for every text that follows, iff no character is half read |
| `QueryUnescape.PlusInsideCharacter` | external/njs_query_string_module.c:168-176 | `%C3+%A9` is a space and U+00E9 |
| `QueryParser.Match` | external/njs_query_string_module.c:339-365 | the first occurrence of a separator of any length, or the end |
| `QueryParser.AppendedGroups` | external/njs_query_string_module.c:230-336 | appending keeps each key with all its values in order, a string if single and an array otherwise |
| `QueryParser.Query.Append` | external/njs_query_string_module.c:230-336 | adds the key, or turns its string into an array, or extends the array |
| `QueryParser.CutPair` | external/njs_query_string_module.c:505-514 | cuts a part at the first equals string and decodes both sides |
| `QueryParser.Query.Parse` | external/njs_query_string_module.c:475-525 | the object groups the pairs of the first maxKeys parts, empty parts counted and dropped |
| `QueryGrammar.PartsIff` | external/njs_query_string_module.c:492-522 | the pieces are those that joined by the separator, of any length, give the query, with no separator starting inside one |
| `QueryGrammar.CutIff` | external/njs_query_string_module.c:505-511 | a piece is key and value around its first equals string, or all key without one |
| `QueryStringify.Push` | external/njs_query_string_module.c:642-673 | appends the escaped key, the equals string and the escaped value |
| `QueryStringify.PushArray` | external/njs_query_string_module.c:773-798 | writes the elements of an array with separators between them |
| `QueryStringify.Stringify` | external/njs_query_string_module.c:676-818 | the text of all properties, with the leading separator exactly in the case `LeadingSep` names |
| `QueryStringify.PrintedIs` | external/njs_query_string_module.c:766-809 | the text is the escaped pairs joined by the separator, after one more separator in the case below, for separators of any length |
| `QueryStringify.LeadingSepIff` | external/njs_query_string_module.c:785-802 | a separator comes first iff empty arrays come before the first value and that value is a string |
| `QueryStringify.PairsReadBack` | external/njs_query_string_module.c:676-818 | parsing the text of any object gives its pairs in order iff the limit on keys is at least the number of pieces written |
| `QueryStringify.LeadingSeparatorTakesAKey` | external/njs_query_string_module.c:800-802 | `{a: [], b: "x"}` is not read back with a limit of one key |
| `QueryStringify.GatherFlat` | external/njs_query_string_module.c:230-336 | grouping the pairs of an object with distinct keys gives back its keys and values |
| `QueryStringify.ObjectReadsBack` | external/njs_query_string_module.c:475-525 | the parsed object has the same keys in order and the same values; empty arrays vanish and one-element arrays become strings |
| `FileSystem.RemovedSubtreeIsGone` | external/njs_fs_module.c:3169-3180 | when removing a directory succeeds nothing is left below it |
| `TreeWalk.WalkOrder` | external/njs_fs_module.c:3007-3147 | the depth walk visits only paths below its root, each at most once and after everything below it |
| `TreeWalk.EntriesOrder` | external/njs_fs_module.c:3087-3118 | the same for the entries of one directory |
| `TreeVisits.WalkVisitsIff` | external/njs_fs_module.c:3007-3147 | a depth walk visits an entry only if it is in reach, and every entry in reach if it succeeds |
| `TreeVisits.EntriesVisitIff` | external/njs_fs_module.c:3087-3118 | the same for the entries of one directory |
| `TreeConditions.WalkVisits` | external/njs_fs_module.c:3007-3147 | a walk visits only entries at most fd_limit levels down, through directories that can be listed, on the device of their parents and not equal in device and inode to a directory above, and all of these when it succeeds |
| `TreeConditions.WalkSucceedsIff` | external/njs_fs_module.c:3007-3147 | a walk that only looks succeeds iff its root exists and every directory it reaches can be opened and listed or is denied, with names that fit; what is too deep is passed over |
| `TreeWalk.JoinIs` | external/njs_fs_module.c:3052-3053 | the path of a child has one slash between the two |
| `TreeWalkLoop.Walker.PutName` | external/njs_fs_module.c:3103-3110 | a name written behind the base gives the child's path, inside the buffer |
| `TreeWalkLoop.Walker.ReadEntries` | external/njs_fs_module.c:3087-3118 | the directory loop over the shared buffer refines `Entries` and keeps the buffer's base |
| `TreeWalkLoop.Walker.Ftw` | external/njs_fs_module.c:3007-3147 | the recursion in one buffer refines `Walk`, stays inside the buffer, restores the path on success, closes every descriptor on every exit and never has more than fd_limit + 1 open |
| `TreeWalkLoop.Walker.WalkEntry` | external/njs_fs_module.c:3042-3147 | the same from the point where the entry is known |
| `TreeVisits.WalkOnlyBelow` | external/njs_fs_module.c:3007-3147 | a walk whose callback stays below the visited entry changes nothing outside its subtree, success or not |
| `TreeRemoval.RemovesIsLocal` | external/njs_fs_module.c:3169-3180 | removing what is visited is such a callback |
| `PathNames.RemovalIsPossible` | external/njs_fs_module.c:3183-3211 | the assumptions about path resolution, listing and removal can all hold together |
| `TreeRemoval.EntriesRemoveIff` | external/njs_fs_module.c:3087-3118 | all entries of a directory disappear iff each of them can be removed |
| `TreeRemoval.WalkRemovesIff` | external/njs_fs_module.c:3007-3147 | the walk removes its root iff every level can be entered, listed and removed within the limits |
| `TreeRemoval.RootWalkRemoves` | external/njs_fs_module.c:3150-3180 | a successful walk from the top leaves nothing of the subtree, skipped mounts, cycles and deep levels included |
| `TreeRemoval.RemovePath` | external/njs_fs_module.c:3183-3211 | rmdir first, then the walk when the directory is not empty and the call is recursive |
| `TreeRemoval.RemovalIsComplete` | external/njs_fs_module.c:3183-3211 | success means the whole subtree is gone; nothing outside is removed or changed in any case |
| `TreeRemoval.RemovalSucceedsIff` | external/njs_fs_module.c:3183-3211 | removal of a non-empty directory succeeds iff everything in it can be removed within the limits |
| `TreeConditions.CleanIff` | external/njs_fs_module.c:3007-3147 | the recursive condition for removal is one on every entry: removable, on its parent's device, no directory that is its own ancestor, listable or empty, near enough and with a path that fits |
| `TreeConditions.RemovedIffClean` | external/njs_fs_module.c:3183-3211 | recursive removal of a non-empty directory succeeds iff every entry meets that condition down to sixteen levels |
| `TreeConditions.OrdinaryTreeIsRemoved` | external/njs_fs_module.c:3183-3211 | an ordinary tree on one device is removed completely |
| `TreeConditions.ForeignEntryStays` | external/njs_fs_module.c:3042-3050 | an entry on another device, or the same file as a directory above it, is never visited, stays and makes the removal fail |
| `TreeRemoval.WalkKeepsUnvisited` | external/njs_fs_module.c:3169-3180 | only what is visited is removed |
| `TreeRemoval.PlainRemoval` | external/njs_fs_module.c:3192-3199 | an empty directory goes; without recursion a non-empty one stays |
| `MakePath.MakeAllAdds` | external/njs_fs_module.c:2937-2982 | only directories among the prefixes are added, old entries stay, and success makes each prefix a directory |
| `MakePath.PrefixesAre` | external/njs_fs_module.c:2937-2948 | the loop tries exactly the prefixes that end before a slash or at the end |
| `MakePath.EveryPrefixIsADirectory` | external/njs_fs_module.c:2911-2995 | on success every slash-delimited prefix is a directory and the path is not empty; on failure too only prefixes were added |
| `MakePath.MakeDirectories` | external/njs_fs_module.c:2911-2995 | the loop that cuts the path in place does what `Make` says, the empty path included, and leaves the whole buffer as it was on every exit |
| `MakePathOutcome.MakeIff` | external/njs_fs_module.c:2937-2994 | the call ends with this file system and result iff the prefixes in turn are made, or refused while being directories, until one ends it: too long, a final error, a refusal with nothing there, or something that is no directory |
| `MakePathOutcome.ExistingPathIsDone` | external/njs_fs_module.c:2953-2974 | a path whose prefixes are all directories is done without changing anything |
| `MakePathOutcome.PrefixesGrow` | external/njs_fs_module.c:2937-2941 | prefixes are tried from the shortest to the longest |
| `MakePathOutcome.PlainMake` | external/njs_fs_module.c:2924-2932 | without recursion the call is one mkdir of the whole path |
| `MakePath.OverreadIff` | external/njs_fs_module.c:2937-2941 | the search leaves the buffer iff the call is recursive, the path empty and no slash or NUL stands behind its terminator |
| `MakePath.EmptyPathOverreads` | external/njs_fs_module.c:2937-2941 | an empty path in a buffer of other bytes |
| `XmlVisibility.OneContainsIsSubtree` | external/njs_xml_module.c:1575-1635 | a set made from one node holds exactly its subtree, its subtree without comments, or everything else |
| `XmlVisibility.Add` | external/njs_xml_module.c:1976-1989 | relinking extends a circular list by one element at its end and keeps it well formed |
| `XmlVisibility.Visible` | external/njs_xml_module.c:1638-1663 | the loop around the ring ends, and a node is visible iff every set of the ring holds it |
| `XmlVisibility.CanonicalizedNode` | external/njs_xml_module.c:1743-1781 | visible iff below the root, not below the excluded node and not an unwanted comment |
| `XmlEscape.EscapedLength` | external/njs_xml_module.c:1437-1454 | the first pass counts the length of the escaped text |
| `XmlEscape.EncodeSpecialChars` | external/njs_xml_module.c:1431-1512 | the two passes agree: the buffer is filled exactly with the escaped text |
| `XmlEscape.UnescapeEscape` | external/njs_xml_module.c:1431-1512 | reading the references back returns the text |
| `XmlEscape.EscapedIsPlain` | external/njs_xml_module.c:1431-1512 | no markup character is left |
| `RegexEscape.CountPass` | external/njs_regex.c:109-139 | counts the empty classes of the token sequence |
| `RegexEscape.AnnouncedLength` | external/njs_regex.c:145-147 | the announced length is the length of the rewritten pattern |
| `RegexEscape.WritePass` | external/njs_regex.c:149-197 | the writing pass reads the same tokens and fills the announced length exactly, so the final assertion holds |
| `RegexEscape.NothingToRewrite` | external/njs_regex.c:141-143 | a pattern without empty classes is its own rewriting |
| `RegexEscape.EscapePattern` | external/njs_regex.c:93-199 | both passes together produce the rewritten pattern |
| `RegexMeaning.RewriteIsIdempotent` | external/njs_regex.c:93-199 | rewriting twice is rewriting once, for every pattern |
| `RegexMeaning.IdealKeepsMeaning` | external/njs_regex.c:100-107 | writing the JavaScript tokens down reads in PCRE2 as the same tokens |
| `RegexMeaning.PcreLosesNothing` | external/njs_regex.c:100-107 | the PCRE2 reading determines the text |
| `RegexMeaning.ClassIsCopiedIff` | external/njs_regex.c:179-191 | the scan copies the inside of a class unchanged iff the class is not exposed |
| `RegexMeaning.MeaningKeptIff` | external/njs_regex.c:93-199 | the rewritten pattern means in PCRE2 what the original means in JavaScript iff no class is exposed |
| `RegexMeaning.SafeWithoutEscapedBracket` | external/njs_regex.c:93-199 | in particular every pattern without an escaped `]` keeps its meaning |
| `RegexMeaning.EscapedBracketIsMisread` | external/njs_regex.c:131-135 | `[\][]` is rewritten to a pattern with another meaning |

## Left out

- Allocation failures: memory is taken to be available everywhere.
- OpenSSL, libxml2, PCRE2 and QuickJS: the block cipher is an arbitrary function, and digests, C14N output, regex matching and the embedded engines are not modelled.
- JavaScript bindings, option and argument decoding, error objects, promises and callbacks of the bindings.
- Interactive shell, completion, console output, module loading.
- AesCtr.CipherAesCtr: the 32-bit length arguments of the library are not modelled, a negative `length` is taken to fail in the shift, and what the library does with bytes behind the message is not described.
- Broadcast.BarrierExactlyOnce: states the barrier, not which arguments an agent sees, because they are read after the unlock; that a waiting broadcast will return is not claimed, only that it can.
- Timers.InvOfRun: at most 2^32 timers are issued, so ids do not wrap around.
- TimerLoop.Console.ProcessEvents: callbacks are finite trees of calls, and the run issues at most 2^32 ids; endless re-arming appears only in the step model of `Timers`.
- TimerLoop.Console.Clear: the conversion of a number to an id is taken modulo 2^32 and non-integers are left out.
- Query string: custom encoders and decoders in stringify, values that are neither strings nor arrays of strings, integer-like keys (which JavaScript reorders) and names inherited from a prototype.
- QueryParser.Query.Parse: maxKeys is a natural number; the treatment of zero and negative values in the option decoding is not modelled.
- TreeWalkLoop.Walker.Ftw: `stat` is taken to succeed on existing entries, the walk is physical, and a directory listing is a snapshot taken when the directory is opened.
- TreeVisits.WalkVisitsIff: states the walk under DEPTH, which is how the module uses it; the order without DEPTH is not described.
- TreeRemoval.RemovalSucceedsIff: the file system does not change by other hands during the call.
- ReadLoop.ReadDescriptor: overflow of the doubled buffer size is not modelled.
- XmlVisibility.OneContainsIsSubtree: namespace declaration nodes are left out, and the chosen node is never the document node, which the entry point replaces by the root element.
- RegexMeaning.MeaningKeptIff: POSIX class names and `\Q...\E` of PCRE2 are not tokens of the model.
- The PCRE1 branch of the regex rewriting.
- The QuickJS copies of the file-system, XML and query modules, which would repeat the same proofs.
