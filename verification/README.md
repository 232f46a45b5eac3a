# A model of the enclave's streaming data path and of the verifier's parsers

The repository lets a client check that a response of a model provider passed through an enclave unchanged.
The enclave reads the upstream response in reads of arbitrary size, forwards it frame by frame, hashes it, folds
its events into a response view, and signs a statement about the exchange. The verifier cuts the proof out of a
captured response, rebuilds the statement and compares digests. This project models both halves and proves what
they promise each other. Every theorem is stated for all inputs, all ways of cutting a stream into reads, or all
interleavings; nothing was executed.

## What the modules hold

- `Bytes`, `Utf8`, `Text`, `Json`, `Decimals`, `Sorting`: octets, the strict and the lossy UTF-8 decoders, lines and
  trimming with the rules of the Rust and JavaScript libraries, JSON values, numerals, ordered enumeration.
- `SseStream`, `ChatFold`, `ChatSpec`, `ToolCalls`, `Collector`: server-sent events, the OpenAI chat aggregation of
  the enclave, what it computes stated without its state, and the collector that switches from capturing to
  streaming. Main results: the incremental parser and the incremental fold equal the whole-body functions under
  every cut; the mode switch is exact if and only if the reads through the triggering one fit the capture limit;
  the view is the first model, the last usage and error, and one choice per index with in-order concatenations, as
  are name and arguments of every tool call.
- `ChatFoldTs`, `VerifierReading`: the verifier's own aggregation and its own reading of a body. Where both sides
  treat the pieces alike the verifier's state is the enclave's with holes at the tool calls left open, so that the
  views are equal exactly when none is left at the end.
- `SseRoundTrip`, `JsonReader`: the writers and readers the parsers and printers are held against.
- `KeyOrder`, `CanonicalJson`, `Statement`, `Acceptance`, `FieldProof`: the canonical text determines what its printer
  shows of a value, also between the two printers, which list keys differently; a statement with only its signer
  restricted is unambiguous because of the verifier's digest check, and not without it; an accepted proof shows an
  exchange the enclave signed. Without field claims the received body is the one the enclave hashed. With field claims
  the body digest does not bind, and what is shown of the view of the received body is the view the enclave folded;
  the exact conditions under which an untouched exchange passes.
- `GenuineProof`: the proof the enclave writes, key by key, and its acceptance.
- `EndToEnd`: an exchange observed to its trailer is one whose claims fold the decoded body.
- `AwsEventStream`: the incremental binary event-stream parser equals a recursive whole-buffer parse; well-formed
  messages come back in order; a truncated stream is rejected.
- `Frames`, `ChunkedCoding`, `ChunkedRun`, `HttpStream`, `Observation`: what the host sees is what was hashed, what was
  fed to the collector and what the response body is, for every read schedule and every fault; the host reads the
  frames back and the last one tells success from failure; a chunked response encoded under section 7.1 of RFC 9112
  is observed exactly. Chunk sizes for which the 64-bit additions wrap are decoded step by step as the machine does.
- `WorkerPool`: the accept loop, the bounded queue, the workers and the relaxed counters as an interleaved step
  system, with counter invariants, conservation and exact maxima over every run.
- `TlsProfile`, `Cbor`, `Der`: codecs with real inverses.
- `BraceSpans`, `EnvelopeObjects`: the brace scan yields a laminar family and the sweep its outermost members; the
  text of every JSON object is found whole, whatever its strings hold.
- `Stripping`, `ProofEvent`, `Holdback`, `Multipart`, `MultipartRoundTrip`, `MultipartShape`: the capture parsers, what they may
  remove from a body, and the proxy that withholds the proof from a live stream.

Code that updates state in the sources is a class or a method with loops here, proved against a specification
function; the theorems are about those functions. SHA-256, JSON parsing of one text, case mapping and the signature
check are function-valued parameters, so every result holds for each choice of them. Where a result needs the hash
not to collide, it names the inputs concerned.

## Findings

Places where a promise holds only under a condition, each stated as an equivalence or with its counterexample:

- With field claims the verifier accepts every body or none as far as the body digest goes
  (verifier/tee-verify-core.ts:174-184, 388-397; `Acceptance.FieldModeIgnoresBody`); what binds the received body is
  its view (`FieldProof.AcceptedViewIsGenuine`).
- The limit on a chunked response fails where `total += size` wraps (enclave/src/main.rs:3232-3236): a one-octet chunk
  followed by a line with the largest size resets the count, the forwarded amount then depends on how the bytes
  arrive, and repeating the pair forwards without limit (`ChunkedRun.WrappingPiece`, `ChunkedRun.CutsMatter`,
  `ChunkedRun.LimitBypassed`). The limit holds exactly where the count never wraps (`ChunkedRun.WrapsIff`,
  `ChunkedRun.LimitHoldsIff`).
- The streaming view of a sniffed body misses bytes exactly when the read that first reveals an event stream ends
  beyond the 8 MiB capture limit (enclave/src/main.rs:868-883, 3039-3050; `Collector.ModeSwitch`), as with one long
  chunk (`Collector.OneLongRead`).
- Without the hex check on the digests, the claims line can be hidden in the response digest and the signature
  still verifies (verifier/tee-verify-core.ts:275-280; `Statement.DigestCheckIsNeeded`).
- A choice without an index goes to the next free place in the enclave and to its position in the event in the
  verifier: the same place exactly when they coincide (enclave/src/main.rs:1133-1136, verifier/field-proof.ts:236;
  `ChatFoldTs.MissingIndexIff`, `ChatFoldTs.MissingIndexDiffers`).
- A `tool_calls` that is no list becomes an empty list in the verifier unless there is one already
  (verifier/field-proof.ts:450-456; `ChatFoldTs.NonListIff`), and a gap in the indices is a hole there and an empty
  call in the enclave (enclave/src/main.rs:2671-2673; `ChatFoldTs.CallsAgreeIff`, `ChatFoldTs.ViewsAgreeIff`).
- A bare CR in front of a field makes the verifier read events where the enclave reads JSON
  (verifier/field-proof.ts:873-876, enclave/src/main.rs:713-719; `VerifierReading.BareCrDiffers`).
- Numeric keys are listed as text by the enclave and as numbers by the verifier (enclave/src/main.rs:402-426,
  verifier/field-proof.ts:886-892; `KeyOrder.OrdersDiffer`); a value prints alike exactly when the keys of every
  object are ranked alike (`KeyOrder.OrdersAgreeIff`, `CanonicalJson.PrintersAgreeIff`).
- The verifier's printer loses every key `__proto__`, since assigning it to the new object sets the prototype
  (verifier/field-proof.ts:886-892; `CanonicalJson.ProtoPrintsEmpty`). So adding one to the claims or to a received
  choice goes unseen (`Acceptance.ProtoGoesUnseen`, `FieldProof.MatchIff`), and a genuine one raises a false alarm
  (`FieldProof.ProtoRaisesAlarm`).
- A streamed response whose first event starts beyond 512 octets is folded as events by the enclave and read as JSON
  by the verifier, which refuses it (enclave/src/main.rs:774-778, verifier/field-proof.ts:873-876;
  `VerifierReading.LateEventsDiffer`, `FieldProof.LateEventsRaiseAlarm`).
- A host with a capital letter beyond ASCII fails the claims check, because the enclave lower-cases ASCII only there
  (enclave/src/main.rs:633, verifier/field-proof.ts:822; `FieldProof.EnvelopeOfGenuineIff`).
- A CBOR item whose one-octet length is cut off is accepted, with an offset outside the buffer or, for strings, an
  offset that is not a number (verifier/evidence-qingtian.ts:430-434; `Cbor.CutHeadAccepted`, `Cbor.StaysInsideIff`).
- A DER length is right exactly below 2^31, because the loop shifts signed 32-bit numbers
  (verifier/evidence-qingtian.ts:332-341; `Der.LengthRoundTrip`).
- A multipart length that is one too long is always believed, and the body comes back with a CR
  (verifier/tee-verify-core.ts:784-793; `MultipartRoundTrip.OneTooLongMisleads`); shorter or far too long ones are
  harmless.
- The proxy's output is the body exactly when what it forwarded before the end is a beginning of the body
  (verifier/tee-verify-proxy.ts:194-214; `Holdback.ExactIffPrefix`). After forwarded keepalives that are removed at the
  end it is not: the client gets the markers, and as many octets of the body are lost in the middle
  (`Holdback.KeepalivesShiftTheBody`, `Holdback.SpoiledStream`). And the withheld end of a stream that is not valid UTF-8
  is re-encoded (verifier/tee-verify-proxy.ts:205; `Holdback.WithoutProofWhole`).

## Model

| member | source | states |
|---|---|---|
| SseStream.ParseSseData | enclave/src/main.rs:678-711 | the whole-body parser returns the events of the body's decoded lines: one per group of data lines, blank groups and end markers skipped |
| SseStream.SseEventParser.Push | enclave/src/main.rs:931-943 | after a read the parser state is the octet-by-octet machine run over that read, the emitted events being exactly the machine's, and no complete line stays buffered |
| SseStream.SseEventParser.Finish | enclave/src/main.rs:945-951 | an unterminated last line still counts and collected data lines are flushed |
| SseStream.SseEventParser.ProcessLine | enclave/src/main.rs:953-962 | one line, CR dropped, either flushes, adds a data line or is ignored |
| SseStream.AbsorbConcat | enclave/src/main.rs:931-943 | feeding two reads is feeding their concatenation, so cuts do not matter |
| SseStream.AbsorbIsFoldLines | enclave/src/main.rs:678-711 | the machine over octets, even with characters cut between reads, agrees with folding the lines of the decoded body |
| SseStream.StreamedEventsAreBodyEvents | enclave/src/main.rs:925-981 | the incremental parser and the whole-body parser emit the same events on every body |
| SseStream.StreamEvents | enclave/src/main.rs:931-951 | for every list of reads, push and finish together emit the whole-body events |
| Text.LinesOfLossy | enclave/src/main.rs:678-693 | decoding a body and splitting it into lines gives the lines decoded one by one |
| Utf8.StrictIsInverse | verifier/tee-verify-proxy.ts:204 | the strict decoder accepts exactly encodings and agrees with the lossy one on them |
| Utf8.ReplacedRunIsMaximal | verifier/tee-verify-core.ts:474 | what the lossy decoder replaces by one U+FFFD is one octet or the beginning of a character, and with the octet behind it the beginning of none |
| Text.SpacesDifferIff | verifier/field-proof.ts:877 | the trimming functions of the two languages differ on U+0085 and U+FEFF and on nothing else |
| SseRoundTrip.StreamReadsBack | enclave/src/main.rs:678-711 | a written stream - data lines with blanks, comments and other fields, LF or CRLF - is read as exactly the values its events carry, joined data that is not JSON as its digest |
| SseRoundTrip.NoDataIff | enclave/src/main.rs:701-703 | data is skipped exactly when it is white space or the end marker with white space around it |
| ChatFold.MergeToolCalls | enclave/src/main.rs:2661-2697 | tool-call deltas grow and update the list as the declared fold says |
| ChatFold.MergeToolCall | enclave/src/main.rs:2675-2692 | the fields of one tool-call delta may be visited in any order with the same result |
| ChatSpec.MessageStep | enclave/src/main.rs:2637-2659 | merging a delta keeps the first role and appends the delta's text to content and to reasoning, each on its own |
| ChatSpec.ChoiceFields | enclave/src/main.rs:1143-1164 | one raw choice changes the message by its delta, the finish reason unless null, and the log probabilities if given, and keeps the index |
| ChatFold.OpenAiChatStreamState.Apply | enclave/src/main.rs:1110-1166 | one event moves the state exactly one step of the event fold |
| ChatFold.OpenAiChatStreamState.Finish | enclave/src/main.rs:1168-1177 | the view lists the accumulated choices in ascending index order and the state is empty afterwards |
| ChatFold.AggregateStream | enclave/src/main.rs:1180-1249 | the whole-list aggregator gives the view of the event fold, the same as the incremental state |
| ChatSpec.EventBoundariesVanish | enclave/src/main.rs:1110-1166 | only the sequence of raw choices matters, not how they are spread over events |
| ChatSpec.Interleave | enclave/src/main.rs:1129-1165 | choices of different indices may be interleaved freely, whatever they carry |
| ChatSpec.Resplit | enclave/src/main.rs:2957-2970 | cutting the text of a delta in two at any point changes nothing |
| ChatSpec.ChoicesAreDeclared | enclave/src/main.rs:1129-1165 | for explicit indices and text deltas every accumulated choice is the first role, the concatenated texts and the last finish reason of its index, and there is one per index that occurs |
| ChatSpec.ViewIsDeclared | enclave/src/main.rs:1110-1177 | the whole view of a stream: the first model, the last usage and error, and one choice per index, ascending, each as declared; no choices field when none occurs |
| ChatSpec.ScalarsAreDeclared | enclave/src/main.rs:1114-1126 | apart from choices the accumulated view is the first model and the last usage and error, for every list of events |
| ToolCalls.CallsConcat | enclave/src/main.rs:2661-2697 | merging two lists of tool-call deltas in turn is merging their concatenation |
| ToolCalls.CallsAreDeclared | enclave/src/main.rs:2661-2697 | for pieces with indices and no gap, name and arguments of call i are the in-order concatenations of the pieces sent for i, and there are no other calls |
| ToolCalls.MessageCalls | enclave/src/main.rs:2652-2658 | the tool calls of a message are merged from all pieces of its deltas, however they were cut |
| ChatFoldTs.AggregateOpenAIChatStream | verifier/field-proof.ts:224-249 | the verifier's aggregator gives the view of its own event fold |
| ChatFoldTs.AssignedReads | verifier/field-proof.ts:623-625 | what assigning the key `__proto__` does to later reads of a message |
| ChatFoldTs.CallAgreesIff | verifier/field-proof.ts:464-470 | a piece is merged into a call alike on both sides iff a `function` that is no object, or a key `__proto__`, was in the call already |
| ChatFoldTs.CallsPunched | verifier/field-proof.ts:455-475 | for pieces read alike the verifier has the enclave's list with holes exactly at the places that later indices opened and no piece filled |
| ChatFoldTs.CallsAgreeIff | verifier/field-proof.ts:455-475 | so one delta leaves the same list on both sides iff every place it opens is filled |
| ChatFoldTs.GapThenFill | verifier/field-proof.ts:455-475 | an index 1 in an empty list differs, and no longer once index 0 follows |
| ChatFoldTs.OutsideTheArray | verifier/field-proof.ts:459-472 | a number that is no array index leaves the list as it is in the verifier |
| ChatFoldTs.IndexTooLarge | enclave/src/main.rs:2666-2673 | an index that does not fit 64 bits counts as none in the enclave |
| ChatFoldTs.NonListIff | verifier/field-proof.ts:450-456 | a `tool_calls` that is no list is treated alike iff the message has a list already |
| ChatFoldTs.ChoicesPunched | verifier/field-proof.ts:229-246 | choices that go to the same place and are merged alike accumulate alike on both sides, up to the open places of their tool calls |
| ChatFoldTs.StreamPunched | verifier/field-proof.ts:224-249 | at every moment of a stream of such choices the verifier's state is the enclave's with the open places punched out, also where a later event fills them |
| ChatFoldTs.ViewsAgreeIff | verifier/field-proof.ts:224-249 | on every such stream both sides have the same view iff no place is left open at its end |
| ChatFoldTs.ExplicitStream | verifier/field-proof.ts:236 | explicit integer indices, no tool calls and no prototype are enough for that |
| ChatFoldTs.MissingIndexIff | verifier/field-proof.ts:236 | a choice without an index reaches the same choices on both sides exactly when its position is the number of choices so far |
| ChatFoldTs.MissingIndexDiffers | verifier/field-proof.ts:236 | two deltas without an index: two choices in the enclave, one in the verifier |
| ChatFoldTs.NullToolCallsDiffer | verifier/field-proof.ts:446-453 | a null `tool_calls` for a message without any adds an empty list in the verifier and nothing in the enclave |
| Collector.SniffIsMonotone | enclave/src/main.rs:774-778 | once a prefix indicates server-sent events, every longer body does, even if the prefix ended inside a character |
| Collector.IndicatesIff | enclave/src/main.rs:774-778 | the sniffed prefix indicates events exactly when a field or a comment stands behind its longest run of white space and byte-order marks |
| Collector.EachBeginning | enclave/src/main.rs:774-778 | each of the three beginnings counts |
| Collector.ResponseViewIs | enclave/src/main.rs:540-553 | of a response that is not read as events and parses to an object the view holds model, choices, usage and error as they are and nothing else; other values but arrays stay as they are |
| Json.PickIs | enclave/src/main.rs:3052-3066 | picking fields gives the one value described field by field, elementwise on arrays |
| Collector.SeenIs | enclave/src/main.rs:868-883 | the collector's state after any reads in terms of the whole body and the size of the triggering prefix only |
| Collector.ModeSwitch | enclave/src/main.rs:860-885 | the collector ends streaming iff the body's prefix indicates events, and the parser saw the whole body iff the reads through the triggering one fit the capture limit |
| Collector.OneLongRead | enclave/src/main.rs:868-883 | one read beyond the capture limit switches the collector and is seen only up to the limit |
| Collector.LongBodiesExist | enclave/src/main.rs:774-778 | there are such bodies |
| Collector.FieldResponseCollector.Push | enclave/src/main.rs:860-885 | one read moves the collector one step of that model, in either mode |
| Collector.FieldResponseCollector.Feed | enclave/src/main.rs:860-866 | parser and fold state together have absorbed exactly the bytes fed so far |
| Collector.FieldResponseCollector.Finish | enclave/src/main.rs:887-921 | a streaming collector returns the view of all it absorbed read as events; a capturing one the whole-body view, or none if truncated |
| Collector.CollectStreaming | enclave/src/main.rs:540-578 | push over any cut and then finish gives the whole-body view of every body that looks like server-sent events |
| Collector.CollectSniffing | enclave/src/main.rs:860-921 | the view of a collector that starts by sniffing, for every body and every cut, with the exact bytes lost beyond the capture limit |
| AwsEventStream.Resume | enclave/src/main.rs:990-1042 | parsing may be suspended anywhere and resumed with the retained bytes |
| AwsEventStream.Retained | enclave/src/main.rs:990-1042 | what is retained is an incomplete message, shorter than the message limit |
| AwsEventStream.AwsEventStreamParser.Push | enclave/src/main.rs:990-1042 | one read yields the events and the state of the recursive parse of the buffered bytes and the read |
| AwsEventStream.AwsEventStreamParser.Finish | enclave/src/main.rs:1044-1049 | left-over bytes mark the stream as failed |
| AwsEventStream.ParseStream | enclave/src/main.rs:989-1050 | events and final verdict equal the whole-buffer parse for every cut |
| AwsEventStream.WellFormedComesBack | enclave/src/main.rs:990-1042 | well-formed messages up to the limit come back exactly and in order, whatever follows them |
| AwsEventStream.TruncationIsRejected | enclave/src/main.rs:1044-1049 | a stream cut inside a message yields the complete messages and keeps the rest, so that it is rejected at the end |
| Frames.FrameRoundTrip | enclave/src/main.rs:308-331 | a frame is read back, with what follows, iff its payload fits the reader's limit and 32 bits |
| Frames.FramesRoundTrip | enclave/src/main.rs:308-331 | a list of such frames is read back exactly |
| ChunkedCoding.SizeOfLine | enclave/src/main.rs:3218-3227 | the size on a chunk line is read whatever extension follows it |
| ChunkedCoding.ParseHexIff | enclave/src/main.rs:3218-3227 | a text is a size exactly when it is a number below 2^64 in hexadecimal, with capitals, zeros in front and a plus sign allowed |
| ChunkedCoding.SizeText | enclave/src/main.rs:3218-3227 | the size is the text in front of a semicolon with the white space around it removed |
| ChunkedCoding.DechunkLoose | enclave/src/main.rs:3247-3250 | a chunk whose data is not followed by CRLF is decoded all the same |
| ChunkedCoding.DechunkOfEncode | enclave/src/main.rs:3198-3253 | the decoder inverts the encoding of any non-empty chunks within the limit, with any extensions and anything after the last chunk |
| ChunkedCoding.CutIsBroken | enclave/src/main.rs:3198-3253 | an encoding cut before the end of its last-chunk line is an error with a prefix of the body forwarded |
| ChunkedCoding.BodyWithinLimit | enclave/src/main.rs:3232-3235 | up to the first size for which the count wraps, the decoder of the whole stream forwards no more than the response limit |
| ChunkedRun.RunIsDechunk | enclave/src/main.rs:3198-3253 | where the count never wraps, the step-by-step decoder forwards the same for every way the bytes arrive, and it is what the whole-stream decoder finds |
| ChunkedRun.RunWithinLimit | enclave/src/main.rs:3232-3235 | there the response limit holds |
| ChunkedRun.WrapGoesPast | enclave/src/main.rs:3232-3246 | once the count wraps, every continuation longer than the limit that is buffered is forwarded past it |
| ChunkedRun.WrapsIff | enclave/src/main.rs:3232-3246 | the count wraps in a beginning of a stream iff every long enough continuation of it goes past the limit |
| ChunkedRun.LimitHoldsIff | enclave/src/main.rs:3232-3235 | the limit holds however a beginning of a stream goes on and arrives, iff no continuation makes the count wrap |
| ChunkedRun.WrappingPiece | enclave/src/main.rs:3232-3246 | a one-octet chunk and a line with the largest size forward everything that is buffered behind them and start the count again |
| ChunkedRun.LimitBypassed | enclave/src/main.rs:3232-3235 | repeating that piece forwards more than any limit |
| ChunkedRun.WrapIsMarked | enclave/src/main.rs:3232-3235 | that piece is one for which the count wraps, right after the octet of its first chunk |
| ChunkedRun.CutsMatter | enclave/src/main.rs:3236-3246 | behind such a line the forwarded amount depends on how the same bytes arrive |
| HttpStream.ReadUntilHeaders | enclave/src/main.rs:3177-3196 | the split stands at the first blank line for every read schedule and loses nothing; failure means no blank line within the limit or a broken connection |
| HttpStream.StreamChunked | enclave/src/main.rs:3198-3253 | for every read schedule and every chunk size the sink receives exactly what the step-by-step decoder forwards for what arrived, on error a prefix; where no size wraps, exactly what the whole-stream decoder finds in leftover and future bytes, within the response limit |
| HttpStream.ForwardData | enclave/src/main.rs:3236-3250 | the data part of one chunk, short data at the end of the connection included |
| HttpStream.StreamPlain | enclave/src/main.rs:3255-3328 | with a declared length exactly that many bytes, otherwise everything until the connection ends, never beyond the limit |
| HttpStream.StreamLength | enclave/src/main.rs:3263-3299 | the declared-length loop forwards a prefix and succeeds with exactly the declared length |
| HttpStream.StreamUntilClose | enclave/src/main.rs:3301-3328 | the read-to-end loop forwards everything on a reliable connection, and fails only beyond the limit |
| HttpStream.Sink.Accept | enclave/src/main.rs:3794-3801 | every piece is hashed, collected and framed in that order, also when the frame cannot be written |
| Observation.StreamBody | enclave/src/main.rs:3789-3807 | hashed bytes are a prefix of the decoded body, and all of it on success when the end is marked or the connection reliable; for wrapping sizes, of what the step-by-step decoder forwards |
| Observation.Handle | enclave/src/main.rs:3780-3826 | the frames written are head, chunks and trailer iff it succeeds, and the chunk payloads are the decoded body; otherwise a trailer-free prefix |
| Observation.Serve | enclave/src/main.rs:3930-3947 | a failed exchange is followed by an error frame; the host reads exactly the written frames from the wire, and the last one is a trailer iff the exchange succeeded |
| Observation.WireIsReadBack | enclave/src/main.rs:308-331 | the frames of any exchange with payloads that fit a frame are read back exactly, and the last one is a trailer iff it is complete |
| Observation.PiecesAreSmall | enclave/src/main.rs:3232-3235 | where the count never wraps every piece fits a frame |
| Observation.ChunkedExchange | enclave/src/main.rs:3198-3253 | a run over an encoded chunked response that reaches the trailer has shown exactly the chunk data |
| Observation.CutExchangeHasNoTrailer | enclave/src/main.rs:3198-3253 | the same response cut short never reaches the trailer and shows a prefix |
| CanonicalJson.EscapeUnique | enclave/src/main.rs:402-426 | escaped strings in front of a quote are read in only one way |
| CanonicalJson.NumberUnique | enclave/src/main.rs:402-426 | two numbers with the same text are the same |
| CanonicalJson.RunUnique | enclave/src/main.rs:402-426 | a number text in front of a delimiter is read in only one way |
| CanonicalJson.ValueUnique | enclave/src/main.rs:402-426 | what a printer shows of a value in front of a delimiter is read in only one way, and a text of both printers has its keys listed alike throughout |
| CanonicalJson.CanonicalIsInjective | enclave/src/main.rs:402-426 | one printer writes two values alike iff it shows the same of them, at any nesting; for the enclave iff they are equal |
| CanonicalJson.ShownInFullIff | verifier/field-proof.ts:886-892 | the verifier's printer shows a value in full iff no object inside has a key `__proto__` |
| CanonicalJson.SameTextIff | verifier/field-proof.ts:886-892 | the enclave's text of one value is the verifier's text of another iff it is what the verifier shows of it and its keys are listed alike |
| CanonicalJson.PrintersAgreeIff | verifier/field-proof.ts:886-892 | both printers write the same text of a value iff the keys of every object inside are listed alike |
| CanonicalJson.ProtoIsLost | verifier/field-proof.ts:886-892 | a value with a key `__proto__` at any depth prints like the one without it in the verifier, and differently in the enclave |
| CanonicalJson.ProtoPrintsEmpty | verifier/field-proof.ts:886-892 | `{"__proto__":1}` prints like `{}` in the verifier only |
| CanonicalJson.OrdinaryKeysAlike | verifier/field-proof.ts:886-892 | keys that are no array indices, not `__proto__` and hold no character above the surrogates are always listed alike |
| JsonReader.ReadPrinted | enclave/src/main.rs:402-426 | a reader of JSON text, written without the printers, reads what either of them printed in front of anything that may follow as the value that is shown, and leaves the rest |
| JsonReader.CanonicalReads | enclave/src/main.rs:402-426 | the canonical text of the enclave is the JSON text of the value, that of the verifier of what it shows |
| KeyOrder.MovedOrder | verifier/field-proof.ts:886-892 | the order by UTF-16 code units is the order by scalar value after a permutation of the characters |
| KeyOrder.KeysAscend | verifier/field-proof.ts:886-892 | the verifier lists array indices first, as numbers, then the other keys by code units, each once |
| KeyOrder.OrdersAgreeIff | verifier/field-proof.ts:886-892 | a set of keys is listed alike on both sides iff it lacks `__proto__` and both orders rank every two of its keys alike |
| KeyOrder.OrdersDiffer | verifier/field-proof.ts:886-892 | the keys 9 and 10 are listed in opposite orders |
| KeyOrder.IndexIff | verifier/field-proof.ts:886-892 | the keys listed as numbers are the decimal numerals of numbers below 2^32 - 1 |
| Statement.BuildV2Statement | enclave/src/main.rs:433-468 | the enclave's piecewise printer produces the bytes of the verifier's line list |
| Statement.SameViewIffClean | verifier/signing.ts:54-68 | a rebuilt statement equal to a clean signed one shows the same fields iff it is clean itself |
| Statement.DigestCheckSuffices | verifier/tee-verify-core.ts:275-280 | the hex-digest check alone makes an equal rebuilt statement show the same fields and the same presence of claims |
| Statement.DigestCheckIsNeeded | verifier/signing.ts:54-68 | without it the claims line can be moved into the response digest unseen |
| Acceptance.VerifyWireEnvelope | verifier/tee-verify-core.ts:235-294 | no complaint iff the proof has the required shape |
| Acceptance.SignableIsClean | enclave/src/main.rs:3589-3608 | the signer's checks make every signed statement free of stray line feeds |
| Acceptance.AcceptedWasSigned | verifier/tee-verify-core.ts:371-386 | an accepted proof shows the fields of an exchange the enclave signed, and says so under each of its keys: nonce, host, path, method, status, content type, digests and claims |
| Acceptance.SameViewShows | verifier/tee-verify-core.ts:373-383 | the rebuilt fields show the view of an exchange exactly when the proof says so key by key |
| Acceptance.FieldModeIgnoresBody | verifier/tee-verify-core.ts:371-405 | with field claims the signature check accepts every body or none; without, exactly those with the same digest |
| Acceptance.AcceptedBodyIsGenuine | verifier/tee-verify-core.ts:371-405 | without field claims the received body is the one the enclave hashed |
| Acceptance.AcceptedClaimsAreGenuine | verifier/signing.ts:66 | what the verifier's printer shows of the claims in an accepted proof are the enclave's claims, and they are equal iff no key `__proto__` was added |
| Acceptance.ProtoGoesUnseen | verifier/signing.ts:66 | claims of which the printer shows the same give the same rebuilt statement, so that adding such a key goes unseen |
| GenuineProof.TrailerSays | enclave/src/main.rs:3438-3453 | which key of the proof the enclave writes holds which fact of the exchange |
| GenuineProof.GenuineShapeIff | verifier/tee-verify-core.ts:235-294 | that proof has the required shape iff its texts are short, the status is one of HTTP and claims are an object |
| GenuineProof.FieldsComeBack | verifier/tee-verify-core.ts:373-383 | the verifier rebuilds from it exactly the fields that were signed |
| GenuineProof.GenuineProofPasses | verifier/tee-verify-core.ts:371-405 | a genuine proof passes the signature check with the body the enclave hashed |
| FieldProof.ContentOf | enclave/src/main.rs:616-663 | the claims hold the protocol and the digests of the folded views |
| FieldProof.ClaimsAreDeclared | enclave/src/main.rs:634-662 | every other claim, one by one |
| FieldProof.OwnClaimsAreDeclared | enclave/src/main.rs:634-662 | version, streaming flag, protocol and the digests of both folded views under their names |
| FieldProof.EnvelopeIsDeclared | verifier/field-proof.ts:787-835 | what the verifier asks of each of them |
| FieldProof.ClaimsKeysAlike | enclave/src/main.rs:634-662 | both printers list the claims of the enclave alike |
| FieldProof.AsciiCase | enclave/src/main.rs:633 | the ASCII mappings touch ASCII letters only and keep every letter |
| FieldProof.VerifyFieldClaims | verifier/field-proof.ts:128-167 | the claims check passes iff protocol, envelope, presence and the digests of the received views are right |
| FieldProof.VerifyTeeExchange | verifier/tee-verify-core.ts:126-227 | an exchange is accepted iff shape, signature, claims or else digests, and the other checks pass |
| FieldProof.MatchIff | verifier/field-proof.ts:194-196 | against a genuine digest a view passes iff it is present, what is shown of it is the genuine view, and both printers list its keys alike |
| FieldProof.AcceptedViewIsGenuine | verifier/tee-verify-core.ts:126-227 | in field mode an accepted exchange is one the enclave signed, and what is shown of the views of the received response and of the given request are the views the enclave folded |
| FieldProof.FoldedIs | enclave/src/main.rs:887-921 | the folded view of a chat exchange, whichever way its body was cut: the whole-body view, or that of the events up to the bytes lost beyond the capture limit |
| FieldProof.AcceptedChatIsGenuine | verifier/field-proof.ts:198-222 | for chat, what is shown of the verifier's reading of the received octets is the view the enclave's collector folded, and so is the enclave's own reading where both read alike |
| FieldProof.EnvelopeOfGenuineIff | verifier/field-proof.ts:791-835 | the claims of a signed exchange meet every expectation taken from a proof with the same view iff the ASCII mapping of the enclave and the mapping of the verifier lower-case the host alike |
| FieldProof.CapitalBeyondAscii | enclave/src/main.rs:633 | a host with a capital letter beyond ASCII is lower-cased differently |
| FieldProof.UntouchedChatPassesIff | verifier/field-proof.ts:128-167 | an untouched chat exchange passes iff the host is lower-cased alike and, for each body checked, what is shown of the verifier's view is the folded view and its keys are listed alike |
| FieldProof.UntouchedChatPasses | verifier/field-proof.ts:128-167 | where both sides read the bodies alike and nothing was lost, it passes iff the host is lower-cased alike and the keys of both views are listed alike |
| FieldProof.ProtoRaisesAlarm | verifier/field-proof.ts:886-892 | a genuine key `__proto__` in the folded view of the response is refused |
| FieldProof.LateEventsRaiseAlarm | verifier/field-proof.ts:873-876 | so is a streamed response whose events start behind a comment of more than 512 octets |
| FieldProof.GenuineIsAccepted | verifier/tee-verify-core.ts:126-227 | without claims the proof the enclave writes is accepted with the bodies of its exchange |
| FieldProof.GenuineChatIsAcceptedIff | verifier/tee-verify-core.ts:126-227 | with the claims of a chat exchange it is accepted iff the host is lower-cased alike and the views pass |
| EndToEnd.ObservedIsFolded | enclave/src/main.rs:3789-3826 | the pieces of an exchange observed to its trailer are the decoded body, so that its claims are those of a chat exchange with that body |
| EndToEnd.ChunkedIsFolded | enclave/src/main.rs:3198-3253 | for an encoded chunked response that body is the chunk data |
| VerifierReading.ParseSseDataTs | verifier/field-proof.ts:847-871 | the verifier's event reader computes its fold over lines |
| VerifierReading.EventsAgree | verifier/field-proof.ts:847-871 | both readers find the same events in a text whose data lines they trim alike and that is not ended by a bare CR |
| VerifierReading.LooksAgreeIff | verifier/field-proof.ts:873-876 | whatever the enclave takes for events the verifier does, and the reverse iff a field behind a bare CR or a Unicode line separator comes with one behind LF or in front |
| VerifierReading.LooksAre | verifier/field-proof.ts:873-876 | both tests, told by where `data:` and `event:` stand in the first 512 octets |
| VerifierReading.BareCrDiffers | verifier/field-proof.ts:873-876 | a body with a bare CR, U+2028 or U+2029 that only the verifier takes for events |
| VerifierReading.OpenCrLines | verifier/field-proof.ts:861-862 | a bare CR at the very end belongs to the line for the enclave only |
| VerifierReading.FieldViewsAgreeIff | verifier/field-proof.ts:198-222 | on a body both sides read alike, with events both aggregators treat alike, the two views of a chat response are equal iff no tool-call place is left open |
| VerifierReading.RequestViewsAgree | verifier/field-proof.ts:214-217 | on such a body the views of a chat request are equal |
| VerifierReading.RequestViewsAre | verifier/field-proof.ts:214-217 | of an object both request views hold model and messages as they are and nothing else |
| VerifierReading.TsResponseViewIs | verifier/field-proof.ts:214-222 | the verifier's view of a response that it does not read as events, field by field |
| VerifierReading.PlainReading | verifier/field-proof.ts:847-876 | without characters that only one side trims, bare CR and Unicode line separators where they matter, a body is read alike |
| VerifierReading.LateEventsDiffer | verifier/field-proof.ts:873-876 | of events behind a long comment the enclave's sniffing collector sees the choices and the verifier nothing |
| WorkerPool.WithinBounds | enclave/src/main.rs:4085-4113 | no counter underflows or wraps and both gauges stay within their bounds |
| WorkerPool.StepKeeps | enclave/src/main.rs:3913-3954 | every atomic step of the acceptor or a worker keeps the invariant: queue depth is queued plus counted plus taken, in-flight is the handling workers, every connection is in one place |
| WorkerPool.RunKeeps | enclave/src/main.rs:4085-4113 | it holds after every schedule |
| WorkerPool.CountersAdd | enclave/src/main.rs:3913-3954 | bounds and conservation of the counters at any moment |
| WorkerPool.QuiescentConservation | enclave/src/main.rs:4085-4113 | at quiescence arrivals are accepted plus shed, accepted are completed plus failed plus panicked, and both gauges are zero |
| WorkerPool.CountersCount | enclave/src/main.rs:3931-3947 | at any moment of any run every counter is the number of its events on the schedule, up to what a moving part has still to count: arrivals, offers to a queue with room and to a full one, handlers ended in each of the three ways |
| WorkerPool.QuiescentCounts | enclave/src/main.rs:3931-3947 | at quiescence completed, failed, panicked, accepted and shed are exactly those numbers |
| WorkerPool.GaugesMonotone | enclave/src/main.rs:3883-3891 | a max gauge never goes down along a run |
| WorkerPool.PeaksReached | enclave/src/main.rs:3883-3891 | every recorded peak was the live value at some moment |
| WorkerPool.MaxGaugesAreExact | enclave/src/main.rs:3883-3891 | once nothing is in progress each max gauge is exactly the highest value the live gauge ever had, in spite of racing updates |
| WorkerPool.CompletedUpdatesCovered | enclave/src/main.rs:3883-3891 | at any moment a max gauge is at least every value whose update has completed |
| TlsProfile.CanonicalEncode | enclave/src/tls_profile.rs:88-132 | the buffer that is pushed into ends as the specified encoding |
| TlsProfile.Decode | enclave/src/tls_profile.rs:188-259 | the cursor-based decoder computes the recursive reader, errors included |
| TlsProfile.Dec.Take | enclave/src/tls_profile.rs:142-150 | a read takes exactly the next bytes and advances, or fails and stays |
| TlsProfile.ProfileBack | enclave/src/tls_profile.rs:188-255 | an encoding in front of anything is read back, leaving what follows |
| TlsProfile.ProfileForth | enclave/src/tls_profile.rs:88-132 | whatever is read is the encoding of the result |
| TlsProfile.DecodeOfEncode | enclave/src/tls_profile.rs:188-259 | decoding an encoding gives the profile back iff all its lengths fit 32 bits |
| TlsProfile.EncodeOfDecode | enclave/src/tls_profile.rs:88-132 | accepted bytes are the encoding of what they decode to |
| TlsProfile.ExtensionRejected | enclave/src/tls_profile.rs:241-243 | every proper extension of an encoding is rejected for its trailing bytes |
| TlsProfile.PrefixRejected | enclave/src/tls_profile.rs:142-150 | every proper prefix of an encoding is rejected |
| Cbor.DecodeCbor | verifier/evidence-qingtian.ts:373-428 | the decoder with its loops computes the recursive specification |
| Cbor.DecodeAdvances | verifier/evidence-qingtian.ts:373-428 | every successful decode moves strictly forward inside the buffer, unless the buffer ends inside a head that is not a tag's |
| Cbor.StaysInsideIff | verifier/evidence-qingtian.ts:373-434 | no decode, wherever it starts, leaves the buffer iff the buffer does not end inside such a head |
| Cbor.CutHeadAccepted | verifier/evidence-qingtian.ts:430-434 | exactly which last octets are accepted with an offset outside the buffer |
| Cbor.CutHeadValues | verifier/evidence-qingtian.ts:430-434 | what is accepted there: undefined, NaN, empty strings, arrays and maps |
| Cbor.CutStringInArray | verifier/evidence-qingtian.ts:394-404 | an array behind such a string is filled up with zeros |
| Cbor.HeadBack | verifier/evidence-qingtian.ts:459-472 | a head is read back with its value anywhere in a buffer |
| Cbor.HeadIsShortest | verifier/evidence-qingtian.ts:459-472 | no other readable head of the same number is shorter (section 4.2.1 of RFC 8949) |
| Cbor.WideHeadBack | verifier/evidence-qingtian.ts:430-441 | a number is read from every width of head, and one of 2^53 or more is refused |
| Cbor.DecodeOfWritten | verifier/evidence-qingtian.ts:371-425 | every item written under RFC 8949 - numbers, strings, arrays, maps with distinct keys in order, tags, false, true and null - is decoded back anywhere in a buffer |
| Cbor.RepeatedKeys | verifier/evidence-qingtian.ts:406-415 | with repeated keys a map holds every key once, with the value of its last pair |
| Cbor.DecodeOfEncode | verifier/evidence-qingtian.ts:443-457 | decoding at the start of an encoding anywhere in a buffer gives the value and ends behind it |
| Cbor.EncodesIff | verifier/evidence-qingtian.ts:443-468 | the source encodes exactly numbers, strings, octets and arrays of them whose values and lengths are below 2^32 |
| Cbor.WrittenIff | verifier/evidence-qingtian.ts:371-425 | and everything else that fits 32-bit heads can be written for the decoder |
| Cbor.RoundTrip | verifier/evidence-qingtian.ts:443-457 | decoding an encoding followed by anything gives the value at the encoding's length |
| Cbor.PrefixFree | verifier/evidence-qingtian.ts:443-457 | no encoding is the beginning of another, so encodings are injective |
| Der.BuildLength | verifier/evidence-qingtian.ts:332-341 | the length loop collects the octets of the specification, with 32-bit shifts |
| Der.LengthRoundTrip | verifier/evidence-qingtian.ts:332-341 | a length is read back in shortest form iff it is below 2^31 |
| Der.LengthIsEncoded | verifier/evidence-qingtian.ts:332-341 | whatever a strict reader takes for a length below 2^31 is the encoding of it |
| Der.ContentIsMinimal | verifier/evidence-qingtian.ts:320-325 | the content keeps the unsigned value, is non-negative and has no redundant octet (section 8.3 of ITU-T X.690) |
| Der.MinimalIsUnique | verifier/evidence-qingtian.ts:319-330 | and there is one minimal content for a number |
| Der.IntegerRoundTrip | verifier/evidence-qingtian.ts:320-325 | an INTEGER is read back with what follows it |
| Der.RawEcdsaToDer | verifier/evidence-qingtian.ts:315-318 | a strict reader gets the two unsigned halves back from the result iff both are non-empty and the sequence is shorter than 2^31 |
| Der.SignatureRoundTrip | verifier/evidence-qingtian.ts:315-341 | reading the signature back gives exactly the two unsigned halves iff both are non-empty and the sequence is shorter than 2^31 |
| BraceSpans.FindJsonEnvelopeSpans | verifier/tee-verify-core.ts:591-624 | the loop with stack and flags finds the outermost matched pairs of the scan |
| BraceSpans.OutermostSpans | verifier/tee-verify-core.ts:626-636 | the sweep over the sorted spans, by the end covered so far |
| BraceSpans.MatchedIsLaminar | verifier/tee-verify-core.ts:591-624 | any two matched pairs are disjoint or nested, and inside the capture |
| BraceSpans.SortSorts | verifier/tee-verify-core.ts:627 | the order of the sort is by start and then by length, and it is a permutation |
| BraceSpans.SweepIsOutermost | verifier/tee-verify-core.ts:626-636 | the sweep of an ordered laminar family is disjoint and covers every member |
| BraceSpans.OutermostIsOutermost | verifier/tee-verify-core.ts:591-636 | the returned spans are sorted, disjoint, matched pairs, maximal, and every matched pair lies in exactly one |
| BraceSpans.ObjectIsFound | verifier/tee-verify-core.ts:591-636 | an object after quote-free text, even with unmatched braces, and before plain text is returned as one span |
| EnvelopeObjects.ObjectIsBalanced | verifier/tee-verify-core.ts:596-620 | the printed text of every JSON object is braces around balanced content, whatever its strings hold |
| EnvelopeObjects.PrintedObjectIsFound | verifier/tee-verify-core.ts:580-589 | a printed object in such a capture is cut out exactly |
| Stripping.RemoveKeepalives | verifier/tee-verify-core.ts:886-914 | the keepalive loop computes the stripping specification |
| Stripping.RemoveBlankLines | verifier/tee-verify-core.ts:864-884 | so does the blank-line loop |
| Stripping.ConsumeBlankLine | verifier/tee-verify-core.ts:916-922 | one blank line, spaces and tabs included, or none |
| Stripping.StripIs | verifier/tee-verify-core.ts:886-914 | the fewest runs whose removal reaches the signed digest are removed; if there are none, nothing |
| Stripping.KeepalivesAreSafe | verifier/tee-verify-core.ts:886-914 | on every input, markers plus kept bytes are the input, and bytes are removed only to reach the signed digest, the longest such remainder |
| Stripping.BlankLinesAreSafe | verifier/tee-verify-core.ts:864-884 | only blank octets are removed, and only to reach the signed digest |
| Stripping.KeepalivesComeOff | verifier/tee-verify-core.ts:886-914 | any number of markers in front of a signed body is removed exactly iff the hash tells the body from the longer candidates |
| Stripping.BlankLinesComeOff | verifier/tee-verify-core.ts:870-890 | the same for blank lines, of any blanks and either line ending |
| Stripping.ExpectedIff | verifier/tee-verify-core.ts:874-877 | the signed digest is a text of 64 hexadecimal digits in either case, taken in lower case |
| ProofEvent.ParseTeeProofEvent | verifier/tee-verify-core.ts:474-492 | without a proof the input comes back untouched; with one the input is markers, the returned body and the event the proof was read from, and markers are removed only from a body with the signed digest |
| ProofEvent.ParseIsConservative | verifier/tee-verify-core.ts:474-492 | on every input, without a proof nothing is touched, and with one the input is markers, body and one well-formed last event |
| ProofEvent.EventIsFound | verifier/tee-verify-core.ts:476-483 | an appended event is found behind any bytes, marker lines in them included |
| ProofEvent.MatchIff | verifier/tee-verify-core.ts:474-498 | a block is matched exactly when it is the marker line, one data line, an empty line and white space, with either line ending each time |
| ProofEvent.CaptureParsesBack | verifier/tee-verify-core.ts:474-492 | keepalives, any body and an event with its digest parse back to exactly that body, proof and count iff the hash does not confuse the candidates |
| ProofEvent.OtherDigestsLeaveTheBody | verifier/tee-verify-core.ts:886-914 | an event with another digest is cut off and the bytes before it stay whole |
| Holdback.Forwarder.OnData | verifier/tee-verify-proxy.ts:194-201 | the client has all but the last held-back bytes |
| Holdback.Forwarder.OnEnd | verifier/tee-verify-proxy.ts:202-214 | the rest of the parsed body is written, whatever was forwarded before |
| Holdback.Forward | verifier/tee-verify-proxy.ts:190-215 | for every cut, what the client has after each piece and at the end depends on the joined stream only |
| Holdback.WithoutProofWhole | verifier/tee-verify-proxy.ts:202-214 | a stream without a proof comes out whole under every holdback iff it is valid UTF-8 |
| Holdback.ExactIffEventFits | verifier/tee-verify-proxy.ts:190-215 | for valid UTF-8 and no keepalives removed, the client gets exactly the body iff the proof event fits in the holdback, and then never more than the body at any moment |
| Holdback.BodyComesThrough | verifier/tee-verify-proxy.ts:190-215 | any pieces of body and event whose event fits: exactly the body |
| Holdback.ExactIffPrefix | verifier/tee-verify-proxy.ts:194-214 | for every stream and holdback the client gets exactly the body iff what was forwarded before the end is a beginning of it |
| Holdback.KeepalivesSpoilUnless | verifier/tee-verify-proxy.ts:194-214 | with keepalives removed it is exact iff forwarding stopped within the body and the body begins like the markers in front of it |
| Holdback.KeepalivesShiftTheBody | verifier/tee-verify-proxy.ts:194-214 | after forwarded keepalives the client gets the markers and the body without as many octets in the middle |
| Holdback.StreamExists | verifier/tee-verify-proxy.ts:194-214 | for every text body and number of keepalives there is a stream from which exactly those are removed |
| Holdback.SpoiledStream | verifier/tee-verify-proxy.ts:194-214 | a stream with one keepalive that every holdback below its length spoils |
| Multipart.MultipartContentLength | verifier/tee-verify-core.ts:825-833 | the first header line that states a length, in any case and spacing |
| Multipart.FirstMultipartBoundary | verifier/tee-verify-core.ts:746-763 | the first line that starts with two dashes and does not end with them |
| Multipart.ReadMultipartPart | verifier/tee-verify-core.ts:776-815 | the part is cut by its length if that lands before a boundary line, else by one search for the next boundary line, CR excluded |
| Multipart.TwoSearches | verifier/tee-verify-core.ts:795-806 | the two searches, behind CRLF and behind LF, amount to one |
| MultipartShape.PartIs | verifier/tee-verify-core.ts:776-815 | whatever is read as a part is headers, the first empty line, the body and a line ending in front of the boundary; the body has the stated length or holds no earlier boundary line |
| MultipartShape.TwoPartsAre | verifier/tee-verify-core.ts:512-546 | whatever is accepted as two parts is two parts octet for octet, and gives the body of the first and the proof in the second |
| MultipartShape.TailIs | verifier/tee-verify-core.ts:548-570 | whatever is accepted as a raw body and a proof part is blank lines that were removed, the body, a line ending and one proof part |
| MultipartRoundTrip.EndIffHonest | verifier/tee-verify-core.ts:776-815 | a body is cut exactly iff its length is honest: true, or not landing elsewhere while the body holds no boundary line |
| MultipartRoundTrip.PartBack | verifier/tee-verify-core.ts:776-823 | the same for a whole part behind its header block |
| MultipartRoundTrip.StaleLengthsAreHarmless | verifier/tee-verify-core.ts:784-793 | a missing length, one that is too short and one beyond the capture do no harm to a body without boundary lines |
| MultipartRoundTrip.OneTooLongMisleads | verifier/tee-verify-core.ts:784-793 | a length that is one too long always yields the body and a CR |
| MultipartRoundTrip.CaptureParsesBack | verifier/tee-verify-core.ts:512-546 | a two-part capture with honest lengths parses back to exactly the body and the proof, with a declared boundary or one read from the first line |
| MultipartRoundTrip.CorrectLengthsParseBack | verifier/tee-verify-core.ts:512-546 | with correct lengths that holds for every body and every proof, boundary lines in them included |
| MultipartRoundTrip.HeaderLinesWork | verifier/tee-verify-core.ts:817-833 | header lines joined by CRLF are one block and their first length line is the length |
| MultipartRoundTrip.TailParsesBack | verifier/tee-verify-core.ts:548-570 | a raw body followed by one proof part comes back, leading blank lines removed only to reach the signed digest |

## Left out

- TLS back ends, the HTTP/2 client, vsock and TCP sockets, the attestation devices, the Go adapter and the helper daemon: foreign calls and I/O. An upstream connection is a class whose reads return any non-empty part of what is to come, or a fault.
- SHA-256, Ed25519, ECDSA and certificate chains: the hash is a parameter, and a signature check verifies only what was signed.
- The other protocols' aggregators: the same fold pattern. The collector is modelled for the OpenAI chat protocol.
- Command lines, browser pages, trust files, environment parsing, log and error texts, metric averages, detection tables and required-presence tables.
- `parseTeeProofJsonEnvelopeObject`, `stripHttpResponseEnvelope` and the body content type of a multipart part: not part of this model.
- The order in which the capture parsers are tried, and the verifier's profile-specific evidence checks.
- SseStream.SseEventParser.Push: events are a returned list instead of callback calls, which keeps their order but not the moment of each call.
- ChatFold.AggregateStream: the source repeats the loop body of the incremental state; here it calls that state.
- ChatFold.OpenAiChatStreamState.Apply: the update of one choice is a method of its own, `MergeChoice`.
- ToolCalls.CallsAreDeclared: pieces without an index or behind a gap have only the fold itself as their description.
- EnvelopeObjects.PrintedObjectIsFound: states it for printed objects; for other layouts of JSON text `BraceSpans.ObjectIsFound` asks that the content be balanced.
- ChatFoldTs.AggregateOpenAIChatStream: a choice index that is not an integer counts as absent, integers beyond 2^53 are exact, and in a tool-call piece that holds both `__proto__` and `function` the inherited function is not seen, since objects here have no order of keys.
- ChatFoldTs.ViewsAgreeIff: indices read differently and prototypes are outside the domain; `MissingIndexIff`, `CallAgreesIff` and `NonListIff` say what they do in one step.
- CanonicalJson.CanonicalIsInjective: a floating-point number is represented by one text for both printers, so the conversion and the differences in writing exponents are not modelled.
- Statement.DigestCheckSuffices: lower and upper casing of host and method are parameters that are idempotent and never produce a line feed.
- Acceptance.VerifyWireEnvelope: a complaint is represented by the field it is about; a JavaScript number with an integral value is an integer here, however it was written.
- Acceptance.AcceptedClaimsAreGenuine: strings of the verifier may hold lone surrogates, which UTF-8 printing folds to U+FFFD; strings here are Unicode scalar values.
- FieldProof.VerifyFieldClaims: the protocol table, the required-presence table and the views of the other protocols are parameters; so are the evidence, profile, nonce and host checks of `VerifyTeeExchange`.
- FieldProof.UntouchedChatPassesIff: both sides are given the same JSON parser, so number texts that Rust and JavaScript read differently are not covered.
- VerifierReading.EventsAgree: a bare CR at the very end is left out of the domain also where its line is no data line.
- ChunkedCoding.BodyWithinLimit: the decoder of the whole stream stops at a size for which the 64-bit count of the source wraps; `ChunkedRun.Run` goes on.
- HttpStream.StreamChunked: reads may fail at any time, and a frame write that fails emits nothing.
- Observation.Serve: a caught panic, after which no error frame is written, is not modelled.
- Observation.Handle: sending the request, header parsing and the two JSON payloads are parameters.
- GenuineProof.TrailerSays: the trailer of the helper daemon back end is written by that daemon and not modelled.
- WorkerPool.RunKeeps: steps are sequentially consistent atomic operations; reordering of relaxed operations on different counters, 64-bit wrap of the totals, the mutex around the receiver and a disconnected channel are not modelled.
- TlsProfile.Decode: error values are kinds without their texts.
- AwsEventStream.AwsEventStreamParser.Push: the unreachable branch for a payload that starts behind its end is left out.
- Cbor.DecodeCbor: the array and map loops are methods of their own, and values of keys that are containers are never equal, as object identity is not modelled.
- BraceSpans.ObjectIsFound: text with quotes before the object can open a string for the scan, and nothing is claimed then.
- ProofEvent.CaptureParsesBack: the data line is the text of a JSON object, that is, it ends with a closing brace.
- Multipart.ReadMultipartPart: a length beyond 2^53 is exact here; the source rounds it, but either way it lies beyond any buffer.
- MultipartRoundTrip.TailParsesBack: which headers declare a proof part is a parameter, and the body has no line that starts with two dashes, since the first such line is taken for the boundary.
- Holdback.Forward: back pressure and connection errors of the client are not modelled.
