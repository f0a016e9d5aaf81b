# A verified model of the sofa-buffers Go core

The Go core library encodes and decodes messages of tagged fields: unsigned and signed
varints, floats, strings, blobs, native arrays and nested sequences. It has a decoder that
is fed chunks and may suspend at any byte, an encoder that writes through a bounded buffer
in three drain disciplines, and helpers that rebuild payloads and arrays from the decoder's
callbacks. This project models the four components and proves what joins them.

## How it is built

Every component appears twice. A definition on values says what is meant; a class with the
source's own fields and loops is proved to do it; and the theorems are about the definition,
so they hold of the class.

| files | what they hold |
|---|---|
| `Wire`, `Varint` | bytes, ceilings, base-128 varints, the unrolled reader and writer, zigzag |
| `Machine` | the decoder as a machine that takes one byte (`Step`) or one chunk (`Chunk`) |
| `FastPaths`, `Decoder` | the fast paths, and the class `Decoder`, which refines `Chunk` call by call |
| `Grammar`, `Declining`, `Completion` | whole runs: the language of callbacks, declined subtrees, honest verdicts |
| `Chunking`, `Heard`, `Patience`, `Frames` | whole runs: what a decode asks its visitors, and when the cutting of its bytes can be told |
| `Serializer` | call traces, the trees they build, pruning, and the bytes of a tree |
| `Encoder`, `Messages` | the class `Encoder` over a buffer, and whole encodes with it |
| `RoundTrip`, `EndToEnd` | decoding what was encoded |
| `Spelling`, `Spelled` | the wire format written down a second time, as a reader of bytes with its numbers spelled out, and the proof that decoder and encoder agree with it |
| `Payload`, `Blobs` | reassembly of payloads, and the blob collector on top of it |
| `Placement`, `Storage`, `Matrix`, `MatrixRuns` | id-keyed placement, reused storage, the matrix collectors over whole decodes |

Conventions of the model:

* A visitor is a handle, and all visitors of a decode together are a `Policy`: a function
  of the history of callbacks that says what the last call answers. So it may accept, refuse
  or decline anything, at any point. A visitor that is asked for a child may return `Nil`.
* Bytes are integers below 256. The source ORs 7-bit groups that never overlap; the model
  adds them, and `Partial.Fits` is the bound that keeps them apart. Shifts, masks and the
  complement of a 64-bit word are written out (`ZigzagWord`, `Narrow`).
* Floats are 4- and 8-byte patterns.
* A writer and a sink are functions of the call number and the bytes, and for a sink of the
  size of its buffer: they may take them, fail, and, for a sink, leave behind the same buffer,
  the same buffer re-armed at an offset, or another buffer of any size at any offset. One that
  never fails and leaves only acceptable buffers is `Willing`. Every write that fails on an
  encoder with a writer or a sink fails with the answer to its last flush, and none fails over
  a willing one: that is part of `Wrote` and `Ledger`, and so of every write's contract.
* Collector storage is explicit: a slice is nil or a prefix of a numbered backing array, so
  that two slices on one array are visibly the same array.

Main results, each for all inputs:

* `Messages.Transfer`: any balanced calls, through a sink or a writer with any buffers it
  accepts, cut in any pieces on the way, arrive as exactly the callbacks of the pruned tree;
  over a willing downstream, without fail.
* `Decoder.Decoder.Feed` with `Patience.InvariantIffPatient`: the cutting of the bytes can be
  told if and only if some visitor refuses an unfinished payload or answers by the cuts.
* `Messages.EncodeInto`: a sink-less encode succeeds exactly when the message fits.
* `Serializer.LazyFramingIsPruning`: holding headers back is pruning the tree.
* `Serializer.AcceptedExactly`: which calls an encoder accepts, stated from the calls alone.
* `Spelled.OutcomeIsSpelled`: for any visitors and any cutting, unless a visitor's error ends
  the decode, it is Complete, Incomplete or Invalid exactly as the bytes spell a message, end
  too soon, or spell nothing. `Spelling` knows neither machine nor encoder.
* `Spelled.MessageIsSpelled`, `Spelled.CallbacksAreSpelled`: what is encoded spells the pruned
  tree; what is reported is the tree the bytes spell.
* `Grammar.EventGrammar`: the language of callbacks.
* `Completion.HonestVerdict`: which Incomplete decodes can still end Complete, exactly.
* `Payload.PayloadsReassemble`, `Blobs.BlobsOfADecode`, `MatrixRuns.MatrixOfADecode`,
  `MatrixRuns.ReuseIsFresh`: what a destination holds after any decode.

## Where the code and its documentation differ

* "The first error sticks" is not true of `Bytes`: it copies a staged tail out without
  looking at the error already held, and a tail that does not fit overwrites it
  (encoder.go:288-292, 469-478). `Messages.BytesOverwritesAnError` is such a case: a field
  into an empty buffer, an id out of range, and then the bytes. The contract of `Encoder.Encoder.GetBytes` says exactly when it happens: on a staged encoder
  whose bytes exceed what the buffer holds behind its offset, and never otherwise.
* A half-read header, word or count varint can be beyond repair while the outcome is still
  Incomplete; the decoder judges a varint only when it ends. `Completion.Doomed` is the exact
  condition, in terms of the accumulator.
* A visitor that refuses single pieces of a payload can tell how a message was cut
  (`Chunking.ImpatienceSeesTheCut`). `Patience.Patient` is the exact condition: on every history
  a decode brings about, the visitors answer as they would had the bytes come one by one, and
  refuse no payload that is not complete. `Blobs.CollectorIsPatient` shows the blob collector
  to be such a visitor.
* doc.go:200-220 shows callback signatures of an earlier version; the model follows
  visitor.go:37-158. varint.go:22 names a bulk decoder that does not exist. encoder.go:348-350
  and 363 speak of growing a window that never grows.

## Model

| member | source | states |
|---|---|---|
| Wire.ReadVarintBounds | istream.go:306-326 | a varint suspended after any bytes has at most nine of them and a value below 2^(7nb); a finished one is a 64-bit value |
| Wire.ReadLeb | istream.go:306-326 | resumed anywhere, the reader gives back the value of a minimal encoding and leaves what follows alone |
| Wire.LittleEndian4 | istream.go:798-826 | the four bytes of a float are its pattern, the least significant first, as an explicit sum |
| Wire.LittleEndian8 | istream.go:798-826 | the same for eight bytes |
| Wire.LittleEndianBytes | encoder.go:738-762 | the bytes written for a float are the digits of its pattern, the least significant first |
| Varint.UvarintFastReads | varint.go:121-179 | the unrolled reader and the byte-wise one agree on value, length and rejection for every ten bytes, non-minimal spellings included |
| Varint.MalformedExactly | varint.go:171-178 | a varint is refused exactly when nine continuation bytes are followed by a tenth byte above 1 |
| Varint.LebWhole | varint.go:42-43 | the minimal form ends where it says and denotes its value |
| Varint.LebMinimal | varint.go:42-43 | any other spelling of a value is strictly longer |
| Varint.LebLength64 | varint.go:29-31 | no 64-bit value needs more than ten bytes |
| Varint.PutUvarint | varint.go:44-106 | the unrolled writer stores exactly the minimal form at its position and touches no other byte |
| Varint.ZigzagWords | types.go:151-155 | the shift-and-xor forms on 64-bit words compute the zigzag map and its inverse |
| Varint.ZigzagInverse | types.go:151-155 | zigzag is a bijection between 64-bit signed and unsigned values |
| Machine.StepFits | istream.go:95-145 | every byte keeps the bounds of the partial varint, ids, counts, float fill, stack and depth |
| FastPaths.VarintChunk | istream.go:328-355 | reading a whole varint out of a chunk and acting on it is the byte-at-a-time decode of those bytes |
| FastPaths.FloatChunk | istream.go:798-826 | a float read straight out of the chunk is the one assembled byte by byte |
| FastPaths.ArrFloatChunk | istream.go:586-620 | the same for one element of a float array, delivered or declined |
| FastPaths.DeclinedFloats | istream.go:586-595 | jumping over declined float elements by width is reading each of them |
| Decoder.Decoder.constructor | istream.go:154-173 | a new decoder is the machine at the start of a message, for any visitor, nil included |
| Decoder.Decoder.Reset | istream.go:160-179 | from any state, mid-field or invalid, whatever stale fields remain, the decoder is a new one on the given visitor, nil included |
| Decoder.Decoder.VarintResume | istream.go:300-326 | the resumable reader updates accumulator, shift and count exactly as the varint definition does, through any suspension |
| Decoder.Decoder.ReadVarintSlow | istream.go:328-355 | whichever of the two readers runs, the value, position and error are those of the definition |
| Decoder.Decoder.NextVarint | istream.go:363-372 | the single-byte fast path in front of it changes nothing |
| Decoder.Decoder.OpenSequence | istream.go:651-675 | nesting bound, decline and error of BeginSequence, with the visitor stack, the skip mark and the cached visitor in step |
| Decoder.Decoder.CloseSequence | istream.go:677-701 | an unmatched end is refused; EndSequence goes to the visitor of the scope, and to none for a declined one |
| Decoder.Decoder.FixlenWord | istream.go:703-766 | the word is judged before any payload; string policy once per scope; an empty payload is delivered at once |
| Decoder.Decoder.FpStep | istream.go:798-826 | direct load and landing zone give the same bits, at any split |
| Decoder.Decoder.PayloadPiece | istream.go:452-472 | a piece is what the chunk still holds of the payload, at the offset reached |
| Decoder.Decoder.ArrayCount | istream.go:828-853 | the count is judged, and an integer array announced, as the machine does |
| Decoder.Decoder.AnnounceArray | istream.go:855-876 | ArrayBegin, and ArrayEnd at once for an empty array; neither while declined |
| Decoder.Decoder.FixlenArrayWord | istream.go:878-899 | only the two float words are accepted, and they name the kind |
| Decoder.Decoder.ArrayElements | istream.go:527-581 | the two element loops, delivering and skipping, leave the machine's state for the bytes consumed |
| Decoder.Decoder.ArrayFloats | istream.go:583-620 | the float loops, with the declined jump, leave the machine's state for the bytes consumed |
| Decoder.Decoder.Feed | istream.go:198-222 | feeding a chunk is the machine's step on it; the outcome is that of the new state and the error is non-nil exactly when it is Invalid |
| Spelled.MessageWalks | istream.go:357-525 | whatever the visitors: bytes that spell a message take them through its tree, refusals and declines included, and no others end a decode Complete |
| Spelled.VerdictIsSpelled | istream.go:181-193 | with visitors that refuse nothing, in any cutting: Complete, Incomplete or Invalid exactly when the bytes spell a message, end too soon, or spell nothing; Invalid is then malformed bytes |
| Spelled.OutcomeIsSpelled | istream.go:198-222 | for any visitors and any cutting: if the last callback returned an error, Invalid with that very error; else the bytes alone decide the outcome |
| Spelled.CallbacksAreSpelled | visitor.go:14-24 | the joined callbacks of a whole message, in any pieces, are those of the tree its bytes spell |
| Heard.ErrorIsTheRefusal | istream.go:204-210 | a visitor's error ends the decode at once and is the decode's error unaltered; every other failure is malformed bytes |
| Heard.FeedsAsk | istream.go:357-525 | every callback of a decode was answered, every answer but the last let it go on, and visitors that answer its histories alike get the same decode |
| Patience.ChunkInvariance | istream.go:198-222 | for patient visitors, from every state, two ways of cutting the same bytes give the same state, outcome, error and joined callbacks |
| Patience.InvariantIffPatient | istream.go:198-222 | no two cuttings of any bytes can be told apart by callbacks, outcome or error if and only if the visitors are patient |
| Frames.ToleranceIgnoresCuts | istream.go:181-193 | visitors that never refuse may answer by the cuts as they please: phase, depth and outcome are those of the bytes |
| Chunking.ImpatienceSeesTheCut | istream.go:452-472 | a visitor that refuses one-byte pieces ends one cutting Complete and another Invalid |
| Grammar.EventGrammar | visitor.go:37-158 | for any bytes, chunks and visitors the callbacks are a prefix of the language: announced fields, contiguous pieces adding up, exactly count elements in index order, scopes closed on the visitor opened and at most 255 deep, string policy once per scope and before its first string, ids and values in range |
| Declining.DecliningIsIgnoring | istream.go:651-701 | returning nil for a scope gives the outcome, error and other callbacks of a child that does nothing, and no callback under the declined scope |
| Completion.HonestVerdict | istream.go:181-193 | with visitors that never refuse, some bytes lead to Complete if and only if no half-read varint is already beyond repair |
| Completion.DoomedChunk | istream.go:374-380 | a doomed decode stays doomed, or fails, on every further chunk |
| Completion.InvalidIsTerminal | istream.go:283-291 | once Invalid, every further feed returns the same state: same error, no further callback |
| Serializer.PruneIsExact | encoder.go:873-881 | pruning leaves no contentless frame that was not asked to be kept, and loses no field, no kept frame and no frame around one |
| Serializer.LazyFramingIsPruning | encoder.go:58-69 | on every error-free call trace the output is the pruned tree as far as its open scopes have content, and the pending ids are exactly the innermost open scopes not on the wire |
| Serializer.BalancedOutput | encoder.go:837-856 | a balanced trace emits exactly the bytes of its pruned tree, with nothing pending |
| Serializer.AcceptedExactly | encoder.go:857-906 | calls are accepted if and only if every id is at most 2147483647, no payload or array is longer, every string is admitted, and at every point the begins less the ends lie between 0 and the nesting bound; else the error is an argument error; the depth is the balance |
| Serializer.EmptyVanishes | encoder.go:885-891 | a sequence begun and ended leaves the encoder as it was, in any state that accepts the begin |
| Serializer.EmptyKept | encoder.go:932-948 | begun and ended with keep, its header, behind the held ones, and the end marker are out |
| Serializer.NumbersOnTheWire | types.go:28-37 | the bytes of an integer field with a one-byte header: tag 0 or 1, then the value |
| Serializer.FloatOnTheWire | types.go:46-60 | a float field: tag 2, the word 0x20 or 0x41, the bytes least significant first |
| Serializer.FloatArrayOnTheWire | types.go:28-37 | a float array: tag 5, the count, the word once, the elements |
| Serializer.PayloadsOnTheWire | types.go:46-60 | a string or blob field: tag 2, the length with subtype 2 or 3, the bytes |
| Serializer.ArraysOnTheWire | types.go:28-37 | integer arrays: tag 3 or 4, the count, the elements |
| Spelled.TreeIsSpelled | encoder.go:10-29 | the bytes of every tree an encoder may write spell that tree, alone or inside a scope |
| Spelled.MessageIsSpelled | encoder.go:837-856 | what accepted, balanced calls emit spells their pruned tree |
| Encoder.FillWords | encoder.go:1000-1080 | the advancing-window loop writes the minimal forms of the elements it consumed and stops only when done or out of window |
| Encoder.FillFloats | encoder.go:1181-1194 | the same for fixed-width elements |
| Encoder.Encoder.PutVarintFit | encoder.go:610-635 | a varint goes out minimal into room already reserved, one byte or ten |
| Encoder.Encoder.SetBuffer | encoder.go:251-278 | what is refused and with which error; an accepted installation starts empty at its own offset and ends any staged tail; a refused one changes no buffer |
| Encoder.Encoder.Drain | encoder.go:395-439 | the bytes since the installation go downstream, once; the result is exactly the answer to them; on success none are left behind and the cursor is where the hand-over puts it |
| Encoder.Encoder.CallWriter | encoder.go:414-421 | the error is exactly the writer's answer to the bytes; on success they are downstream and the window is empty |
| Encoder.Encoder.CallSink | encoder.go:427-438 | the error is the sink's own verdict, or an argument error exactly for a buffer that cannot be installed; a sink that copied, re-armed or replaced the buffer leaves exactly that buffer and offset |
| Encoder.Encoder.Stage | encoder.go:441-464 | a sink-less buffer short of reserved room loses nothing, and fails only when the bytes emitted exceed what it can hold |
| Encoder.Encoder.Spill | encoder.go:466-478 | the staged bytes are copied out if and only if they fit; otherwise the error is the full buffer and nothing moves |
| Encoder.Encoder.Room | encoder.go:348-361 | a reservation of up to 20 bytes fails only with an error held, with what downstream just answered, or on a staged buffer that is too small; nothing emitted changes |
| Encoder.Encoder.MakeRoom | encoder.go:363-393 | with a writer or a sink the only error is downstream's answer to the bytes just handed over, so the full-buffer error at line 391 is never this encoder's own |
| Encoder.Encoder.PutRawSlow | encoder.go:511-536 | a payload is written whole through any buffer, always so over a willing downstream, or a prefix of it and the error; the loop ends |
| Encoder.Encoder.CommitPending | encoder.go:637-649 | the held headers go out outermost first, and none is held afterwards |
| Encoder.Encoder.WriteHeaderRoom | encoder.go:560-586 | a header behind the held ones, with the asked bytes and the unused part of its own ten reserved |
| Encoder.Encoder.WriteHeaderSlow | encoder.go:588-608 | an id out of range is an argument error and not a byte |
| Encoder.Encoder.WriteUnsigned | encoder.go:651-657 | the call is `Serializer.Apply`; else a prefix of it and the error, only if the buffer is too small or downstream is not willing; never on the first reservation of a sink-less buffer |
| Encoder.Encoder.WriteSigned | encoder.go:659-665 | the same, of the zigzag value |
| Encoder.Encoder.WriteBool | encoder.go:667-673 | the same, of 0 or 1 |
| Encoder.Encoder.WriteString | encoder.go:764-795 | the same; a string too long or not admitted is an argument error and not a byte |
| Encoder.Encoder.WriteBytes | encoder.go:831-835 | the same for a blob |
| Encoder.Encoder.WriteFixlen | encoder.go:708-720 | header, word and payload behind the held headers, or an argument error and not a byte |
| Encoder.Encoder.WriteFloat | encoder.go:738-762 | the same for a float of either width, in one reservation of at most 19 bytes |
| Encoder.Encoder.PutRun | encoder.go:978-1080 | drain and refill until every element is out, in order; each refill makes progress |
| Encoder.Encoder.WriteUnsignedArray | encoder.go:950-962 | the call is `Serializer.Apply`; an array past the ceiling is an argument error and not a byte |
| Encoder.Encoder.WriteSignedArray | encoder.go:964-976 | the same, each element zigzagged |
| Encoder.Encoder.PutFloatArray | encoder.go:1165-1196 | sixteen reserved bytes cover the header, the ten bytes the count's store may touch and the word |
| Encoder.Encoder.WriteFloatArray | encoder.go:1165-1229 | the call is `Serializer.Apply`, for either width |
| Encoder.Encoder.WriteSequenceBeginLazy | encoder.go:837-871 | the call is `Serializer.Apply`: an id held and a level opened, or an argument error |
| Encoder.Encoder.WriteSequenceEnd | encoder.go:873-906 | the call is `Serializer.Apply`: a held sequence vanishes, another is closed, none open is an argument error |
| Encoder.Encoder.WriteSequenceEndKeep | encoder.go:908-948 | the call is `Serializer.Apply`: held headers and the end marker, even when empty |
| Encoder.Encoder.GetBytes | encoder.go:280-294 | the emitted bytes, in place in the caller's buffer with every other byte as installed; the error changes if and only if a staged tail does not fit |
| Encoder.Encoder.Flush | encoder.go:299-316 | without a sink, the full-buffer error exactly when the bytes do not fit; else exactly downstream's answer, and on success everything emitted is downstream |
| Encoder.WelcomeExactly | encoder.go:251-278 | the buffers a sink may leave behind: 20 bytes from an offset that is not negative |
| Encoder.NewEncoder | encoder.go:186-206 | an empty encoding over a window of its own of 512 bytes, nested no deeper than asked, or than 255 |
| Encoder.NewEncoderBuffer | encoder.go:208-225 | an empty encoding, or an argument error exactly when the offset lies outside the buffer |
| Encoder.NewEncoderSink | encoder.go:227-241 | an empty encoding, or an argument error exactly when the buffer has fewer than 20 usable bytes or the offset lies outside it |
| Messages.WriteAll | encoder.go:10-29 | after any calls the encoder is where an endless one is, or stopped with a prefix of its output, for its argument error, or because the buffer is too small or an unwilling downstream refused |
| Messages.EncodeInto | encoder.go:208-225 | a sink-less encode succeeds exactly when its calls are acceptable and the message fits behind the offset; the result is the message, or a prefix, and acceptable calls fail only with the full-buffer error; every other byte of the buffer is unchanged |
| Messages.Send | encoder.go:227-235 | a message flushed without error has handed downstream exactly the reference bytes, for any buffers, offsets and hand-overs; with one, a prefix; a balanced message's bytes spell its pruned tree; over a willing downstream the error is none for acceptable calls and an argument error for all others |
| Messages.BytesOverwritesAnError | encoder.go:284-294 | three public calls after which `Bytes` has turned a recorded argument error into a full buffer |
| Messages.Transfer | encoder.go:10-29 | from the encoder to the decoder: an error-free send of a balanced trace ends Complete with the callbacks of the pruned tree, and over a willing downstream every acceptable trace is sent error-free |
| RoundTrip.EventsInOrder | visitor.go:14-24 | an array is its elements, each with its index and value in order, between its two ends |
| RoundTrip.FieldDecodes | istream.go:357-525 | decoding a field's bytes makes the field's callbacks, on a visitor that may refuse any of them, and goes on behind it |
| RoundTrip.TreeDecodes | istream.go:357-525 | decoding a tree's bytes is walking the tree with the visitors, refusals and declined subtrees included |
| EndToEnd.EncoderDecoderCoupling | encoder.go:53-69 | after any error-free calls, balanced or not, the bytes so far, in any pieces, decode without error to depth minus pending open levels, Complete exactly when that is 0 |
| EndToEnd.Delivered | istream.go:198-222 | a balanced message in any pieces leaves any patient visitor where walking the pruned tree leaves it |
| EndToEnd.MessageRoundTrip | encoder.go:837-856 | an accepting decoder, fed a balanced message in any pieces, ends Complete with exactly the pruned tree's callbacks |
| Payload.PayloadAcc.Take | payload.go:75-107 | one chunk, as `Taken` defines it, with its refusals |
| Payload.PayloadAcc.Reset | payload.go:109-116 | nothing is carried over |
| Payload.NeverASplice | payload.go:59-64 | whatever the caller does, a payload handed out is the announced prefix of a contiguous run of the latest chunks, all announcing that length |
| Payload.ContiguousCompletes | payload.go:75-107 | whatever came before, a contiguous run is held while it is shorter than announced and handed out by the chunk that makes it long enough |
| Payload.OthersAreDropped | payload.go:53-59 | a chunk that is out of place, or of another length, is dropped with all that is held |
| Payload.PayloadsReassemble | payload.go:16-35 | over any decode and cutting, from any left-over state, the payloads handed out are in order exactly those delivered whole |
| Payload.CompletesOnTheLastPiece | payload.go:54-57 | a payload completes on its last piece and on no other |
| Placement.LengthBound | collectors.go:137-151 | a length, 0 included, is refused exactly past the schema's bound (invalid), past the cap where the schema is silent (limit), and always where neither is stated (argument) |
| Placement.IndexBound | collectors.go:117-131 | an index is refused, for the same reason, exactly when the length it implies is |
| Placement.PlacementOverRuns | collectors.go:28-34 | after any deliveries the length is the larger of the initial one and highest id + 1, a slot holds its last delivery, an untouched one what it held, a gap the default |
| Placement.NeverPastTheBound | collectors.go:50-60 | deliveries that passed the bound never make the array longer than it |
| Storage.Store.Grow | collectors.go:904-920 | the slots asked for exist, new ones are nil, old ones untouched, and what is returned is stored nowhere else |
| Storage.Store.ReserveRows | collectors.go:862-876 | making room changes no content |
| Storage.Store.PlaceRow | collectors.go:477-501 | the bound first, and then exactly the placement at the id; no two slots share storage |
| Storage.Store.OpenRow | collectors.go:416-456 | a row that arrives again is replaced, an opened one is never nil, a refused one changes nothing |
| Storage.Store.ReuseSlice | collectors.go:922-941 | an empty slice with the room asked for, over the old storage exactly when that has it |
| Storage.Store.ReuseBytes | collectors.go:943-963 | a copy, in the old storage when it fits; nil for an empty source |
| Storage.Store.PutBlob | collectors.go:308-319 | a finished blob is placed at its id and no other slot changes, whichever storage it lands in |
| Matrix.NarrowedExactly | collectors.go:566-575 | a value the range check let through is stored as the wire carried it |
| Matrix.RefusedExactly | collectors.go:560-575 | at the full declared width a value is refused if and only if storing it would change it |
| Matrix.RefusalEdges | collectors.go:614-621 | the bounds themselves pass, their neighbours do not, a zero bound refuses nothing |
| Matrix.ListensTo | collectors.go:596-621 | each element type takes its own callback and arrays of its own kind only |
| Matrix.OnlyAnEndPlaces | collectors.go:543-551 | a row that fails on the way and a declined row leave every placed row as it was |
| Matrix.MatrixSeq.ArrayBegin | collectors.go:596-612 | another kind is declined unmeasured; the row's own kind is taken exactly within both bounds, an index out of bounds being reported first |
| Matrix.MatrixSeq.ArrayValue | collectors.go:614-621 | a value past the declared width is refused before it is narrowed; the destination does not change while a row is built, whatever storage it is built over |
| Matrix.MatrixSeq.ArrayEnd | collectors.go:623-633 | an accepted row is placed, never nil; a declined one is not, and clears the latch |
| MatrixRuns.MatrixOfADecode | collectors.go:503-532 | over any decode the destination is the placement of exactly the rows of its kind up to the first refusal, with the wire's values, and the error is that refusal |
| MatrixRuns.Drive | collectors.go:534-551 | the collector itself, over its storage, does so |
| MatrixRuns.ReuseIsFresh | collectors.go:43-50 | decoding into a destination truncated over an earlier decode's storage gives what decoding into a new one gives, nil and empty rows told apart |
| Blobs.BlobSeq.FixlenBegin | collectors.go:281-291 | both bounds at the length word, for the declared type only; an element is accepted exactly within both, an index out of bounds being reported first |
| Blobs.BlobSeq.Bytes | collectors.go:293-319 | pieces are assembled and the last one places the blob; a refused one changes nothing |
| Blobs.BlobsOfADecode | collectors.go:261-319 | over any decode the error is that of the first announced blob to break a bound, already at its length word, and the destination is the placement of the payloads delivered whole before it |
| Blobs.Drive | collectors.go:261-319 | the collector itself, over its storage and its accumulator, does so |
| Blobs.ReuseIsFresh | collectors.go:943-963 | decoding blobs into a destination truncated over an earlier decode's storage gives the contents and the error of decoding into a new one, nil told apart |
| Blobs.CollectorIsPatient | collectors.go:281-291 | a blob collector among visitors that cannot see cuts is a patient visitor: its bounds are settled at the length word |

## Left out

- DecliningIsIgnoring: for visitors whose answers do not depend on calls made to the ones that do nothing.
- Take: payloads are values, so who owns the storage of a payload handed over, and the 64 KiB opening size, are not modelled.
- MatrixSeq: one class with the element type as a parameter stands for the unsigned, signed and two float collectors; the bool collector is the unsigned one with another conversion.
- PlaceRow: the row handed in shares its storage with no other slot; a caller's row that does is outside the source's own contract (collectors.go:889-896).
- ArrayEnd: at the id the array began with, as every decode does it; a hand-driven end at another id, after elements, is not covered.
- OpenRow: what the inner collector of a nested array then writes through the row is not modelled.
- BlobSeq: the string collector repeats it with a validity test and no storage reuse; the message collector's per-slot initialisation is the gap value of `PlaceAt`.
- ZigzagWords: shifts, xor and complement are spelled as arithmetic on 64-bit words; that Go's operators compute it is read, not proved.
- FillWords: the two specialised copies of the unrolled writer inside the integer-array loops are one loop that calls `Varint.PutUvarint`, with the element mapping as a parameter.
- WriteFloat: the two float widths are one method with the width as a parameter, here and for float arrays.
- Send: a writer takes all bytes it is handed or fails; short writes and bytes taken before a failure are not modelled.
- CallSink: a sink installs at most one buffer per flush, and does not write fields.
- UTF-8 validation itself: which strings an encoder admits is a parameter; on decode the policy hand-over is modelled and the test belongs to the visitor.
- FeedFrom, AcceptBytes and real readers: wrappers over `Feed`.
- The options beyond the nesting bound, the outcome's text form, the error types' messages, and `BitsEqual`.
- Go's append growth factor: any slack is allowed; only contents and sufficient capacity are kept.
- Allocation counts, inlining, cache layout and 32-bit `int`.
- The benchmark programs, the generator and generated code.
