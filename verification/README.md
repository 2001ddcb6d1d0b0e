# Railscale: a verified model

Railscale is a proxy: it reads requests from a client, finds out where they go, sends them there and relays the
answers. This project models its stateful parts in Dafny and proves what they are for. Everything is stated for all
inputs, all read sizes, all runs or all interleavings.

| files | component |
|---|---|
| `Common`, `Crlf`, `Numbers` | bytes, read buffer, line search, UTF-8 decoding, trimming and number parsing |
| `HttpFrames`, `Matchers`, `Deriver`, `HttpDerive`, `Hook` | HTTP frames and the derive system: matchers, the shared session, the three formulas, the validating hook |
| `ResponseCodec`, `Fragmentation`, `ChunkedBody`, `ResponseRoundTrip` | the response decoder, its independence of read sizes, the grammar it accepts, round trips |
| `RequestCodec`, `Events`, `RequestStream`, `RequestHeads`, `RequestRuns` | the request-head decoder, the frame stream around it, what it shows of one head, and of a whole connection |
| `AnswerStream` | the answer stream around the response decoder |
| `Stabling`, `StablingRuns`, `StablingExpiry`, `StablingSteps` | the connection pool: sequential operations, timed runs with a reaper, what expires when, interleaved steps |
| `Driver`, `DriverSafety`, `DriverOutcomes`, `DriverLoop` | the connection driver: specification, safety theorems, where connections come from and how each cycle ends, the loop itself |
| `HttpDriver`, `RequestVerdicts` | the driver with the HTTP hook in it, and what the hook makes of a request head |
| `HttpRuns`, `HttpForwarding`, `HttpAnswers` | streams, driver and hook together: client reads to upstream bytes, what that means, and which pooled connections are still open |
| `Sni`, `TlsRecords` | host name extraction from a ClientHello, TLS record reassembly |
| `Pcapng`, `PcapRotation` | the capture file format with a reader, and file rotation |
| `PhasedBuffer` | the stable reorder buffer |

Where the source changes things step by step there is a class or a loop, and its contract ties the new state to a
function of the old one (`View()`, `StepDecode`, `RunCycle`, `PopLive`, `DiskNext`, ...). The lemmas are about those
functions, so they hold of the classes.

Some of what the code does may surprise, and is modelled as it is:

- Chunk data may be followed by any two bytes; the CR LF of section 7.1 of RFC 9112 is not checked
  (`ChunkedBody.TerminatorUnchecked`; the exact grammar is in `ChunkedBody.CompletesExactly`).
- An HTTP/1.1 response with neither length header is complete at the end of its head, where section 6.3 of RFC 9112
  reads to the end of the connection (`ResponseRoundTrip.UnframedEndsAtHead`).
- A Content-Length that is no `usize` makes a response open-ended instead of failing
  (`ResponseRoundTrip.InvalidLengthRunsToEof`; which values those are is in `HttpDerive.ResolveLengthExactly`). Numbers
  may start with a plus sign.
- `max_total_idle` is never read, and `max_idle_per_host = 0` still keeps one connection.
- `acquire` lets go of a queue before it removes the empty entry; a connection released in between is closed
  (`StablingSteps.RemovalCanCloseLive`; exactly when is in `StablingSteps.LateRemovalExactly`).
- A head that is cut short behind its request line is sent upstream without its end. The stream breaks at a folded line
  and simply ends when the client closes; both end the request but not the cycle (`HttpForwarding.CutShortHeadIsWritten`,
  `DriverSafety.BreakIsEnd`). A written request holds a whole head exactly when its head ended in an empty line
  (`HttpForwarding.WrittenIsWholeExactly`).
- What is left of the read that completes a request head, a pipelined second request among it, is passed through
  uninspected; nothing else is (`HttpForwarding.UncheckedExactly`). So it depends on the cutting of the bytes into reads
  whether a second request is checked (`HttpForwarding.CuttingDecides`).
- An empty line where the head of a later request should start leaves the stream stuck (`RequestHeads.WedgesExactly`,
  `RequestHeads.WedgedForever`, `RequestHeads.StrayLineEndWedges`).
- The answer stream says the same at the end of an answer and at the end of its socket, and the response hook never
  learns the version of an answer. So a connection can be pooled although its end was reached: exactly when the decoder
  was not done before it (`HttpAnswers.PooledIsOpenExactly`). That happens with every HTTP/1.0 answer without a length
  and without `close`, and with every answer shorter than its Content-Length (`HttpAnswers.OpenEndedIsPooled`,
  `HttpAnswers.TruncatedIsPooled`, `HttpAnswers.ShortAnswerIsPooled`; the cases by framing are in `HttpAnswers.DoneByFraming`).
- A failed attempt to open a capture file loses its event, uses up a file number and still flips the direction of the
  next write, so a later file may start with a response and take 21 events (`PcapRotation.LateFile`,
  `PcapRotation.ClosedFileLength`).

Bytes are integers from 0 to 255 and `usize` is 64 bits wide. The world of one driver cycle (pool and router answers,
write results, the response items, which `AnswerStream` gives for an HTTP upstream) is a parameter, as are the sizes of
reads, clock readings and file system answers.

## Model

| member | source | states |
|---|---|---|
| Crlf.ScanCrlf | carriage/src/http/response_codec.rs:16-30 | the search loop finds the first CR LF of any buffer, and nothing exactly when there is none |
| Crlf.FirstCrlfUnique | carriage/src/http/response_codec.rs:16-30 | a position is what the search returns if and only if a CR LF starts there and none starts before it |
| Crlf.FindCrlfExtends | carriage/src/http/response_codec.rs:16-30 | a line end once found stays the first one when more bytes arrive |
| ResponseCodec.ResponseDecoder.DecodeHeaders | carriage/src/http/response_codec.rs:78-122 | one header step updates state, session and buffer exactly as the step function: end of headers picks the body state from the derived framing, an obs-fold fails, other lines become frames |
| ResponseCodec.ResponseDecoder.DecodeFixedLength | carriage/src/http/response_codec.rs:124-137 | takes the smaller of what is left and what is buffered, and is done when nothing is left |
| ResponseCodec.ResponseDecoder.DecodeChunked | carriage/src/http/response_codec.rs:139-200 | one step of the chunk machine in each of its four states, with both errors |
| ResponseCodec.ResponseDecoder.Decode | carriage/src/http/response_codec.rs:228-257 | dispatch over the body states; object, session and buffer end up as the step function says |
| ResponseCodec.ResponseDecoder.DecodeEof | carriage/src/http/response_codec.rs:212-226 | at the end of the connection an open-ended body is flushed and completed, other states decode once more |
| Fragmentation.StepIgnoresMore | carriage/src/http/response_codec.rs:78-200 | a step outside counted and open-ended bodies does not depend on bytes behind what it consumes |
| Fragmentation.DrainSplit | carriage/src/http/response_codec.rs:78-257 | draining one read and then the next gives the same frames, body bytes, state, error and leftover as draining both at once, from any state |
| Fragmentation.FragmentationInvariance | carriage/src/http/response_codec.rs:78-257 | every way of cutting any byte string into reads decodes like the whole string |
| Fragmentation.ResponseReader.Run | carriage/src/http/response_codec.rs:228-257 | the decoder object, fed read by read and drained after each, ends in the trace of the whole input |
| Fragmentation.StepConserves | carriage/src/http/response_codec.rs:78-257 | a produced item is non-empty and is exactly the bytes removed; waiting and failing remove nothing and change no state |
| Fragmentation.DrainConserves | carriage/src/http/response_codec.rs:78-257 | frames, body and leftover, one behind the other, are the input again |
| Fragmentation.FailsExactly | carriage/src/http/response_codec.rs:96-151 | decoding fails if and only if a complete header line is folded, or a complete chunk-size line announces no size |
| Fragmentation.FramePhases | carriage/src/http/response_codec.rs:78-122 | a response decodes to status line, header and end-of-head frames only, none of which routes |
| Fragmentation.DoneIsAbsorbing | carriage/src/http/response_codec.rs:66-68 | a complete or failed decoder leaves all later bytes unread |
| Fragmentation.DrainedNeedsMore | carriage/src/http/response_codec.rs:228-257 | draining stops only when the next step would ask for more or has failed |
| Fragmentation.FinishOnlyCompletes | carriage/src/http/response_codec.rs:212-226 | end of connection adds no item to a drained decoder and completes only an open-ended body; a truncated length or chunk stays incomplete without an error |
| ChunkedBody.TerminatorUnchecked | carriage/src/http/response_codec.rs:177-184 | the two bytes behind chunk data are consumed whatever they are |
| ChunkedBody.ChunkSizeExactly | carriage/src/http/response_codec.rs:146-151 | which lines announce size n: UTF-8 of white space, an optional plus, hexadecimal digits of value n below 2^64, white space, and nothing or a `;` and anything |
| ChunkedBody.BodyIsRead | carriage/src/http/response_codec.rs:139-200 | every body of the chunk grammar (as the code accepts it) is read to exactly its end, chunk data coming out in order |
| ChunkedBody.BodyWasRead | carriage/src/http/response_codec.rs:139-200 | conversely, any bytes the decoder completes on start with a body of that grammar |
| ChunkedBody.CompletesExactly | carriage/src/http/response_codec.rs:139-200 | decoding completes if and only if the input starts with such a body |
| ResponseRoundTrip.ChunkedRoundTrip | carriage/src/http/response_codec.rs:139-200 | section 7.1 of RFC 9112: any non-empty chunks, their sizes with zero padding, white space on both sides and extensions, and trailers are decoded to their content, done exactly at the end, tail untouched |
| ResponseRoundTrip.HeadRoundTrip | carriage/src/http/response_codec.rs:78-122 | a printed head decodes to its frames, with the session fed the status line, the synthetic request line and every header |
| ResponseRoundTrip.ResponseRoundTrips | carriage/src/http/response_codec.rs:78-257 | any response whose head announces its content decodes, under every cut into reads, to its head frames and content, with the bytes behind it unread |
| ResponseRoundTrip.OpenEndedRoundTrips | carriage/src/http/response_codec.rs:212-257 | without a usable length everything up to the end of the connection is the body |
| ResponseRoundTrip.FramingOfHead | carriage/src/http/derive.rs:143-169 | which body any head announces: chunked if its first Transfer-Encoding lists it, else what its first Content-Length resolves to, else by version |
| ResponseRoundTrip.Http10Exactly | carriage/src/http/response_codec.rs:9-14 | a response counts as HTTP/1.0 if and only if its status line starts with that version and a space |
| ResponseRoundTrip.ContentLengthEndToEnd | carriage/src/http/response_codec.rs:84-137 | a head whose first Content-Length resolves to n and whose first Transfer-Encoding does not list chunked yields exactly n body bytes, then done, later bytes unread, under every cut into reads |
| ResponseRoundTrip.SpelledLength | carriage/src/http/derive.rs:143-169 | a first Content-Length, its letters in any case, with any OWS and leading zeros, resolves to its number below 2^64, and to no length from there on |
| ResponseRoundTrip.ChunkedEndToEnd | carriage/src/http/derive.rs:126-150 | a response whose first Transfer-Encoding lists chunked is read chunk by chunk to exactly its end, under every cut into reads and whatever Content-Length it also carries |
| ResponseRoundTrip.UnframedHttp10 | carriage/src/http/derive.rs:163-165 | without framing headers the body of an HTTP/1.0 response runs to the end of the connection |
| ResponseRoundTrip.UnframedEndsAtHead | carriage/src/http/derive.rs:163-168 | without framing headers any other response is complete at the end of its head, with everything behind it unread |
| ResponseRoundTrip.InvalidLengthRunsToEof | carriage/src/http/derive.rs:152-161 | whenever the first Content-Length is no length, the body runs to the end of the connection, without an error |
| Numbers.AccumulateIsValue | carriage/src/http/derive.rs:152-161 | checked accumulation of digits gives the positional value exactly when it is a `usize` |
| Numbers.ParseUsizeExact | carriage/src/http/derive.rs:152-161 | which texts parse and to what, for all texts: an optional plus sign, at least one digit, value below 2^64 |
| Numbers.ParsePrinted | carriage/src/http/response_codec.rs:146-151 | a printed number with leading zeros parses back to itself exactly when it is below 2^64 |
| Numbers.DigitExactly | carriage/src/http/derive.rs:152-161 | which characters are digits of a radix, and of which value, upper and lower case alike |
| Numbers.DecodeUtf8Exactly | carriage/src/http/response_codec.rs:146-147 | bytes decode to a text if and only if they are the UTF-8 form of section 3 of RFC 3629 of those scalar values: no surrogates, no overlong forms |
| Numbers.TrimSplits | carriage/src/http/response_codec.rs:149 | trimming takes off white space at both ends, all of it and nothing else |
| Numbers.WhiteSpaceExactly | carriage/src/http/response_codec.rs:149 | white space is the 25 characters with that Unicode property |
| Matchers.TrimOwsExact | carriage/src/http/derive.rs:26-30 | OWS around any value, blank ones included, changes nothing; a blank value trims to nothing, and one with no OWS at its ends to itself |
| Matchers.EqualNamesExactly | carriage/src/http/derive.rs:53-66 | names compare equal if and only if they have one length and at each place the same byte, or a letter and the same letter plus 0x20 |
| Matchers.IsTokenExactly | carriage/src/http/derive.rs:126-130 | a list element is a token if and only if it is spaces and tabs, the token in any case, and spaces and tabs |
| Matchers.RequestLineParts | carriage/src/http/derive.rs:65-79 | method, URI and version read off any request line: up to the first space, up to the second, and behind the last |
| Matchers.StatusLineCode | carriage/src/http/derive.rs:80-85 | the code of any status line stands between its first two spaces |
| Matchers.HasTokenExact | carriage/src/http/derive.rs:126-130 | token search over split pieces is the existence of a comma-delimited element that is the token, letter by letter in either case, with only spaces and tabs around it |
| HttpDerive.HeaderLineMatches | carriage/src/http/derive.rs:53-66 | a wire line matches if and only if its name has the length of the watched one and at each place the same byte or the same letter in the other case; it yields its trimmed value |
| HttpDerive.WatchedNames | carriage/src/http/derive.rs:118-205 | the names, tokens and version that are looked for, spelled out |
| HttpDerive.VersionExactly | carriage/src/http/derive.rs:118-123 | a request is HTTP/1.0 if and only if its version is spelled that way |
| HttpDerive.ResolveLengthExactly | carriage/src/http/derive.rs:152-161 | which header values are a length and which one: valid UTF-8, trimmed, optional plus sign, digits, below 2^64; all others are invalid |
| HttpDerive.ContentLengthResolves | carriage/src/http/derive.rs:143-169 | decimal(n) with padding and OWS resolves to a fixed length n below 2^64 and to invalid otherwise |
| HttpDerive.ChunkedExactly | carriage/src/http/derive.rs:143-150 | the framing is chunked if and only if the first Transfer-Encoding value has an element equal to the token |
| HttpDerive.CloseExactly | carriage/src/http/derive.rs:188-207 | the mode is close if and only if Connection lists close, or the version is HTTP/1.0 and keep-alive is not listed |
| HttpDerive.ResolveFaithful | carriage/src/http/derive.rs:227-253 | a session holding the matchers of all formulas resolves to what the log of fed lines says, formula by formula |
| HttpDerive.ResolveAllMeaning | carriage/src/http/derive.rs:227-253 | version, framing, connection mode and conflicts of the shared deduplicated session, stated over the first matches and disagreements of the fed lines |
| HttpDerive.ResolveAllOrderIrrelevant | carriage/src/http/derive.rs:227-253 | the conflict flag does not depend on the order of lines, and without a conflict no derived value does |
| Deriver.DeriverSession.constructor | train_track/src/atom/derive.rs:31-42 | a new session holds each matcher once, in first-occurrence order, with no result and no conflict |
| Deriver.DeriverSession.Feed | train_track/src/atom/derive.rs:44-74 | one feed changes results and conflicts as the specification says, for every matcher |
| Deriver.SessionMeaning | train_track/src/atom/derive.rs:44-90 | after any feeds the stored value is the first match, and the conflict flag is set if and only if two fed lines match with different values |
| Deriver.NonInterference | train_track/src/atom/derive.rs:31-90 | a formula reads from a shared deduplicated session the same results and conflicts as from a session of its own matchers |
| Deriver.OrderIrrelevant | train_track/src/atom/derive.rs:44-74 | conflicts do not depend on the order of lines, nor do values without a conflict |
| Hook.HttpDeriverHook.OnFrame | carriage/src/http/hook.rs:30-38 | the session follows exactly the frames the hook inspects |
| Hook.HttpDeriverHook.Validate | carriage/src/http/hook.rs:40-53 | the verdict of the object is the verdict on the frames seen |
| Hook.HttpDeriverHook.Reset | carriage/src/http/hook.rs:55-57 | a reset hook has seen nothing |
| Hook.HttpDeriverHook.ShouldCloseConnection | carriage/src/http/hook.rs:59-62 | asks to close exactly when the derived mode of the frames seen is close |
| Hook.ValidateMeaning | carriage/src/http/hook.rs:40-53 | the verdict stated over the header lines: both framing headers present, else two different values of a watched header, else accepted |
| Hook.HeaderOrderIrrelevant | carriage/src/http/hook.rs:40-62 | reordering header lines never changes the verdict, and on accepted requests neither framing nor connection mode |
| RequestCodec.HttpStreamingCodec.Decode | carriage/src/http/codec.rs:56-100 | one call: end of head, obs-fold, request line or rewritten header, with done and first-line flags and the buffer |
| RequestCodec.HttpStreamingCodec.Reset | carriage/src/http/codec.rs:39-42 | back to the first line of a head, replacements kept |
| RequestCodec.FirstReplacementExactly | carriage/src/http/codec.rs:84-98 | the search returns a value if and only if it belongs to the earliest replacement whose needle occurs in the name |
| RequestCodec.UntouchedStays | carriage/src/http/codec.rs:84-98 | whatever replacements there are, a line without a colon, or with no needle in front of its first colon, stays as it is |
| RequestCodec.FrameOfLine | carriage/src/http/codec.rs:78-98 | a request line, and a header no replacement applies to, become frames of exactly their bytes and of their phase; only the request line routes |
| RequestCodec.RewrittenReads | carriage/src/http/codec.rs:84-98 | a rewritten header keeps its name, and the matcher for that name finds the replacement value, trimmed |
| RequestCodec.FragmentationInvariance | carriage/src/http/codec.rs:56-100 | every way of cutting a request head into reads gives the same frames, state, leftover and failure |
| RequestCodec.DrainHead | carriage/src/http/codec.rs:56-100 | any list of good lines followed by an empty line, a complete folded line or an incomplete line is decoded to the frames of those lines and stops there |
| RequestCodec.EveryInputIsAHead | carriage/src/http/codec.rs:56-100 | every byte string is such a list of lines with one of the three endings |
| RequestCodec.HeadVerdict | carriage/src/http/codec.rs:56-100 | decoding fails if and only if a complete folded line comes first, and ends the head if and only if an empty line comes first |
| RequestCodec.StepConserves | carriage/src/http/codec.rs:56-100 | a step hands out exactly the bytes it removes, unless it decodes a header that a replacement applies to |
| RequestCodec.SplitsOnce | carriage/src/http/codec.rs:56-100 | and it is only one such list, so the lines of an input and its ending are well defined |
| RequestStream.FramedRead.PollNext | carriage/src/http/parser.rs:23-30 | one poll of the framed reader: what it returns, and codec, buffer, reads to come and flags afterwards; it decodes what is buffered, reads only when that is not enough, and has one end marker behind a failure |
| RequestStream.HttpFrameStream.PollNext | carriage/src/http/parser.rs:47-89 | one poll of the stream: behind a head the buffered bytes, then one end marker, then a reset decoder; within a head its next frame, with the end of the head passed through together with what is buffered |
| RequestStream.PollIsStep | carriage/src/http/parser.rs:47-89 | however few bytes have been read, a poll decodes as if all bytes still to come were there, and ends only when nothing more can be decoded |
| RequestStream.PollTakes | carriage/src/http/parser.rs:47-89 | a poll reads exactly up to the read with which the next line is complete, and decodes that line |
| RequestStream.TakeIsMinimal | carriage/src/http/parser.rs:23-30 | one read less, and the line would not be complete |
| RequestStream.PollConserves | carriage/src/http/parser.rs:32-89 | every poll hands out the next bytes of the connection and drops none, unless it decodes a header that a replacement applies to |
| RequestStream.PollsConserve | carriage/src/http/parser.rs:32-89 | the same over any number of polls of a connection in which no needle occurs: the bytes handed out, and then those still to come, are the bytes of the connection |
| RequestStream.PollRoutes | carriage/src/http/parser.rs:47-89 | a request line only comes first in a head, and a head only starts behind an end marker |
| RequestStream.PollsSeparated | carriage/src/http/parser.rs:47-89 | among any polls of a connection, two request lines always have an end marker between them |
| RequestHeads.HeadIsRead | carriage/src/http/parser.rs:47-89 | every head on any reads: one frame per good line, then its end with the rest of the read it was found in and an end marker, or a failure, or the end of the connection; where the stream is afterwards, which behind an empty line is the next head |
| RequestHeads.PassedThroughExactly | carriage/src/http/parser.rs:32-82 | what is passed through behind the lines of a head is CR LF and the rest of the read that completes the head, the first one with which all of it has arrived; the next head starts with the next read |
| RequestHeads.TwoCuttings | carriage/src/http/parser.rs:32-82 | concrete reads: the same bytes behind a head are passed through when they come in its read, and start the next head when they come in their own |
| RequestHeads.WedgesExactly | carriage/src/http/parser.rs:58-64 | the decoder is done while the stream is not if and only if the first line behind an end marker is empty, with whatever read it comes |
| RequestHeads.WedgedForever | carriage/src/http/parser.rs:58-89 | from then on every poll is an end marker and no byte comes out any more |
| RequestHeads.StrayLineEndWedges | carriage/src/http/parser.rs:58-64 | concrete reads that get there: a head, and then a read that starts with an empty line |
| RequestRuns.ConnectionIsHeads | carriage/src/http/parser.rs:47-89 | the polls of a whole keep-alive connection are one head after another, each read as if it were the first, up to the end of the connection, a folded line or a stray empty line |
| Stabling.Pool.Acquire | train_track/src/core/stabling.rs:43-62 | the pop loop with its early exits is the sequential acquire at the time of the call |
| Stabling.Pool.Release | train_track/src/core/stabling.rs:64-79 | evicts the oldest connection of a full queue, then appends; a bound of 0 still keeps one |
| Stabling.Pool.ReapExpired | train_track/src/core/stabling.rs:81-87 | each queue keeps what is unexpired at the moment it is looked at; emptied queues disappear |
| Stabling.Pool.IdleCount | train_track/src/core/stabling.rs:89-91 | the sum of the queue lengths |
| Stabling.PopLiveExact | train_track/src/core/stabling.rs:43-62 | acquire returns the newest unexpired connection, none if and only if there is none, and discards only expired ones |
| StablingRuns.LiveAfterAcquire | train_track/src/core/stabling.rs:43-62 | an acquire hands out the newest unexpired connection of its key and changes no other queue; a disabled pool hands out nothing |
| StablingRuns.LiveAfterRelease | train_track/src/core/stabling.rs:64-79 | a release adds its connection as the newest of its key, at the cost of at most the oldest, and changes no other queue; a disabled pool is unchanged |
| Stabling.EvictionCommutes | train_track/src/core/stabling.rs:71-78 | evicting and then forgetting expired connections is forgetting and then evicting, on good queues |
| Stabling.AcquireKeepsGood | train_track/src/core/stabling.rs:43-62 | queues stay sorted by age, non-empty and within max(1, bound) |
| Stabling.ReleaseKeepsGood | train_track/src/core/stabling.rs:64-79 | the same for a release |
| Stabling.ReapKeepsGood | train_track/src/core/stabling.rs:81-87 | the same for a reaper pass |
| StablingRuns.RunKeepsGood | train_track/src/core/stabling.rs:43-87 | the invariant holds in every pool any timed run can reach |
| StablingRuns.StepSameLive | train_track/src/core/stabling.rs:43-79 | pools with the same unexpired connections answer the next operation alike and stay so |
| StablingRuns.ReaperInvisible | train_track/src/core/stabling.rs:43-87 | reaper passes anywhere in a run change the result of no acquire |
| StablingRuns.IdleCountBalances | train_track/src/core/stabling.rs:43-91 | in every run the idle count is releases minus acquires, evictions and expiries |
| StablingExpiry.HandedOutIsYoung | train_track/src/core/stabling.rs:43-62 | in every run, a connection is only handed out under the key of its last release, and only while that is less than the idle timeout ago |
| StablingExpiry.HandedOutExactly | train_track/src/core/stabling.rs:43-62 | in every run, the newest connection of a key is handed out if it is younger than the timeout; otherwise none is |
| StablingExpiry.ReleaseThenAcquire | train_track/src/core/stabling.rs:43-87 | a release and the next acquire of its key, whatever else happens before and in between, reaper passes included: the connection is handed out if and only if fewer than `idle_timeout` units of time have passed |
| StablingExpiry.ReapedExactly | train_track/src/core/stabling.rs:81-87 | in every run, behind a reaper pass each queue holds exactly the connections that were younger than the timeout when they were looked at, in order |
| StablingExpiry.EntriesAreReleases | train_track/src/core/stabling.rs:64-79 | every connection in a pool was put there by a release under its key, at the time it carries |
| StablingSteps.NextKeepsOwned | train_track/src/core/stabling.rs:43-79 | each interleaved step of pop, late removal, release and reaping keeps every connection in one place |
| StablingSteps.Ownership | train_track/src/core/stabling.rs:43-79 | under every interleaving a connection is held, idle in one queue or closed, and a request is only handed one last released under its own key |
| StablingSteps.AtomicWhenUninterrupted | train_track/src/core/stabling.rs:43-62 | pop and removal with nothing in between are the sequential acquire |
| StablingSteps.QueueIsOwnWork | train_track/src/core/stabling.rs:43-79 | the queue of a key is the work of the steps on that key alone |
| StablingSteps.LateRemovalExactly | train_track/src/core/stabling.rs:48-60 | a late removal closes exactly what is in the queue; that is something if and only if a connection was released under the key after the queue was emptied, and every later pop, reaper pass and removal of the key left some of it |
| StablingSteps.LateRemovalAfterReleases | train_track/src/core/stabling.rs:48-60 | with nothing else taking from the queue in between, if and only if there was any release under the key |
| StablingSteps.RemovalOnlyHitsReleases | train_track/src/core/stabling.rs:48-60 | each connection a late removal closes was itself released under that key after the queue had been emptied |
| StablingSteps.RemovalCanCloseLive | train_track/src/core/stabling.rs:48-60 | a concrete interleaving in which a fresh connection is closed that way |
| DriverLoop.Connection.ReadItems | train_track/src/core/service.rs:419-473 | the reading loops, before and behind the routing key: buffers, frames shown to the hook, both counters and the reason to stop |
| DriverLoop.Connection.RelayResponse | train_track/src/core/service.rs:633-716 | the batching relay loop makes the client writes, counts and stops as the specification says |
| DriverLoop.Connection.Serve | train_track/src/core/service.rs:405-778 | one turn of the loop is one cycle of the specification: events used, effects, verdict and counters |
| DriverLoop.Connection.DoConnection | train_track/src/core/service.rs:379-781 | the whole loop performs the effects and returns the totals and verdict of the specified run |
| DriverSafety.UpstreamExactly | train_track/src/core/service.rs:404-618 | a cycle writes upstream at most once, and writes these bytes to this destination if and only if the events start with a routed request within both budgets that the hook accepts, whose processed items those bytes are |
| DriverSafety.RequestUnique | train_track/src/core/service.rs:419-547 | the events start with at most one such request |
| DriverSafety.WithoutAuthority | train_track/src/core/service.rs:419-581 | without one there are only lookups and at most an error response |
| DriverSafety.WithAuthority | train_track/src/core/service.rs:500-618 | with one: lookups, the single upstream write, then the response side; the cycle uses up exactly the events of the request, and counts its frames and its raw bytes |
| DriverSafety.BreakIsEnd | train_track/src/core/service.rs:539-543 | a stream that breaks behind the routing key gives the same cycle as an end marker in its place |
| DriverSafety.RequestOfItems | train_track/src/core/service.rs:419-547 | a script of items and something that ends them starts with an authorised request if and only if the items hold a routing key, keep both budgets and are accepted; the request is all of them |
| DriverSafety.CutShortIsWritten | train_track/src/core/service.rs:539-618 | a concrete script whose request goes upstream although the stream broke right behind the routing key |
| DriverSafety.PassthroughUnchecked | train_track/src/core/service.rs:519-527 | a concrete script whose passed-through bytes go upstream as they are, whatever they hold |
| DriverSafety.ErrorResponseExactly | train_track/src/core/service.rs:366-376 | an error response is sent if and only if the cycle fails before its upstream write and a responder exists; it renders that failure and is the last effect |
| DriverSafety.RelayContent | train_track/src/core/service.rs:625-723 | the batched client writes concatenate to the in-order processed response items counted and shown to the hook |
| DriverSafety.RelayWrites | train_track/src/core/service.rs:677-716 | every write but the last exceeds 32768 bytes and succeeded; only the last one can have failed |
| DriverSafety.ReleaseExactly | train_track/src/core/service.rs:771-777 | the destination is pooled, once, last and under its own key, if and only if there is a pool, a response stream relayed to its end and no wish to close; the loop goes on in exactly these cases |
| DriverSafety.ResponseAccounting | train_track/src/core/service.rs:625-767 | `response_bytes` is the number of response bytes sent, and after success they are everything the response stream handed out, processed |
| DriverSafety.ReleasedExchange | train_track/src/core/service.rs:590-777 | over a pooled connection went the processed request its cycle starts with and everything in front of the end of the response stream, processed, and neither hook objected to their frames |
| DriverOutcomes.WrittenToObtained | train_track/src/core/service.rs:500-511 | from the effects alone: in front of an upstream write the pool handed out its destination, or the router did and the pool had none |
| DriverOutcomes.PoolHitIsUsed | train_track/src/core/service.rs:500-511 | a connection the pool hands out is the one written to and pooled again; the router is not asked, and the cycle cannot fail for want of a route |
| DriverOutcomes.LookupsExactly | train_track/src/core/service.rs:500-514 | the pool is asked if and only if there is one, the router if and only if the pool gave nothing, both under the bytes of the routing key |
| DriverOutcomes.WrittenContent | train_track/src/core/service.rs:419-618 | what is written upstream is the items of one request within the budgets, each as the request processor leaves it, in order |
| DriverOutcomes.RelayedContent | train_track/src/core/service.rs:633-716 | what the client gets is the first items of the answer, each as the response processor leaves it, in order; they are what is counted and, as they came, what the hook saw |
| DriverOutcomes.RawLengthIs | train_track/src/core/service.rs:419-445 | the budgets and the request counter count the bytes of the items before any processing |
| DriverOutcomes.PreRouteOverflow | train_track/src/core/service.rs:424-447 | too many bytes in front of the routing key: no lookup, one error response, and a failure in the parse phase |
| DriverOutcomes.UnroutedEnds | train_track/src/core/service.rs:457-490 | items without a routing key and then an end: a later cycle finishes in silence if nothing came or the client closed, anything else is an error of its kind |
| DriverOutcomes.PostRouteOverflow | train_track/src/core/service.rs:550-557 | too many bytes behind the routing key: lookups, no write, and a failure in the forward phase |
| DriverOutcomes.RefusedRequest | train_track/src/core/service.rs:559-581 | a request the hook objects to, and one without a destination: lookups, no write, and the failure of the hook or of the router |
| DriverOutcomes.SentRequest | train_track/src/core/service.rs:583-777 | an authorised request: failed write, raw copy, broken answer, failed client write, and what each does to verdict and counters |
| DriverOutcomes.TotalsAreSums | train_track/src/core/service.rs:220-230 | the counters of a connection are the sums over its cycles |
| DriverSafety.ConnectionUpstreamSafety | train_track/src/core/service.rs:379-781 | each upstream write of a connection is the only one of its cycle, is the authorised request at the events its predecessors left, and goes to the destination of that cycle |
| DriverSafety.ConnectionUpstreamExactly | train_track/src/core/service.rs:379-781 | the upstream writes of a whole connection are, in order, the authorised requests of its script, each starting where the previous one ended, as long as connections are reusable |
| DriverSafety.ErrorResponseEndsConnection | train_track/src/core/service.rs:366-376 | over a whole connection there is at most one error response, and nothing happens after it |
| DriverSafety.ConnectionResponseAccounting | train_track/src/core/service.rs:220-230 | the accumulated response count is the number of response bytes the client was sent |
| RequestVerdicts.HeadDecodes | carriage/src/http/codec.rs:56-98 | a request line and headers no replacement applies to are decoded to the frames of exactly these lines |
| RequestVerdicts.RefusedExactly | carriage/src/http/hook.rs:40-53 | those frames are refused, as a parse error, if and only if the headers hold both Content-Length and Transfer-Encoding, or two different values of one of them or of Connection |
| RequestVerdicts.RequestClosesExactly | carriage/src/http/derive.rs:188-207 | and they ask to close if and only if the first Connection header lists close, or the version behind the last space of the request line is HTTP/1.0 and it does not list keep-alive |
| HttpDriver.NothingAmbiguousGoesUpstream | train_track/src/core/service.rs:559-566 | driver, hook and derive system together: the parsed frames of every request that goes upstream never carry both framing headers or two different values of a watched header; passed-through bytes are not covered |
| HttpDriver.OnlyKeepAliveIsPooled | train_track/src/core/service.rs:719-777 | the request that went over a pooled connection, and what was relayed in front of the end of its response stream, both derive keep-alive |
| HttpDriver.AnswerClosesExactly | carriage/src/http/hook.rs:30-62 | the hook never learns the version of an answer: it asks to close if and only if the first Connection header lists close |
| HttpDriver.AnswerHeadCloses | carriage/src/http/hook.rs:30-62 | the same over the header lines of any decoded head, HTTP/1.0 and read to the end of the connection included |
| HttpDriver.PooledExactly | train_track/src/core/service.rs:719-777 | an authorised cycle pools its connection if and only if there is a pool, everything was relayed, the request derives keep-alive and the answer does not list close |
| HttpRuns.ConnectionFromReads | train_track/src/core/service.rs:379-781 | stream, driver and hook together: the upstream writes of a whole connection are a function of the client bytes and their reads; each is the first head of the reads its predecessor left, if that has a key, keeps its budgets, is accepted and has a destination; further polls change nothing |
| HttpRuns.HeadIsWritten | train_track/src/core/service.rs:515-563 | the hook is shown the lines of a head and nothing else, and what is written is those lines, processed, and the passed-through end of the head if there is one |
| HttpForwarding.WrittenIsWholeExactly | train_track/src/core/service.rs:515-618 | a written request holds the end of its head if and only if the head ended in an empty line; one cut short, by the end of the connection or a folded line, is written without it and is the last of its connection |
| HttpForwarding.KeyIsRequestLine | train_track/src/core/service.rs:448-455 | the key a request is looked up under is its request line with its CR LF, the first line of the bytes that go upstream |
| HttpForwarding.PlainWriteIsHead | train_track/src/core/service.rs:515-618 | with frames left unchanged and no header that a replacement applies to, the written bytes, split again, are the lines the client sent, and a whole head if and only if the client sent one |
| HttpForwarding.CutShortHeadIsWritten | train_track/src/core/service.rs:515-618 | concrete reads whose request goes upstream without its end: a request line and then part of a header and the end of the connection, or a folded line |
| HttpForwarding.ClosedInHeaderIsWritten | train_track/src/core/service.rs:515-618 | the same for the HTTP proxy itself: a client that closes in the middle of its first header has its request line sent upstream |
| HttpForwarding.PlainHead | train_track/src/core/service.rs:515-618 | with frames left unchanged and no header that a replacement applies to, a whole head goes upstream read by read: exactly the reads up to the one that completes it |
| HttpForwarding.PlainWritesAreInput | train_track/src/core/service.rs:379-781 | with frames left unchanged, everything that goes upstream of a connection in which no needle occurs is the front of what the client sent |
| HttpForwarding.UncheckedExactly | train_track/src/core/service.rs:515-563 | the bytes that go upstream without being checked are what is left of the read that completes a head, and no others; there are some if and only if that read holds bytes behind the head |
| HttpForwarding.CuttingDecides | train_track/src/core/service.rs:515-563 | the same two requests, the second unacceptable: in one read both go upstream, in two only the first |
| AnswerStream.FramedRead.PollNext | carriage/src/http/response_parser.rs:18-21 | one poll of the framed reader around the response decoder: result, decoder, buffer, reads to come and flags |
| AnswerStream.ResponseFrameStream.PollNext | carriage/src/http/response_parser.rs:28-50 | one poll of the answer stream, which ends by itself behind the item that completes the response |
| AnswerStream.PollIsNext | carriage/src/http/response_parser.rs:28-50 | a poll hands out the next item of draining all bytes still to come, fails where that fails, and ends only at the end of the socket, when nothing more can be decoded |
| AnswerStream.AnswerOfReads | carriage/src/http/response_parser.rs:28-50 | the driver is given the frames and body bytes that the decoder makes of all reads, or an error if that fails; the end of the socket is reached if and only if the decoder is not done by then |
| HttpAnswers.PooledIsOpenExactly | train_track/src/core/service.rs:719-777 | which connections are pooled, with decoder and hook put in; and a pooled connection has reached its end if and only if the decoder was not done before it |
| HttpAnswers.DoneByFraming | carriage/src/http/response_codec.rs:66-68 | the decoder is done if and only if the framing its head announces is completed: enough bytes, a chunked body of the grammar, or no body; never for a body that runs to the end of the connection |
| HttpAnswers.EndedIsPooled | train_track/src/core/service.rs:719-777 | any answer that does not ask to close and whose framing is not completed at the end of its socket leaves a pooled connection that is at its end |
| HttpAnswers.OpenEndedIsPooled | carriage/src/http/response_parser.rs:28-50 | so does every HTTP/1.0 answer without a length |
| HttpAnswers.TruncatedIsPooled | carriage/src/http/response_parser.rs:28-50 | so does every answer whose first Content-Length is n, that is not chunked and delivers fewer than n body bytes |
| HttpAnswers.ShortAnswerIsPooled | carriage/src/http/response_parser.rs:28-50 | concrete reads: any status line, one Content-Length, and fewer bytes than it says |
| Sni.FromU8 | trezorcarriage/src/frame.rs:13-21 | the type of a byte is the one whose code is that byte; other bytes have none |
| Sni.ExtractSni | trezorcarriage/src/frame.rs:56-162 | the offset walk returns what the grammar parser says, on all byte strings, with every index in bounds |
| Sni.WalkExtensions | trezorcarriage/src/frame.rs:119-161 | the extension loop finds the first server_name extension of the declared range |
| Sni.PrintedHello | trezorcarriage/src/frame.rs:56-162 | for every ClientHello of section 4.1.2 of RFC 8446 with a server name of section 3 of RFC 6066, any extensions and names in front, the host comes back |
| Sni.HelloWasPrinted | trezorcarriage/src/frame.rs:56-162 | every byte string in which a host is found is a printed ClientHello with that host, trailing bytes included |
| Sni.SniExactly | trezorcarriage/src/frame.rs:47-162 | a host is returned if and only if the record, with or without its five-byte header, carries a ClientHello with that host |
| Sni.SniStable | trezorcarriage/src/frame.rs:47-162 | a host that was found is unchanged by appending bytes |
| TlsRecords.Fill | trezorcarriage/src/parser.rs:27-58 | the short-read loop fills the wanted size, or reports the end or a failed read with what it has |
| TlsRecords.NextRecord | trezorcarriage/src/parser.rs:26-66 | one turn of the record loop, with each of its exits |
| TlsRecords.Parse | trezorcarriage/src/parser.rs:23-68 | whatever the read sizes, the records are a function of the bytes; if a read fails, they are those of the bytes read so far |
| TlsRecords.RecordsAreInput | trezorcarriage/src/parser.rs:23-68 | every record is a known type byte, five bytes and its declared length, at most 16384, together they are the front of the input, and the bytes behind them decide which of the five endings it is |
| TlsRecords.CleanExactly | trezorcarriage/src/parser.rs:23-68 | the stream ends without an error if and only if the input is a concatenation of records of known type and at most 16384 bytes of payload |
| TlsRecords.HelloThroughRecords | trezorcarriage/src/parser.rs:23-68 | a ClientHello in one handshake record: the record is cut out of the stream as it is, its host is found in it, and the stream goes on behind it |
| Pcapng.WriteShb | train_track/src/capture/format.rs:3-19 | appends the section header block |
| Pcapng.WriteIdb | train_track/src/capture/format.rs:21-34 | appends the interface description block |
| Pcapng.WriteEpb | train_track/src/capture/format.rs:37-92 | the write sequence with its separately computed pads and total length appends the packet block, lengths cut to 32 and 16 bits as the casts do |
| Pcapng.Epb | train_track/src/capture/format.rs:59-92 | a packet block is as long as its computed total, a multiple of four |
| Pcapng.LengthFields | train_track/src/capture/format.rs:64-90 | leading and trailing length of a block agree, and tell its true size if and only if that is below 2^32 |
| Pcapng.SectionHeaderBytes | train_track/src/capture/format.rs:3-19 | the 28 bytes every file starts with, one by one |
| Pcapng.InterfaceBytes | train_track/src/capture/format.rs:21-35 | and the 20 bytes behind them |
| Pcapng.PacketBlockFields | train_track/src/capture/format.rs:62-91 | block type, interface, time, captured and original length of any packet block, and the end of its options, read back from the bytes |
| Pcapng.BlockReads | train_track/src/capture/format.rs:3-92 | a block is read back by its length, and reading goes on behind it |
| Pcapng.PacketBlockContent | train_track/src/capture/format.rs:71-83 | data and comment of any packet block at their places, each filled up with as few zeros as possible |
| Pcapng.CommentOption | train_track/src/capture/format.rs:76-80 | the comment option in front of the comment, with its length cut to 16 bits |
| Pcapng.EventReads | train_track/src/capture/format.rs:59-90 | timestamp, data and comment come back from a packet block |
| Pcapng.FileReads | train_track/src/capture/format.rs:3-92 | walking a file by block lengths finds the two headers and then the packet blocks, in order |
| Pcapng.EventsComeBack | train_track/src/capture/format.rs:3-92 | every event of a file comes back in order |
| Pcapng.CommentFits | train_track/src/capture/format.rs:54-57 | the comment of any connection number fits the 16-bit option length unless the direction itself is enormous |
| Pcapng.CommentReadsBack | train_track/src/capture/format.rs:54 | direction and connection number come back from the comment by cutting at its last space |
| Pcapng.CommentsDiffer | train_track/src/capture/format.rs:54 | two different pairs of direction and connection have two different comments |
| PcapRotation.PcapDestination.OpenFile | train_track/src/capture/pcap.rs:36-52 | uses up a file number even when opening fails; an opened file holds the two headers |
| PcapRotation.PcapDestination.WriteEvent | train_track/src/capture/pcap.rs:60-85 | one event: opening, appending, counting and closing move files and counters exactly one specified step |
| PcapRotation.PcapDestination.Write | train_track/src/capture/pcap.rs:93-97 | takes requests and responses in turn, also after a failure |
| PcapRotation.RunIsGood | train_track/src/capture/pcap.rs:60-85 | in every run each closed file ends at its first response after ten requests, the open one has none, the counter is exact, and file numbers only go up |
| PcapRotation.RunConserves | train_track/src/capture/pcap.rs:60-85 | the files hold exactly the events of successful calls, in order |
| PcapRotation.DiskRunIsPicture | train_track/src/capture/pcap.rs:36-85 | byte for byte, each file is the headers and the packets of its events |
| PcapRotation.CaptureComesBack | train_track/src/capture/pcap.rs:36-97 | reading all files of any run gives back every event that was accepted |
| PcapRotation.RecordStorable | train_track/src/capture/format.rs:54-61 | a record is too large to be stored faithfully only if its block reaches 2^32 bytes; its comment always fits |
| PcapRotation.CaptureSays | train_track/src/capture/pcap.rs:60-97 | event by event, what comes back says the bytes, the time, req or resp, and the connection number that were recorded |
| PcapRotation.AlternatingRun | train_track/src/capture/pcap.rs:60-97 | alternating writes whose every twentieth call can open a file fill files twenty by twenty; state and counters by n mod 20 |
| PcapRotation.LayoutExactly | train_track/src/capture/pcap.rs:60-97 | alternating writes give that layout if and only if every twentieth call can open a file |
| PcapRotation.ClosedFileLength | train_track/src/capture/pcap.rs:60-97 | under any failed openings a closed file of alternating writes holds 20 events if it starts with a request, and 21 otherwise |
| PcapRotation.LateFile | train_track/src/capture/pcap.rs:60-97 | a run in which one failed opening makes the next file start with a response and take 21 events |
| PcapRotation.CaptureOfWrites | train_track/src/capture/pcap.rs:60-97 | n alternating writes leave ceil(n/20) files, and reading file k gives events 20k onwards |
| PhasedBuffer.Buffer.PushFrame | train_track/src/atom/phase.rs:51-56 | appends one entry and keeps the byte count equal to the bytes held |
| PhasedBuffer.Buffer.PushPassthrough | train_track/src/atom/phase.rs:58-61 | the same for passthrough data |
| PhasedBuffer.Buffer.Reorder | train_track/src/atom/phase.rs:63-72 | the entries become the stable sort of what they were; the byte count stays right |
| PhasedBuffer.Buffer.Freeze | train_track/src/atom/phase.rs:86-92 | the frozen bytes are the entries in order, as many as the byte count says |
| PhasedBuffer.SortIsStable | train_track/src/atom/phase.rs:63-72 | the sort orders by phase and keeps the entries of each phase in push order |
| PhasedBuffer.StableSortUnique | train_track/src/atom/phase.rs:63-72 | there is only one such order, so the library sort has no choice |
| PhasedBuffer.SortIdempotent | train_track/src/atom/phase.rs:63-72 | reordering twice is reordering once |
| PhasedBuffer.ReorderedFreeze | train_track/src/atom/phase.rs:63-98 | freezing after a reorder gives the bytes phase by phase in push order; the phases present are strictly increasing and exactly those pushed |
| PhasedBuffer.Buffer.PhasesPresent | train_track/src/atom/phase.rs:94-98 | the phases of the entries and no others, none following itself |
| PhasedBuffer.DedupIsRuns | train_track/src/atom/phase.rs:94-98 | one phase for each run of entries of the same phase, in order |
| PhasedBuffer.RunsAreDedup | train_track/src/atom/phase.rs:94-98 | and no other list of phases has that property |

## Left out

- Sockets, TLS handshakes, routers, stream sources and destinations, and the builders: input and output plumbing, which enters as scripts and functions.
- The asynchronous runtime: a suspended poll is not modelled; a framed reader is a buffer with scripted reads, and joined futures are run one after the other because they share no state in the model.
- The parallel replacement search is the sequential first match it is documented to return, and substring search is its definition.
- The map inside the pool: one operation on one key is one atomic step; iteration order of the reaper over keys is arbitrary.
- Buffer capacities: a buffer made for n bytes offers exactly n bytes of spare room to a read.
- Clock: a counter that never goes backwards, read where the code reads it.
- `BatchWriter` is a byte sequence inside the driver; `HttpPipeline` and the responder text are arbitrary functions of a frame and of a failure.
- Metrics, durations, tracing, the capture channel and its backpressure: they do not influence what is sent.
- Reads that fail: a socket delivers bytes until it ends; a read error would come out of a framed reader as a broken stream.
- Which I/O error occurred: error kinds are abstract beyond what the driver branches on.
- Counters of the driver and the capture file are unbounded; the code uses 64-bit and 32-bit counters.
- Capture writes that fail half-way, and write buffering in front of the file: a file is its bytes after each event.
- Capture directions other than request and response: the code takes any string, its callers pass only these two.
- Capture file names beyond the number in them.
- `DriverLoop.Connection.DoConnection`: effects of one connection only; the pool it shares with others is in `Stabling`, and the answers it gets from it are arbitrary here.
- `RequestStream.PollConserves`: a poll that decodes a header which a replacement applies to changes bytes on purpose; what it changes is in `RequestCodec.RewrittenReads`.
- Reads of no bytes in the middle of a connection: a read of no bytes is the end of the connection, as the runtime defines it.
- Body framing of requests by Content-Length, bodyless status codes and a total idle cap: the code does not implement them.
- The `poc` and `bogie` crates, scripts and charts: copies, tests and presentation.
