# Verified models of the emulator's self-contained components

This project models, in Dafny, the parts of the repository whose logic is entirely in their own code,
and proves what they are for. The models keep the form of the original: objects whose methods update
fields are classes, in-place algorithms work on arrays, and loops are loops; each is tied by its
contract to a function on values, and the properties are proved about those functions. What a function
on values means is said once more without it: by a writer that the reader undoes, by a reader of the
standard's format, or by numbers and texts written out.

| component | files |
|---|---|
| multipart form data, written and parsed | `multipart_parser.dfy`, `multipart_writer.dfy`, `multipart_disposition.dfy`, `multipart_roundtrip.dfy`, `multipart_lost.dfy`, `multipart_first_call.dfy`, `multipart_extended.dfy`, `multipart_callbacks.dfy` |
| query strings and percent coding | `strings.dfy`, `url_coding.dfy`, `url_cases.dfy`, `params.dfy`, `query_text.dfy`, `coding_vectors.dfy` |
| buffered stream, line reader, chunked coding | `stream.dfy`, `chunked.dfy`, `chunked_writer.dfy`, `chunked_roundtrip.dfy`, `chunked_cases.dfy` |
| byte-range responses and base64 | `byte_ranges.dfy`, `byte_ranges_reader.dfy`, `base64.dfy` |
| worker pool and client requests, as protocols | `thread_pool.dfy`, `client_send.dfy` |
| option scanner | `getopt_exchange.dfy`, `getopt_scan.dfy`, `getopt.dfy`, `getopt_render.dfy` |
| profiler: ring logs, replay, slot pool | `profile_log.dfy`, `profile_replay.dfy`, `profile_nesting.dfy`, `profile_frames.dfy`, `profile_flip.dfy`, `profile_timeline.dfy`, `profile_session.dfy`, `profile_interleaved.dfy`, `profile_pool.dfy`, `profile_units.dfy` |
| audio: resampler and ADPCM decoder | `resampler.dfy`, `adpcm.dfy`, `adpcm_encoder.dfy` |
| title database: generator and reader | `title_db.dfy`, `title_extract.dfy` |
| shared helpers | `arithmetic.dfy`, `sequences.dfy`, `wrappers.dfy` |

`dafny verify dfyconfig.toml` checks everything.

`process_multipart_ranges_data` passes tokens and ranges to callbacks; the model lists them as
`Pieces`, and its three callers are loops over that list.

A `std::string` is a `string`, one `char` a byte. A socket may deliver or take any non-empty part of
what is there; a write may also break the connection. In `thread_pool.dfy` and `client_send.dfy` a
run is any sequence of enabled steps, so every statement about `After(...)` is one about every
interleaving; each lock operation and each critical section is a step, and waking up without a
notification is one too.

## What turned out not to hold

Where the code does not do what one would expect of it, the model keeps the code and the exact
condition is proved.

- The multipart parser drops what a call brings as long as it has not seen a whole delimiter in one call.
  So a written body is read back if and only if the first call brings the whole first delimiter
  (`MultipartFirstCall.RoundTripExactly`); with a shorter first call the run may still end valid, with
  the leading items missing (`MultipartFirstCall.LeadingItemsLost`, `MultipartFirstCall.OnlySecondItem`).
- The parser splits a disposition line inside its quotes, so a name or file name with `=` or `;`, which
  the format allows, is not read back (`MultipartDisposition.ReadsBackExactly`).
- Bytes behind a delimiter that are neither a line end nor two dashes make the parser wait for ever: it
  keeps what follows and never fails (`MultipartCallbacks.JunkIsKept`).
- Repeated pairs of a query string are read once (`QueryText.QueryRoundTrip`).
- An empty write in a run of a chunked provider that is not its last ends the body early, without a
  last chunk (`ChunkedRoundTrip.RoundTrip`).
- A trailer field arrives with its percent escapes undone although the writer does not put any in; it
  arrives as it was if it has no percent sign or is a `Location` (`ChunkedRoundTrip.FieldArrives`).
- A range with an end left out is announced with that end left out in `Content-Range` too, which section
  14.4 of RFC 9110 does not allow (`ByteRangesReader.FieldIsRead`).
- A range that ends past the content is not clamped (`ByteRanges.WithinExactly`), ranges of a body in
  memory are computed from a content length of 0 (`ByteRanges.PartsOfBody`), and the tokens between
  ranges go out in single writes whose short counts are ignored (`ByteRanges.WriteMultipartRangesData`).
- A stop during a request can be forgotten when that request follows a redirect
  (`ClientSend.StopIsForgotten`), and a run from the start gets there (`ClientSend.StopIsForgottenFromStart`).
- The resampler follows its closed form for ever if and only if its rate, less the common divisor with
  32728, is below 2^32 - 32728, so that the 32-bit phase never wraps around (`Resampler.RateIsExact`).
- The profiler's test for a full ring looks at what was put since the last flip, while a flip replays the
  entries of three flips earlier. A put keeps everything that is still needed if and only if fewer entries
  than the ring has slots were put since the oldest one needed, or the one it overwrites is the same again
  (`ProfileTimeline.PutKeepsExactly`, and for whole runs `ProfileSession.RunKeepsExactly`). Filling the ring
  once, flipping, and putting two entries is enough to lose one (`ProfileSession.LapIsNotNoticed`).
- The assertion in front of an Enter admits up to 32 open spans, the stacks hold 31
  (`ProfileFlip.AssertionIsTooWeak`), and a new log is given a slot without a test although none is
  left once 32 logs are live (`ProfilePool.Pool.SlotLeft`), which 31 threads bring about
  (`ProfilePool.FillPool`).
- The ADPCM filter leaves 32 bits for some coefficient pairs (`Adpcm.FilterFitsExactly`).

## Model

| member | source | states |
|---|---|---|
| MultipartRoundTrip.RoundTrip | externals/httplib/httplib.h:4302-4431 | Main result: for every non-empty list of good items and every way of cutting the written body into `parse` calls, all calls are accepted, the parser ends valid, and the callbacks were told exactly the items, provided the first call with any bytes brings the whole first delimiter |
| MultipartFirstCall.RoundTripExactly | externals/httplib/httplib.h:4302-4431 | Main result, in both directions and for every list of good items: whatever the calls, they are accepted, end valid and tell the callbacks exactly the items if and only if the first call with any bytes brings the whole first delimiter |
| MultipartFirstCall.LeadingItemsLost | externals/httplib/httplib.h:4309-4316 | When the first call is shorter and the first delimiter of the next one is that of item j, the run is accepted and ends valid, and exactly the items in front of j are missing |
| MultipartFirstCall.OnlySecondItem | externals/httplib/httplib.h:4309-4316 | A body of two items and a cutting for which the run ends valid with the second item alone |
| MultipartFirstCall.StartsLate | externals/httplib/httplib.h:4309-4316 | A delimiter found anywhere behind the first, be it inside a header line or a content, leads to a place from which the items cannot all be reported |
| MultipartLost.TurnStaysLost | externals/httplib/httplib.h:4308-4427 | Each of the four inner states keeps the invariant of a lost run: too few items so far, or one that is wrong for good |
| MultipartLost.FeedAllStaysLost | externals/httplib/httplib.h:4302-4431 | A lost run never tells the callbacks the items that were written, however the remaining bytes are cut |
| MultipartRoundTrip.FeedAllKeeps | externals/httplib/httplib.h:4302-4431 | From any point of the body on, however the remaining bytes are cut into calls, what has been reported plus what is still to come is exactly the item list |
| MultipartRoundTrip.DrainKeeps | externals/httplib/httplib.h:4305-4428 | One call keeps the invariant that unread buffer plus unfed bytes is the rest of the body; a call given the last byte reaches the end |
| MultipartRoundTrip.TurnKeeps | externals/httplib/httplib.h:4308-4427 | Each of the four inner states keeps that invariant |
| MultipartRoundTrip.BodyKeeps | externals/httplib/httplib.h:4387-4409 | State 3 hands out only bytes of the content, never part of a delimiter, wherever the buffer ends |
| MultipartRoundTrip.FindDelimiter | externals/httplib/httplib.h:4479-4500 | The search finds the delimiter just when the whole of it is in the buffer, because CRLF--boundary cannot overlap itself |
| MultipartRoundTrip.LineInTime | externals/httplib/httplib.h:4322-4325 | A good header line never runs into the length limit, in whatever pieces it arrives |
| MultipartParser.MultipartFormDataParser.Parse | externals/httplib/httplib.h:4302-4431 | One call of the in-place parser does to its buffer, state, file and events what the function `Feed` does to their values |
| MultipartParser.MultipartFormDataParser.RunState | externals/httplib/httplib.h:4308-4427 | One turn of the state machine is the function `OneTurn`, callback refusals and errors included |
| MultipartParser.MultipartFormDataParser.BufFind | externals/httplib/httplib.h:4479-4500 | The two-step search (first character, then comparison) returns the first occurrence in the live part of the buffer |
| MultipartParser.MultipartFormDataParser.BufAppend | externals/httplib/httplib.h:4502-4518 | Appending, with compaction or without, adds exactly the new bytes to the live part |
| MultipartParser.ParseHeaderLine | externals/httplib/httplib.h:4337-4380 | One header line changes the file record as `HeaderLine` says; what that is for every written line, extended file names included, is said by `MultipartDisposition.ReadsBackExactly` and `MultipartExtended.ExtendedNameReadsBack` |
| MultipartWriter.SerializeMultipartFormdata | externals/httplib/httplib.h:4598-4614 | The writer's loop writes the items in order, each with its own header, and the closing delimiter only when asked to finish |
| MultipartWriter.SerializedIsEntries | externals/httplib/httplib.h:4571-4614 | The written text is the first delimiter followed by entries separated by CRLF--boundary, the shape the parser sees |
| MultipartWriter.ReadDisposition | externals/httplib/httplib.h:4342-4361 | Reading back the written Content-Disposition line gives name and file name, for names without `;`, `=` and line breaks |
| MultipartDisposition.ReadsBackExactly | externals/httplib/httplib.h:4342-4361 | and for no others: the line reads back as its name and file name if and only if neither holds a `;`, a `=`, a CR or an LF |
| MultipartDisposition.ParsedFits | externals/httplib/httplib.h:4190-4209 | No parameter value holds a separator, whatever the line, and an extended file name is shorter than the field it came from |
| MultipartExtended.ExtendedNameReadsBack | externals/httplib/httplib.h:4363-4375 | A file name given as `filename*=UTF-8''` and its percent-coded bytes is read back as those bytes, for every plain name and every non-empty byte string |
| MultipartExtended.ExtendedNameOverrides | externals/httplib/httplib.h:4360-4375 | and it takes the place of a plain file name in the same line |
| MultipartExtended.OtherCharsetRefused | externals/httplib/httplib.h:4366-4378 | An extended file name in any other charset makes the parser refuse the line |
| MultipartExtended.OtherDispositionRefused | externals/httplib/httplib.h:4342-4384 | A disposition that is not form data is refused, and so is any header line of another kind (`OtherLinesRefused`) |
| MultipartCallbacks.NamelessIsRefused | externals/httplib/httplib.h:4351-4358 | A disposition without a name is refused |
| MultipartCallbacks.RefusalIsFinal | externals/httplib/httplib.h:4302-4431 | In any series of calls, with any callbacks: calls that return true were answered with true throughout, and after an answer of false nothing more is told and the body is not valid |
| MultipartCallbacks.ValidIsClosed | externals/httplib/httplib.h:4302-4431 | Main result: for any bytes in any cutting and any callbacks, the body is valid only if a delimiter with two dashes behind it was received, so a truncated body never is |
| MultipartCallbacks.LongLineFails | externals/httplib/httplib.h:4322-4325 | A header line that has not ended within 8192 bytes makes the call fail, whatever it holds |
| MultipartCallbacks.JunkIsKept | externals/httplib/httplib.h:4411-4425 | Behind a delimiter, two bytes that are neither a line end nor dashes: every later call returns true, keeps its bytes and does nothing |
| MultipartWriter.ReadContentType | externals/httplib/httplib.h:4337-4340 | Reading back the written Content-Type line gives the trimmed type |
| MultipartWriter.ReadItemLines | externals/httplib/httplib.h:4571-4587 | Reading the written header lines of an item in order gives its file record |
| Strings.FindInPrefix | externals/httplib/httplib.h:4479-4500 | In a buffer that holds only a beginning of a text, a pattern that cannot overlap itself is found just when its first occurrence is complete |
| UrlCoding.EncodeQueryParam | externals/httplib/httplib.h:2355-2374 | The loop writes the encoding character by character |
| UrlCoding.DecodeUrl | externals/httplib/httplib.h:2408-2443 | The loop decodes percent escapes, `%u` escapes and plus signs, and leaves malformed escapes as they are |
| UrlCoding.DecodeUndoesEncode | externals/httplib/httplib.h:2355-2443 | Decoding undoes encoding on every byte string, with plus signs read as spaces or not |
| UrlCoding.EncodedAlphabet | externals/httplib/httplib.h:2355-2374 | Encoded text holds only unreserved characters and percent signs |
| UrlCases.TokensDecode | externals/httplib/httplib.h:2408-2443 | Main result: text made of plain characters, plus signs, `%` escapes and `%u` escapes in either case, and percent signs that begin no escape, decodes to what each of them means; `%u` escapes in UTF-8, nothing for a surrogate |
| UrlCases.Utf8Is | externals/httplib/httplib.h:2242-2270 | The bytes of a code point are its UTF-8 form by section 3 of RFC 3629, the shortest one |
| UrlCases.FormIsDecoded | externals/httplib/httplib.h:2434-2438 | A value encoded as a form does it, with spaces as plus signs, is decoded back |
| Strings.Split | externals/httplib/httplib.h:2486-2504 | The loop yields the trimmed, non-empty fields between the separators, in order |
| Strings.TrimRange | externals/httplib/httplib.h:2463-2472 | Trimming finds the bounds of the trimmed field, although its left bound may run past the field |
| Params.ParseFields | externals/httplib/httplib.h:4190-4209 | Splitting, the cache of fields already seen, and the multimap insertion together give the collected parameters |
| CodingVectors.LessExactly | externals/httplib/httplib.h:4178-4209 | Parameters are kept in the order of a dictionary: the first different byte decides, and a beginning comes first |
| CodingVectors.EmplacedAt | externals/httplib/httplib.h:4206-4208 | A new entry goes behind all with a smaller or the same key and in front of those with a larger one |
| CodingVectors.ManyEqualSigns | externals/httplib/httplib.h:4198-4207 | Of a field with several equal signs the first piece is the key and the last the value |
| QueryText.ParamsToQueryStr | externals/httplib/httplib.h:4178-4188 | The loop writes the fields joined by ampersands |
| QueryText.QueryRoundTrip | externals/httplib/httplib.h:4178-4209 | Main result: reading a written query gives the parameters without repeated pairs; it gives back the very multimap if and only if no pair is repeated |
| Stream.SocketStream.Read | externals/httplib/httplib.h:5330-5374 | Whatever the socket delivers and however it is buffered, the bytes handed out followed by the unread ones are the bytes received, in order |
| Stream.StreamLineReader.Getline | externals/httplib/httplib.h:2532-2554 | A line is read through the next newline exactly, wherever the fixed buffer spills into the growable one; without a newline at the end of the stream it is what was left |
| Stream.StreamLineReader.Append | externals/httplib/httplib.h:2556-2569 | Appending one character adds it to the line on both sides of the spill |
| Chunked.ReadContentWithLength | externals/httplib/httplib.h:3749-3769 | Exactly the announced number of bytes is delivered and consumed, under short reads, or the call fails |
| Chunked.ReadContentChunked | externals/httplib/httplib.h:3802-3854 | The reader does to any byte stream what the function `ReadChunks` says: content, trailer, consumed bytes and all failures |
| Chunked.ReadOneChunk | externals/httplib/httplib.h:3821-3830 | One chunk is delivered, and its line end taken |
| Chunked.ParseHeader | externals/httplib/httplib.h:3677-3708 | A trailer line gives a field just when it has a colon and a value behind it; the value is decoded except for Location |
| ChunkedWriter.WriteData | externals/httplib/httplib.h:3953-3960 | All bytes are written, in order, in however many short writes, or the connection is broken |
| ChunkedWriter.FromIToHex | externals/httplib/httplib.h:2232-2240 | The digits written are the hexadecimal digits of the number |
| ChunkedWriter.ChunkedSink.WriteChunk | externals/httplib/httplib.h:4049-4074 | Non-empty data becomes one chunk, empty data none and marks the data as no longer available |
| ChunkedWriter.ChunkedSink.DoneWithTrailer | externals/httplib/httplib.h:4076-4118 | The last chunk and the trailer fields are written |
| ChunkedWriter.WriteContentChunked | externals/httplib/httplib.h:4042-4141 | A successful run writes exactly the text `Send` gives for the provider's calls |
| ChunkedRoundTrip.ReadSize | externals/httplib/httplib.h:2232-2240 | `strtoul` reads back every size the writer wrote, and saturates at the largest unsigned value |
| ChunkedRoundTrip.ReadAllChunks | externals/httplib/httplib.h:3802-3854 | A series of non-empty chunks reads as its data joined; it fails as soon as a size reads as an overflow |
| ChunkedRoundTrip.RoundTrip | externals/httplib/httplib.h:4042-4141 | Main result: what the chunked writer sends for a provider is read back as exactly the data and the trailer fields as they arrive (`FieldArrives`), up to the last byte and no further; reading it alone succeeds if and only if no run but the last leaves off with an empty write and no size reads as an overflow |
| ChunkedRoundTrip.FieldArrives | externals/httplib/httplib.h:3699-3705 | A percent-coded value arrives decoded, a `Location` in any case of letters as it was sent, and so does a value without percent signs |
| ChunkedCases.TruncatedIsRefused | externals/httplib/httplib.h:3802-3854 | Main result: whenever the reader accepts a text, it accepts no part of it that ends before the last byte it needed, whether the connection ends there cleanly or not |
| ChunkedCases.ChunkWithoutEnd | externals/httplib/httplib.h:3822-3828 | A chunk whose data is not followed by a line end fails once the data was delivered |
| ChunkedCases.NoSize | externals/httplib/httplib.h:3815-3817 | A size line without a number fails before anything is delivered |
| ChunkedCases.LongTrailerLine | externals/httplib/httplib.h:3838-3839 | A trailer line of more than 8192 bytes fails |
| ChunkedCases.NumberIsRead | externals/httplib/httplib.h:3814-3819 | A size may stand behind blanks, a sign and `0x`, in digits of either case, ends with its last digit, and saturates or turns round like `strtoul` |
| ChunkedCases.ProviderRefuses | externals/httplib/httplib.h:4126-4137 | When the provider refuses, what it wrote up to then has been sent, and the call fails as canceled |
| ChunkedCases.ShutdownStops | externals/httplib/httplib.h:4126-4141 | When the server shuts down in between, the call stops there and succeeds |
| ByteRanges.WithinExactly | externals/httplib/httplib.h:4616-4634 | Offset and length of a range stay inside the content if and only if its ends do; an end past the content is not clamped |
| ByteRanges.RangeMeaning | externals/httplib/httplib.h:4616-4634 | Inside the content the range selects the bytes that section 14.1.2 of RFC 9110 says |
| ByteRanges.LengthIsExact | externals/httplib/httplib.h:4701-4718 | When all ranges lie inside the content, the announced length is the length of the text |
| ByteRanges.RangesWithin | externals/httplib/httplib.h:4647-4682 | All pieces lie inside the content if and only if the ends of all ranges do |
| ByteRangesReader.FieldIsRead | externals/httplib/httplib.h:4637-4646 | The `Content-Range` field of section 14.4 of RFC 9110 is read back as both positions and the length if and only if the range gives both ends |
| ByteRangesReader.PartsAreRead | externals/httplib/httplib.h:4648-4682 | Main result: a client that reads the text as section 14.6 of RFC 9110 lays it out gets every range in order, with its content type, its positions, the length of the whole and exactly its bytes |
| ByteRanges.MultipartRangesDataLength | externals/httplib/httplib.h:4701-4718 | The loop counts the lengths of all tokens and ranges |
| ByteRanges.MakeMultipartRangesData | externals/httplib/httplib.h:4684-4699 | The text is built if and only if every range starts inside the body |
| ByteRanges.PartsOfBody | externals/httplib/httplib.h:4666-4699 | For a body in memory, whose content length stays 0, a part holds the bytes of its range if and only if the range names its first position and is not `0-`, or asks for nothing |
| ByteRanges.WriteContent | externals/httplib/httplib.h:3964-3997 | Unless the server shuts down, success means that exactly the bytes of the range were written, whatever pieces the provider hands out |
| ByteRanges.WriteMultipartRangesData | externals/httplib/httplib.h:4720-4733 | Main result: after a success without shutdown, bytes written plus bytes of tokens cut off by short writes make up the announced length; if none was cut, the text was written |
| Base64.Base64Encode | externals/httplib/httplib.h:2276-2302 | The streaming loop with its wrapping 32-bit accumulator yields the encoding by groups of three bytes, for input of every length |
| Base64.DecodeUndoesEncode | externals/httplib/httplib.h:2276-2302 | A decoder after section 4 of RFC 4648 gives back every byte string |
| Base64.EncodedLength | externals/httplib/httplib.h:2276-2302 | There are four letters for every three bytes begun |
| Base64.SextetsOf | externals/httplib/httplib.h:2287-2294 | The bits lost when the accumulator wraps around are never looked at again |
| CodingVectors.LetterIs | externals/httplib/httplib.h:2277-2278 | The letters are those of section 4 of RFC 4648, in order |
| CodingVectors.Vectors | externals/httplib/httplib.h:2276-2297 | The test vectors of section 10 of RFC 4648 for one to four bytes come out |
| ThreadPool.StepInv | externals/httplib/httplib.h:604-662 | Every step of enqueuers, workers and shutdown keeps the invariant |
| ThreadPool.JobsAreConserved | externals/httplib/httplib.h:616-662 | In every interleaving the enqueued jobs are those queued, running and finished, each as often, and they are taken in the order in which they were enqueued |
| ThreadPool.NoLostWakeup | externals/httplib/httplib.h:616-662 | While a job is queued and a worker is left, a notification is under way or a worker is awake; while anyone sleeps there is such a wake-up for every queued job |
| ThreadPool.ShutdownDrains | externals/httplib/httplib.h:626-662 | When all workers have exited, every job enqueued before the shutdown has run exactly once |
| ThreadPool.ShutdownIsBounded | externals/httplib/httplib.h:626-638 | After a shutdown the pool takes a bounded number of steps |
| ThreadPool.ShutdownNotStuck | externals/httplib/httplib.h:626-662 | and some step is possible until all workers have exited |
| ThreadPool.ShutdownCompletes | externals/httplib/httplib.h:625-660 | Every run with a shutdown can be completed by steps of the pool's own, no more than a stated number, and then all jobs enqueued before the shutdown have run |
| ClientSend.StepInv | externals/httplib/httplib.h:6786-6883 | Every step of `send`, `send_`, `handle_request` and `stop` keeps the invariant, and the assertions it runs into hold |
| ClientSend.RequestsAreOwned | externals/httplib/httplib.h:6718-6883 | Main result: in every interleaving no ownership assertion fails, the count in flight is the nesting on the holder of the request lock, and with keep-alive off an idle client has no open socket |
| ClientSend.HolderCanGoOn | externals/httplib/httplib.h:6786-6883 | No deadlock: the holder of the socket lock, or else of the request lock, can always take a step |
| ClientSend.StopClosesSocket | externals/httplib/httplib.h:7879-7900 | A stop during a request leaves the socket closed once nothing is in flight, if no further request was entered |
| ClientSend.StopIsForgotten | externals/httplib/httplib.h:6800-6802 | That proviso is needed: from every state in which the only request in flight has been stopped, with keep-alive on, the client can follow a redirect, forget the stop, and end idle with an open socket |
| ClientSend.StopIsForgottenFromStart | externals/httplib/httplib.h:6800-6802 | and it can happen: a run from the start enters a request, is stopped by any thread, follows a redirect, and ends idle with an open socket |
| ClientSend.LandingOutcome | externals/httplib/httplib.h:6856-6872 | When a request has ended, its socket stays open if and only if it was open, the request succeeded, connections are kept alive and nobody asked for it to be closed |
| ClientSend.EnteringOutcome | externals/httplib/httplib.h:6796-6845 | A request that finds its socket alive or can connect is in flight with an open socket; one that cannot has failed and leaves the socket closed |
| ClientSend.StoppingOutcome | externals/httplib/httplib.h:7879-7900 | A stop closes the socket at once when no request is in flight, and otherwise leaves it to the end of the request |
| ClientSend.ClosingOutcome | externals/httplib/httplib.h:6921-6935 | A response that asks for it closes the socket and changes nothing else |
| ClientSend.RetriedOnce | externals/httplib/httplib.h:6786-6794 | In every run no request is retried more than once |
| GetoptExchange.SwapBlocks | externals/getopt/getopt.c:80-100 | The inner loop swaps two segments of equal length and touches nothing else |
| GetoptExchange.ExchangeBlocks | externals/getopt/getopt.c:72-107 | The rotation loop puts the later block in front of the earlier one, both in order, in place, and ends |
| Getopt.GetoptData.Exchange | externals/getopt/getopt.c:105-107 | and moves the two markers to the moved block |
| Getopt.GetoptData.Initialize | externals/getopt/getopt.c:108-128 | The ordering is chosen from the mark of the option string and the environment's flag, and the scan begins |
| Getopt.GetoptData.SkipOperands | externals/getopt/getopt.c:152-161 | The permuting block keeps what was taken in front, what was skipped behind it, and the rest untouched |
| Getopt.GetoptData.ReadShort | externals/getopt/getopt.c:317-476 | The short-option code reports what the one-pass function says, with optional, required and missing arguments; `GetoptRender.LineRead` says what that is |
| Getopt.GetoptData.StopAtDashes | externals/getopt/getopt.c:162-171 | `--` is taken in front of the operands, and everything behind it is an operand |
| Getopt.GetoptData.GetoptInternal | externals/getopt/getopt.c:129-476 | One call reports the next outcome of the one-pass scan of the original arguments, or ends it |
| Getopt.ScanAll | externals/getopt/getopt.c:129-476 | Main result: the calls until -1 report exactly what one pass over the original arguments reports, which is what the line means (`GetoptRender.ScanOfLine`); then the array holds what was taken, then the operands, and `optind` is the first operand, in all three orderings |
| Getopt.ScanWith | externals/getopt/getopt.c:136-142 | The same on a record that was used before and told to start again by an `optind` of 0 |
| GetoptScan.ScanMerges | externals/getopt/getopt.c:129-476 | That pass sorts the arguments into options and operands, both in their original order |
| GetoptScan.MergedSame | externals/getopt/getopt.c:129-476 | so the final array is a permutation of the first |
| GetoptRender.ScanOfLine | externals/getopt/getopt.c:108-476 | Main result: a line written out from what its author means, with clusters of options, arguments attached or in the next element, optional arguments, unknown letters, operands, `--` and a missing argument at the end, is scanned to exactly that meaning, for every table of options and each mark of the option string |
| GetoptRender.EveryLineIsWritten | externals/getopt/getopt.c:152-476 | Every list of arguments is the text of such a line, so nothing is left open |
| GetoptRender.OneOption | externals/getopt/getopt.c:436-476 | `-o` takes its argument from the next element; at the end of the line it is reported as `?`, or as `:` when the option string begins with a colon |
| ProfileLog.MakeLogIndex | externals/microprofile/microprofile.h:845-854 | Packing and reading back an entry gives kind, timer index and tick |
| ProfileUnits.WordIs | externals/microprofile/microprofile.h:831-856 | A word holds the kind from bit 62, the timer's index from bit 48 and the tick below |
| ProfileLog.LogTickDifferenceIs | externals/microprofile/microprofile.h:856-862 | The shifted, wrapping subtraction is the signed difference on the 48-bit circle |
| ProfileLog.TickDifferenceIsElapsed | externals/microprofile/microprofile.h:856-862 | and so is the elapsed time whenever less than half the circle has passed |
| ProfileLog.GetRange | externals/microprofile/microprofile.h:1481-1497 | The one or two ranges are exactly the ring slots from get up to put |
| ProfileLog.PutAppends | externals/microprofile/microprofile.h:1387-1401 | Putting an entry appends it to what is to be replayed |
| ProfileFlip.ThreadLog.LogPut | externals/microprofile/microprofile.h:1387-1401 | An entry is stored at put and nothing else changes, unless the ring is full; the open spans on the stack, which are read from the ring, stay what they are unless one was read from that place |
| ProfileReplay.ReplayJoin | externals/microprofile/microprofile.h:1687-1750 | Replaying in two stretches with the stacks carried over is replaying at once |
| ProfileReplay.ExclusiveIsConserved | externals/microprofile/microprofile.h:1725-1734 | For any log whatever, exclusive ticks of all timers grow by as much as the child ticks on the stack |
| ProfileReplay.ReplaySpans | externals/microprofile/microprofile.h:1696-1748 | Replaying nested spans adds to each timer the lengths of its spans, to its exclusive ticks these without inner spans, and to each group its spans outside spans of that group |
| ProfileUnits.OneSpan | externals/microprofile/microprofile.h:1693-1748 | One span, logged with kind 1 and kind 0, adds the time that passed to its timer, inclusive and exclusive, one to its count, and the time to its group, and nothing anywhere else |
| ProfileUnits.ReplayedThreeFlipsLater | externals/microprofile/microprofile.h:1552-1612 | What was logged up to a flip, and nothing later, has been replayed after three flips more |
| ProfileUnits.RingTakes | externals/microprofile/microprofile.h:1387-1401 | Between two flips the ring takes 2097151 entries and drops the rest |
| ProfileNesting.NestedIsPath | externals/microprofile/microprofile.h:1687-1750 | Every properly nested log is that of finished spans around the open ones |
| ProfileNesting.ReplayPath | externals/microprofile/microprofile.h:1687-1750 | The same totals for logs that end inside open spans, which are what the stack holds |
| ProfileFrames.FramesAddUp | externals/microprofile/microprofile.h:1648-1773 | Where the log is cut into frames makes no difference to what is accumulated |
| ProfileFrames.NestedFrames | externals/microprofile/microprofile.h:1648-1773 | Main result: any properly nested log of depth at most 31, cut into frames anywhere, accumulates exactly the lengths of its finished spans, per timer, exclusively, and per group |
| ProfileFrames.ClosedFrames | externals/microprofile/microprofile.h:1648-1773 | and once all spans are closed, all exclusive ticks together are the lengths of the outermost spans |
| ProfileFlip.ReplayEntry | externals/microprofile/microprofile.h:1693-1748 | One turn of the inner loop on stacks and accumulators in place is one step of the replay |
| ProfileFlip.ReplayThread | externals/microprofile/microprofile.h:1648-1757 | The thread loop turns the entries between two frame marks of the ring into the frame's totals as the replay function says |
| ProfileFlip.AccumulateFrame | externals/microprofile/microprofile.h:1761-1773 | The frame's totals are added to the accumulated ones |
| ProfileFlip.AssertionIsTooWeak | externals/microprofile/microprofile.h:1696-1703 | For any log, the assertion holds at every Enter if and only if at most 32 spans are ever open, while the stacks suffice if and only if at most 31 are |
| ProfileTimeline.OpenIs | externals/microprofile/microprofile.h:1693-1748 | The stack of the replay holds exactly the spans that are open in the log |
| ProfileTimeline.SliceIs | externals/microprofile/microprofile.h:1481-1497 | The slots between two marks hold exactly what was put between them, as long as the ring holds what is needed |
| ProfileTimeline.PutKeepsExactly | externals/microprofile/microprofile.h:1387-1401 | A put keeps in the ring all that is still needed, the entries to be replayed and the open spans, if and only if it takes a slot no longer needed or stores there what it held |
| ProfileTimeline.FramesJoin | externals/microprofile/microprofile.h:1552-1612 | The frames replayed so far, each taken between two marks, join to the beginning of the log |
| ProfileSession.Profiler.PutEntry | externals/microprofile/microprofile.h:1387-1401 | A put, stored or dropped, keeps ring, marks, stacks and accumulated totals in agreement with the history of puts and flips |
| ProfileSession.Profiler.EndOfFrame | externals/microprofile/microprofile.h:1552-1773 | and so does a flip: the new mark, the frame looked up through the marks of three flips earlier, its replay on cleared totals, and the accumulation |
| ProfileSession.Run | externals/microprofile/microprofile.h:1387-1773 | Main result: after any run of puts and flips in which no entry is put where another is still needed, stacks and accumulated totals are those of the frames, each the entries put between two flips |
| ProfileSession.RunKeepsExactly | externals/microprofile/microprofile.h:1387-1401 | For any run, the ring holds what is needed after every put and flip if and only if every put that the test lets through spares it |
| ProfileSession.NestedRun | externals/microprofile/microprofile.h:1387-1773 | so a properly nested log accumulates exactly the lengths of its finished spans, wherever the flips fell |
| ProfileSession.NestedFits | externals/microprofile/microprofile.h:1693-1712 | A nested log of depth at most 31 can be flipped anywhere |
| ProfileSession.LapIsNotNoticed | externals/microprofile/microprofile.h:1387-1401 | On a profiler that filled its ring, was flipped and took one more entry, the next put is accepted and overwrites the first entry, which is still to be replayed |
| ProfileInterleaved.StepInv | externals/microprofile/microprofile.h:1387-1773 | Every step of a put (test, store, publish), of a flip (mark, replay of one entry, accumulation) and of a change of owner keeps ring, marks, stacks and totals in agreement with the past |
| ProfileInterleaved.InterleavedRun | externals/microprofile/microprofile.h:1387-1773 | Main result: in every interleaving of these steps, with any number of threads owning the log one after the other, stacks and accumulated totals between two flips are those of the frames of the present owner on top of what had been accumulated before |
| ProfileInterleaved.ExitInv | externals/microprofile/microprofile.h:1225-1237 | An exit clears put, get and all marks of the log, so that no entry of the old owner is replayed after it |
| ProfileInterleaved.PutInOneGo | externals/microprofile/microprofile.h:1387-1401 | The three steps of a put are together what `LogPut` does |
| ProfileInterleaved.SomeoneCanGoOn | externals/microprofile/microprofile.h:1387-1773 | In every reachable state a flip, the owner's put or a new owner can go on |
| ProfileInterleaved.NewOwnerPuts | externals/microprofile/microprofile.h:1170-1237 | A new owner's first put goes through, to the first slot of an empty ring |
| ProfilePool.Pool.CreateThreadLog | externals/microprofile/microprofile.h:1170-1196 | A log is the head of the free list, or a new slot when the list is empty; every slot stays active or listed once, and slots are as many as were ever live at once |
| ProfilePool.Pool.OnThreadExit | externals/microprofile/microprofile.h:1209-1237 | The exiting thread's log goes to the head of the list with an empty ring; no other log changes |
| ProfilePool.EachSlotOnce | externals/microprofile/microprofile.h:1170-1237 | No slot is on the free list twice or while active, and the GPU log never is |
| ProfilePool.Recycled | externals/microprofile/microprofile.h:1173-1180 | Taking the head into use keeps the list |
| ProfilePool.Released | externals/microprofile/microprofile.h:1225-1229 | Giving an active slot back keeps the list |
| ProfilePool.Pool.SlotLeft | externals/microprofile/microprofile.h:1170-1184 | There is a slot for another log if and only if fewer than 32 are live; with 32 the next index is behind the array |
| ProfilePool.FillPool | externals/microprofile/microprofile.h:1170-1184 | 31 threads fill the pool |
| Resampler.Sink.Fill | src/audio_core/horizon_sink.cpp:44-65 | Main result: output frame k depends only on k, the source and the rate, for every rate of 32 bits, so neither the sizes of the calls nor the batches of the source show; at exact rates its left and right samples are written out from the left and right samples of the two source frames, and at 32728 it is the source |
| Resampler.Sink.ReadSourceFrame | src/audio_core/horizon_sink.cpp:34-42 | Frames come out in the order of the source, across batches of 1024 |
| Resampler.Sink.Advance | src/audio_core/horizon_sink.cpp:58-63 | The inner loop leaves source position and phase at the next place of the 32-bit run |
| Resampler.InterpolatedBetween | src/audio_core/horizon_sink.cpp:52-56 | Every output lies between its two source samples, so the narrowing to 16 bits loses nothing |
| Resampler.BetweenItsOwn | src/audio_core/horizon_sink.cpp:52-56 | At every rate that follows the closed form, each left sample lies between the left samples of the two source frames around it, each right one between the right ones, and equals the first when the phase is 0 |
| Resampler.SameRate | src/audio_core/horizon_sink.cpp:44-65 | At the native rate of 32728 the output is the source, frame by frame |
| Resampler.StepIsExact | src/audio_core/horizon_sink.cpp:58-63 | A step in 32 bits follows the closed form if and only if adding 32728 to the phase does not wrap around |
| Resampler.RunIsExact | src/audio_core/horizon_sink.cpp:58-63 | The first n frames follow the closed form, position and phase being quotient and remainder of k * 32728 by the rate, if and only if no addition among them wraps around |
| Resampler.RateIsExact | src/audio_core/horizon_sink.cpp:58-63 | They do so for ever, without drift, if and only if the rate less its greatest common divisor with 32728 leaves room for one more addition in 32 bits |
| Resampler.OutputIsClosedForm | src/audio_core/horizon_sink.cpp:44-65 | At these rates every output frame is the interpolation at position k * 32728 / rate |
| Resampler.PhaseWraps | src/audio_core/horizon_sink.cpp:58-63 | With a rate of 2^32 - 1 the run follows the closed form up to frame 131232 and leaves it there |
| Adpcm.DecodeADPCM | src/audio_core/codec.cpp:28-79 | Main result: both channels are the clamped recurrence sample by sample, written out from the header's two coefficients, its power of two and the signed nibble, an even number of them, reading only the bytes of these samples; the state handed back is that behind the last |
| Adpcm.DecodeFrame | src/audio_core/codec.cpp:38-74 | One frame continues the recurrence through its nibbles |
| Adpcm.DecodingChains | src/audio_core/codec.cpp:28-79 | Decoding in two calls at a frame boundary with the carried state is decoding in one |
| AdpcmEncoder.EncodedIsDecoded | src/audio_core/codec.cpp:28-79 | Main result: samples that an encoder can reach, each its prediction from the two before it plus a scaled nibble, are decoded back exactly from the packed headers and nibbles |
| AdpcmEncoder.LastIsHeld | src/audio_core/codec.cpp:42-59 | With the coefficients 2048 and 0 and nibbles of zero the last sample is held |
| AdpcmEncoder.LastTwoRepeat | src/audio_core/codec.cpp:42-59 | With 0 and 2048 the last two samples repeat |
| Adpcm.PlaceIsRemainder | src/audio_core/codec.cpp:38-63 | The byte offset and place of a sample in closed form |
| Adpcm.FilterFitsExactly | src/audio_core/codec.cpp:45-59 | No intermediate value of the filter leaves 32 bits, for any nibble, scale and feedback, if and only if the coefficient pair is safe |
| Adpcm.SmallCoefficientsAreSafe | src/audio_core/codec.cpp:42-55 | Pairs of at most 49152 together are safe; for pairs that are not negative that bound is exact |
| TitleDb.CollectEntries | tools/gen_titledb.py:155-172 | The dictionary holds, for each kept id, the fields of the last game with it |
| TitleDb.WriteFile | tools/gen_titledb.py:180-208 | The file has the documented layout, or packing fails, just when some number does not fit its 32 bits |
| TitleDb.PlacesTile | tools/gen_titledb.py:185-202 | The places tile the blob: the first begins at its start, each where the one before it ends, from record to record too, and the last ends at its end |
| TitleDb.WrittenIsRead | tools/gen_titledb.py:20-36 | A written file loads, its ids ascend, and its records carry the ids, numbers and texts that were written |
| TitleDb.RecordLayout | tools/gen_titledb.py:20-36 | Byte by byte, record i stands at 8 + 178 i: the id, the year with its low byte first, month, day and the two player counts; the header before it is `TDB3` and the count (`HeaderLayout`) |
| TitleDb.TextLayout | tools/gen_titledb.py:20-36 | Place j of a record is four bytes of offset and four of length, 10 + 8 j bytes behind its start, and leads to text j behind the index |
| TitleDb.CompareAt | src/citra_switch/titledb.cpp:133 | Ids are in the order of their first different byte |
| TitleDb.LoadTitleDatabase | src/citra_switch/titledb.cpp:84-123 | Loading accepts a file just when header, magic and index size are right |
| TitleDb.GetTitleInfo | src/citra_switch/titledb.cpp:125-160 | The binary search finds the record with the id if and only if there is one, and tells its numbers, its nine texts and the synopsis |
| TitleDb.SelectSynopsis | src/citra_switch/titledb.cpp:62-80 | The synopsis at place 9 plus the language when there is one, else that at place 10, else the first from place 9 on, and nothing when there is none |
| TitleDb.GenerateAndSearch | tools/gen_titledb.py:155-208 | Main result: in a file generated from any games the search finds exactly the kept ids, each with the numbers, texts and synopsis of its last game |
| TitleExtract.PlaceSynopses | tools/gen_titledb.py:130-136 | Each language's place gets the last synopsis that the locales give for it, and stays empty without one |
| TitleExtract.Extract | tools/gen_titledb.py:69-143 | The numbers are clamped to their widths, the nine strings come in their documented order, then the twelve synopses |
| TitleExtract.ExtractAndSearch | tools/gen_titledb.py:69-208 | Main result, from the elements to the search: an id is found if and only if some element has it, and what is told is what the last such element says, with the synopsis in the language asked for, else in English, else in the first language that has one |

## Left out

- MultipartRoundTrip.RoundTrip: assumes trimmed content types without CRLF, contents without CRLF--boundary, header lines under the limit and a boundary without CR, which are what the format needs, and names and file names without `;`, `=`, CR and LF, which are those the parser can read.
- MultipartFirstCall.RoundTripExactly: the same items; the callbacks accept everything, as a receiver that collects the items does.
- MultipartParser.ParseHeaderLine: the fixed regular expressions of the original are literal, case-insensitive prefix matches.
- Params.ParseFields: the multimap is empty at the beginning, as in all its uses here; it keeps equal keys in the order of insertion, and looking up a key gives the first of them, as usual library implementations do.
- ChunkedRoundTrip.RoundTrip: the compressor is the identity, trailer fields are those a line can carry, and nobody shuts the server down.
- ChunkedWriter.ChunkedSink.WriteChunk: a failed write says only that the connection is broken, not how much of the chunk went out.
- ChunkedWriter.ChunkedSink.DoneWithTrailer: likewise for the last chunk and the trailer.
- ChunkedWriter.WriteContentChunked: likewise for the whole body.
- Chunked.ReadContentChunked: the receiver of the content is a buffer that accepts everything, and the progress callback is left out.
- Chunked.ReadOneChunk: likewise.
- Chunked.ReadContentWithLength: likewise.
- Stream.SocketStream.Read: timeouts and errors of the socket are one failing end of the stream; data that arrives behind a timeout is not modelled.
- ByteRanges.WriteMultipartRangesData: the boundary is not empty, as the generated ones are, the ranges lie inside the content, and they are given as parsed; parsing the `Range` header is not part of this model.
- ByteRangesReader.PartsAreRead: the ranges give both ends and the content type holds no line break; ranges with an end left out cannot be announced, as `ByteRangesReader.FieldIsRead` says.
- ByteRanges.WriteContent: the provider hands out at least one byte and at most those asked for (one that writes nothing would loop forever in the original), and the kind of error is left out.
- Resampler.Sink.constructor: the callback always fills its batch, with 16-bit samples; starting and stopping the device is left out.
- GetoptRender.ScanOfLine: an option's letter is neither `:` nor `;`, and without a mark or a colon the option string does not begin with `-` or `+`, which would be a mark.
- Getopt.ScanAll: short options only, the first call starts from index 1, and the option string does not contain `W;`; long options, messages on the error stream and the environment lookup (a parameter here) are left out.
- Getopt.GetoptData.GetoptInternal: likewise.
- Getopt.GetoptData.ReadShort: characters are not negative; where `char` is signed, an option letter above 127 is returned as a negative number, and the letter 0xFF as -1, which a caller takes for the end.
- Getopt.GetoptData.NextArgument: the two statements that clamp the markers to an `optind` moved by the caller are an assertion that they change nothing, since the caller does not move it.
- ProfileFrames.NestedFrames: ticks and totals are unbounded integers, so the wrap-around of the 64-bit totals is not modelled; it speaks of sequences of entries, and `ProfileSession.Run` ties them to the ring.
- ProfileSession.Run: one thread log with puts and flips in turn; the flags that pause the profiler or clear the accumulated totals are left out.
- ProfileSession.Profiler.PutEntry: requires that no entry is put where another is still needed; `ProfileSession.LapIsNotNoticed` and `ProfileSession.Overwrite` show what the original does otherwise.
- ProfileSession.Profiler.EndOfFrame: requires at most 31 open spans, which is all the stacks hold.
- ProfileInterleaved.InterleavedRun: memory is sequentially consistent, a flip reads put, marks the frame and sets get in one step, and it keeps a frame's group ticks with its other totals at once; entries that an exiting thread leaves behind are never replayed, as in the original.
- ProfileFlip.ReplayThread: meta counters, the GPU log's own time source and pausing are left out; the stack must not overflow (`StackFits`).
- ProfileFlip.ReplayEntry: an Enter with 31 spans open is excluded, as it would write behind the child ticks; `ProfileFlip.AssertionIsTooWeak` says that the assertion of the original admits it.
- ProfileFlip.AccumulateFrame: the maxima kept beside the sums and the meta counters are left out.
- ProfilePool.Pool.CreateThreadLog: names, thread ids and the mutex are left out, and a pool without any slot left is excluded (`ProfilePool.Pool.SlotLeft` says when that is), as the original takes the next slot without looking.
- ProfilePool.Pool.OnThreadExit: the log's start positions in the frame history and its group counters, which are reset too, are not fields of the pool's slots; `ProfileInterleaved.ExitInv` has them.
- ClientSend.RequestsAreOwned: sending, receiving and TLS are single choices inside a step, and all requests go to the same host.
- ThreadPool.JobsAreConserved: jobs that throw are left out, and the pool is not destroyed while it runs.
- Base64.Base64Encode: shifting a negative accumulator is taken as 32-bit wrap-around, which the original relies on.
- Adpcm.DecodeADPCM: integers are unbounded; `Adpcm.FilterFitsExactly` says when that is what 32 bits compute.
- Adpcm.DecodeFrame: likewise.
- TitleExtract.Extract: reading the XML, parsing its numbers, stripping texts and ids, and UTF-8 encoding happen in front of the model; an element comes with its numbers and its stripped and encoded texts.
- TitleDb.GenerateAndSearch: every game comes with clamped numbers and encoded texts, as `TitleExtract.Extract` gives them.
- TitleDb.GetTitleInfo: the database is one whose ids ascend and whose places lie inside the file, as the generator writes it; `TitleDb.WrittenIsRead` says that generated files are such.
- `clean_multiline`, the XML extraction and the reports of the generator are left out: they shape texts, which the format carries unchanged.
- Sockets, name lookup, TLS, compression, the regular-expression engine, MIME tables and the forwarding overloads of the HTTP library are foreign calls or hold no logic.
- The wide-character half of the option scanner is a copy for another character type.
- The profiler's web server, dumps, GPU timers and context-switch tracing are output.
- `DecodePCM8` and `DecodePCM16` map element by element and would only add easy members.
