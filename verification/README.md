# Verified models of five components

This project models, in Dafny, the parts of the repository whose correctness is hardest to see from
the code, and proves what they are for:

- **httplib's codecs and protocols** (`externals/httplib/httplib.h`): percent and query encoding
  (`Urls`), header fields (`Headers`), the incremental multipart/form-data parser and its serializer
  (`Multipart`, `MultipartParts`, `MultipartProof`, `MultipartForeign`, `MultipartCuts`, `MultipartRegions`,
  `MultipartLate`), buffered streams and the line reader (`Streams`), the chunked
  transfer coding (`Chunked`, `ChunkedWriter`, `ChunkedProof`), base64 (`Base64`), path parameters (`PathParams`), the
  job queue (`ThreadPool`) and the client's in-flight/close handshake (`ClientProtocol`).
- **microprofile's log pipeline** (`externals/microprofile/microprofile.h`): log entries
  (`ProfilerEntry`), the replay machine and the recursion over a forest of scopes it agrees with
  (`ProfilerReplay`, `ProfilerRagged`), the replay loop in place (`ProfilerThread`), the ring buffer and frame history
  (`ProfilerRing`), all of them together (`ProfilerPipeline`) and over whole schedules
  (`ProfilerSchedule`), all logs together (`ProfilerThreads`), and the pool of thread logs (`ProfilerPool`).
- **getopt with permutation** (`externals/getopt/getopt.c`): `Getopt`, `GetoptUsage`.
- **the streaming resampler** (`src/audio_core/interpolate.cpp`): `Resampler`, `Interpolation`.
- **the ADPCM decoder** (`src/audio_core/codec.cpp`): `Adpcm`.

Code that works by changing things step by step is a method or a class here, and its contract ties it
to a function of the inputs or of the old state; what the code promises is then proved of that
function. Concurrent code is a step relation: a step is what a thread does while it holds the mutex.
Streams are adversaries: a script says how many bytes each read or write moves and when one fails,
and the theorems hold for every script. `Text`, `Sequences` and `Numbers` hold what
several modules share.

## Main results

- *Multipart round trip under any cutting into pieces*: `MultipartProof.MultipartRoundTrip`, through
  the parser class by `Multipart.MultipartFormDataParser.Parse`. The serialized form may be cut
  anywhere after the opening delimiter; `MultipartLate.RoundTripExactly` says exactly which cuts
  it survives, for every form, and `MultipartCuts.ArrivesFrom` what arrives otherwise. Forms of other
  clients, with header lines in whatever form and order: `MultipartForeign.ForeignArrives`.
- *Chunked round trip*: `ChunkedProof.ReaderSeesActions` for whatever a content provider does,
  `ChunkedProof.ReceivedExactly` for exactly when the body arrives whole, and
  `ChunkedProof.Transfer` through both implementations over a wire that cuts as it likes.
- *A getopt run is a plain left-to-right scan of the original arguments*: `Getopt.ParseAll`, in all
  three orderings, with the in-place rotation `Getopt.GetoptData.Exchange`. The scan reads every
  command line as it is meant: `GetoptUsage.EveryLineIsRead`.
- *Profiler totals are those of the forest of scopes*, wherever flips and the end of the ring fall:
  `ProfilerSchedule.ProfileForest` over any schedule of puts and flips in time, through
  `ProfilerPipeline.TotalsAreTheForests`, and `ProfilerThreads.PipelinesAddUp` for all logs.
- *The resampler does not depend on its schedule*: `Resampler.ScheduleIndependent`.
- *Every interleaving is safe*: `ThreadPool.QueueIsSafe`, `ClientProtocol.CloseIsSafe`. Jobs run once and
  in order, `ThreadPool.JobsRunOnceInOrder`, and the steps tell when a connection stays open,
  `ClientProtocol.StaysOpenExactly`.
- *The ADPCM decoder computes its recurrence*: `Adpcm.DecodeRecurs`, and exactly when 32 bits are enough:
  `Adpcm.SafeExactly`.

## Where the code falls short of its comments or its purpose

The model follows the code, and each point is proved.

- A piece of a multipart body that cuts the opening delimiter is erased (httplib.h:4397-4398). A form
  of several items cut there is received without its first item, with success and a valid end:
  `MultipartCuts.CutLosesFirstItem`, at two items `MultipartCuts.CutTwoItems`. Fed one byte at a time
  it is lost whole: `MultipartCuts.ShortPiecesAreLost`. The exact condition is that of
  `MultipartLate.RoundTripExactly`.
- The chunked writer can report success without having sent the terminating chunk (httplib.h:4135,
  4212-4226): after an empty write that ends a turn, `ChunkedProof.EmptyWriteTruncates`, and when a
  shutdown is noticed, `ChunkedProof.ShutdownTruncates`; exactly then,
  `ChunkedProof.UnfinishedSuccessExactly`.
- A done that fails in part goes on writing, so that the reader can take the body for whole and miss
  trailer fields (httplib.h:4187-4203): `ChunkedProof.LostTrailerLooksWhole`, and
  exactly when once the marker is out, `ChunkedProof.FailedDoneExactly`.
- A trailer line that ends with a bare LF loses the last byte of its value (httplib.h:3918-3920):
  `ChunkedProof.BareLineEndTakesAByte`.
- After a delimiter followed by anything but a line end or two dashes the multipart parser accepts all
  further data without failure and never finishes (httplib.h:4512-4516): `MultipartParts.StuckAfterDelimiter`.
- `PathParamsMatcher` means to reject repeated parameter names but never fills the set it looks them
  up in, so it accepts them (httplib.h:5531, 5550): `PathParams.RepeatedName`. The comment there says
  that the last duplicate is kept; `emplace` keeps the first, `PathParams.FirstValueStays`. Every name
  has its own capture exactly when equal names have equal ones: `PathParams.ParamsAreCaptures`.
- A `stop` made during a request is forgotten when a nested request (a redirect) begins, which is not
  what the comment on the flag says (httplib.h:6890-6892): `ClientProtocol.StopIsForgotten`, and
  exactly when it is remembered: `ClientProtocol.StopIsRememberedExactly`.
- The replay asserts a stack position below 32, yet at depth 32 it writes the child-tick slot one past
  the end (microprofile.h:1700-1704): `ProfilerReplay.ThirtyTwoScopesOverrun`. The true limit is 31 open
  scopes, `ProfilerReplay.StackBoundIsDepth`.
- A second exit reported by one thread breaks the pool of thread logs, and only that does: the free
  list becomes circular, or a log is freed that another thread is using,
  `ProfilerPool.Pool.OnThreadExit`.

## Model

| member | source | states |
|---|---|---|
| `Text.TrimRange` | externals/httplib/httplib.h:2541-2550 | the index pair delimits the trimmed piece, although the left scan may run past the piece's end |
| `Text.Split` | externals/httplib/httplib.h:2569-2589 | yields the trimmed nonempty pieces between delimiters, in order |
| `Text.PiecesAreClean` | externals/httplib/httplib.h:2569-2589 | every piece is nonempty, trimmed, free of the delimiter and made of the text's characters |
| `Urls.FromHex` | externals/httplib/httplib.h:2293-2308 | the value of exactly cnt digits, or failure |
| `Urls.DecodeAt` | externals/httplib/httplib.h:2490-2518 | one decoding step with its %uXXXX, %XX, lone-percent and plus branches appends the specified bytes and consumes the specified length |
| `Urls.DecodeUrl` | externals/httplib/httplib.h:2486-2521 | decodes every string, malformed escapes included |
| `Urls.EncodeQueryParam` | externals/httplib/httplib.h:2433-2452 | percent-encodes all but the unreserved characters |
| `Urls.DecodeInvertsEncode` | externals/httplib/httplib.h:2433-2521 | decoding undoes encoding on every byte string under either plus flag |
| `Urls.EncodedAlphabet` | externals/httplib/httplib.h:2433-2452 | encoded text holds unreserved characters and percent signs only |
| `Urls.Utf8ReadsBack` | externals/httplib/httplib.h:2320-2350 | the bytes written for a code point read back as it by the rules of RFC 3629; for surrogates and numbers that are no code points nothing is written |
| `Urls.DecodeReadsEscapes` | externals/httplib/httplib.h:2486-2521 | every text of plain characters, plus signs, %XX and %uXXXX in either letter case is decoded to what these mean: a plus sign is a blank in a form and itself elsewhere, %uXXXX the UTF-8 bytes of the code |
| `Urls.LonePercent` | externals/httplib/httplib.h:2491-2511 | a percent sign that begins no such escape stands for itself |
| `Urls.ParamsToQuery` | externals/httplib/httplib.h:4265-4275 | joins key=encoded-value pairs with ampersands |
| `Urls.ParseQueryText` | externals/httplib/httplib.h:4277-4298 | collects the decoded pairs into a multimap, each distinct text once |
| `Urls.SimpleKeysArePlain` | externals/httplib/httplib.h:4277-4298 | nonempty keys free of ampersand, equals, percent, plus and blanks survive parsing |
| `Urls.QueryRoundTrip` | externals/httplib/httplib.h:4265-4298 | over plain keys, parsing undoes serializing exactly when no pair occurs twice |
| `Urls.LessIsLexicographic` | externals/httplib/httplib.h:4277-4298 | the key order of the multimap is decided at the first differing byte, or by length |
| `Urls.QueryIsAMultimap` | externals/httplib/httplib.h:4265-4298 | pairs written in any order are parsed into a multimap: keys sorted, for each key its pairs in the order of the text, repeated pairs once |
| `Headers.ParseHeader` | externals/httplib/httplib.h:3754-3789 | key and decoded value of a header line, or rejection; Location keeps its percents |
| `Headers.StartWithCaseIgnore` | externals/httplib/httplib.h:4533-4540 | prefix test up to letter case |
| `Headers.CaseIsIgnored` | externals/httplib/httplib.h:4533-4540 | the comparison holds exactly when each character is the same or the same letter in the other case |
| `Headers.ParseDispositionParams` | externals/httplib/httplib.h:4311-4333 | the parameters of a Content-Disposition line, quotes removed, repeated texts once |
| `Multipart.ParseHeaderLine` | externals/httplib/httplib.h:4424-4473 | effect of one header line on the part's name, file name and type, or rejection; what that is for each kind of line is `MultipartForeign.LineReads` |
| `Multipart.TurnDescends` | externals/httplib/httplib.h:4394-4523 | every turn of the parser's loop makes progress, so parse returns |
| `Multipart.MultipartFormDataParser.Slide` | externals/httplib/httplib.h:4595-4603 | moves the unread bytes to the front of the buffer in place, keeping them |
| `Multipart.MultipartFormDataParser.Append` | externals/httplib/httplib.h:4595-4611 | the unread bytes are those before followed by the data |
| `Multipart.MultipartFormDataParser.StartsWith` | externals/httplib/httplib.h:4553-4560 | tells whether the text occurs at the position |
| `Multipart.MultipartFormDataParser.BufStartsWith` | externals/httplib/httplib.h:4568-4570 | tells whether the unread bytes begin with the text |
| `Multipart.MultipartFormDataParser.BufFind` | externals/httplib/httplib.h:4572-4593 | the offset of the first occurrence, or the size of the unread part |
| `Multipart.MultipartFormDataParser.HeaderCallback` | externals/httplib/httplib.h:6089-6095 | opens a new item and refuses the 1025th |
| `Multipart.MultipartFormDataParser.ReadHeaders` | externals/httplib/httplib.h:4409-4479 | the header state, lines and blank line, refines its specification |
| `Multipart.MultipartFormDataParser.ReadOpening` | externals/httplib/httplib.h:4396-4403 | the initial state, which erases what does not hold the whole opening delimiter |
| `Multipart.MultipartFormDataParser.ReadBody` | externals/httplib/httplib.h:4480-4502 | the body state: hands over all content but a delimiter's length until the delimiter is found |
| `Multipart.MultipartFormDataParser.ReadBoundary` | externals/httplib/httplib.h:4503-4519 | the boundary state: next part, end with the epilogue dropped, or wait |
| `Multipart.MultipartFormDataParser.Parse` | externals/httplib/httplib.h:4389-4524 | one call computes the abstract parser's step on unread bytes and data, for every state and input |
| `Multipart.ReceiveForm` | externals/httplib/httplib.h:6129-6155 | feeding pieces to a new parser gives what feeding them to the abstract parser gives |
| `MultipartProof.Serialize` | externals/httplib/httplib.h:4694-4707 | the serialized form of all items with the closing delimiter |
| `MultipartParts.DelimiterHasNoBorder` | externals/httplib/httplib.h:4381-4385 | the delimiter's first character occurs nowhere else in it |
| `MultipartParts.FindInPrefix` | externals/httplib/httplib.h:4572-4593 | when a prefix of content, delimiter and more has arrived, the search finds the delimiter exactly if it is all there |
| `MultipartProof.DispositionLineParses` | externals/httplib/httplib.h:4668-4673 | the written disposition line is parsed back to name and file name |
| `MultipartProof.TypeLineParses` | externals/httplib/httplib.h:4674-4676 | the written type line is parsed back to the content type |
| `MultipartParts.OneTurn` | externals/httplib/httplib.h:4394-4523 | each turn keeps the parser in step with the text of any parts, whatever part of it has arrived, or gives up over a line that is not accepted or the 1025th part |
| `MultipartParts.RunKeeps` | externals/httplib/httplib.h:4389-4524 | a whole call keeps it in step |
| `MultipartParts.PartsArrive` | externals/httplib/httplib.h:4389-4524 | a form of parts with any header lines, cut anywhere after the opening delimiter, arrives with its items in order and a valid end if and only if there are at most 1024 parts and every line is accepted |
| `MultipartParts.LongLineIsRefused` | externals/httplib/httplib.h:4409-4411 | while headers are read, more than 8192 bytes without a line end make the parser fail |
| `MultipartParts.StuckAfterDelimiter` | externals/httplib/httplib.h:4503-4519 | a delimiter followed by neither a line end nor two dashes leaves the parser taking all data, without failure, further items or a valid end |
| `MultipartForeign.ParamsMean` | externals/httplib/httplib.h:4311-4333 | of parameters in any order, quoted or not and with unknown ones among them, each key has the value first given for it |
| `MultipartForeign.ExtendedReads` | externals/httplib/httplib.h:4458-4466 | filename* with UTF-8'' in any letter case before a percent-encoded byte string is that byte string |
| `MultipartForeign.LineReads` | externals/httplib/httplib.h:4424-4474 | a Content-Disposition line in any letter case and with any gaps sets name and file name, the UTF-8 form overriding the plain one; a Content-Type line sets the type; any other field changes nothing; a line that is no field, a disposition without name and a filename* not in UTF-8 form are refused |
| `MultipartForeign.OthersMeanNothing` | externals/httplib/httplib.h:4435-4474 | header lines the server has no use for change nothing, wherever they stand |
| `MultipartForeign.ForeignArrives` | externals/httplib/httplib.h:4389-4524 | a form of items with any such lines arrives, in order, with the headers the lines say and a valid end, if and only if there are at most 1024 items and no line is one to refuse |
| `MultipartProof.MultipartRoundTrip` | externals/httplib/httplib.h:4377-4707 | any pieces whose first holds the opening delimiter give back exactly the items, in order, and end valid, if and only if there are at most 1024 |
| `MultipartCuts.OpeningMustBeWhole` | externals/httplib/httplib.h:4396-4403 | the parser leaves its initial state exactly when some piece holds the whole opening delimiter, and otherwise is unchanged |
| `MultipartCuts.SkipsTo` | externals/httplib/httplib.h:4396-4403 | what stands before the first opening delimiter of a piece has no effect |
| `MultipartCuts.LateOpening` | externals/httplib/httplib.h:4389-4524 | when the first opening a piece holds is that of item j, exactly the items from j on arrive and the parser ends valid |
| `MultipartCuts.ArrivesFrom` | externals/httplib/httplib.h:4377-4707 | for any pieces of a form whose opening line occurs only where items begin, either nothing is seen or the items from some j on arrive; j is 0 exactly when nothing was lost and the first nonempty piece holds the opening delimiter |
| `MultipartCuts.OpensWholeSuffices` | externals/httplib/httplib.h:4377-4707 | for every good form it is enough that the first nonempty piece holds the opening delimiter |
| `MultipartRegions.NoDelimiterInGap` | externals/httplib/httplib.h:4664-4707 | behind its first byte no delimiter lies within what stands between two contents |
| `MultipartRegions.Advance` | externals/httplib/httplib.h:4613 | reading on from a position of the form stays in its region or goes to a later one |
| `MultipartLate.Located` | externals/httplib/httplib.h:4396-4403 | an opening line anywhere but in the first item's header leaves the parser late: with fewer items than regions behind it, or inside a content |
| `MultipartLate.OpeningInHeader` | externals/httplib/httplib.h:4664-4680 | an opening line within the first item's header ends its disposition or its type line, and the item then has a name, a file name or a type to lose |
| `MultipartLate.TurnLate` | externals/httplib/httplib.h:4394-4523 | every turn of the parser, in every state, keeps it late |
| `MultipartLate.FeedAllLate` | externals/httplib/httplib.h:4389-4524 | however the rest arrives, a late parser does not receive all items |
| `MultipartLate.CutLoses` | externals/httplib/httplib.h:4377-4707 | if the first nonempty piece cuts the opening delimiter, not all items arrive, whatever the contents look like |
| `MultipartLate.RoundTripExactly` | externals/httplib/httplib.h:4377-4707 | for every good form all items arrive if and only if they are at most 1024 and the first nonempty piece holds the opening delimiter; the parser then ends valid |
| `MultipartCuts.MarkFreeIsEnough` | externals/httplib/httplib.h:4664-4707 | a form in which --boundary occurs in no header line and no content, with a boundary not made of dashes alone, has its opening line only where items begin |
| `MultipartCuts.CutLosesFirstItem` | externals/httplib/httplib.h:4396-4403 | a form cut within its opening delimiter and nowhere else arrives without its first item, and the parser ends valid |
| `MultipartCuts.CutTwoItems` | externals/httplib/httplib.h:4396-4403 | an instance: of two items cut after the first byte the second arrives alone, with success and a valid end |
| `MultipartCuts.ShortPiecesAreLost` | externals/httplib/httplib.h:4396-4403 | pieces all shorter than the opening delimiter leave no item and no valid end |
| `Streams.Socket.Receive` | externals/httplib/httplib.h:2763-2773 | an arbitrary short read: takes a prefix of the unread bytes, nothing only at the end, or fails |
| `Streams.SocketStream.Deliver` | externals/httplib/httplib.h:5432-5443 | hands out buffered bytes in order |
| `Streams.SocketStream.Fill` | externals/httplib/httplib.h:5445-5463 | moves bytes from the socket to the buffer without changing what is pending |
| `Streams.SocketStream.Read` | externals/httplib/httplib.h:5423-5467 | delivered, buffered and unread bytes always make up the socket's stream; zero only at its end |
| `Streams.BlankLineIsExact` | externals/httplib/httplib.h:3905-3915 | comparing a line with CRLF as C strings compares the whole line, embedded NULs included |
| `Streams.LineReader.Append` | externals/httplib/httplib.h:2643-2654 | appends a byte in the fixed or the growing buffer; the assertion on the terminator holds |
| `Streams.LineReader.Text` | externals/httplib/httplib.h:2596-2610 | the line, whichever buffer holds it |
| `Streams.LineReader.GetLine` | externals/httplib/httplib.h:2617-2641 | reads exactly the next line and leaves the rest, or fails at the end or on an error |
| `Chunked.FromIToHex` | externals/httplib/httplib.h:2310-2318 | the hexadecimal digits of every number, zero included |
| `Chunked.SizeLine` | externals/httplib/httplib.h:3892-3895 | strtoul of a written size line is the size, capped at the largest unsigned long |
| `ChunkedProof.SizeLineWith` | externals/httplib/httplib.h:3892-3895 | a size line with 0x before its digits or an extension behind them is read as its size |
| `ChunkedProof.SizeLineSigned` | externals/httplib/httplib.h:3892-3895 | blanks and a plus sign before the digits make no difference; a minus sign wraps the number around the unsigned long |
| `ChunkedProof.NoSize` | externals/httplib/httplib.h:3892-3894 | a line that does not begin with a number is no size line |
| `Chunked.ReadContentWithLength` | externals/httplib/httplib.h:3830-3850 | takes exactly len bytes off the stream in pieces, or all there were |
| `Chunked.FieldOf` | externals/httplib/httplib.h:3918-3925 | the field of a trailer line less its last two bytes, none for a shorter line |
| `Chunked.ReadTrailerLines` | externals/httplib/httplib.h:3912-3930 | the trailer fields up to the blank line, or rejection |
| `Chunked.ReadChunk` | externals/httplib/httplib.h:3899-3907 | one chunk's data, its CRLF and the next size line |
| `Chunked.ReadContentChunked` | externals/httplib/httplib.h:3878-3931 | for every pattern of short reads, the specified outcome of the whole stream with the rest left unread; a failing read yields a prefix and no success |
| `ChunkedWriter.WriteData` | externals/httplib/httplib.h:4033-4041 | all bytes are written in order whatever the short writes, or failure is reported after a prefix |
| `ChunkedWriter.SinkWrite` | externals/httplib/httplib.h:4133-4158 | one chunk for a nonempty block, nothing for an empty one |
| `ChunkedWriter.SinkDone` | externals/httplib/httplib.h:4162-4204 | last chunk, trailer fields and final CRLF; failures on the way are remembered |
| `ChunkedWriter.WriteContentChunked` | externals/httplib/httplib.h:4124-4227 | sends exactly the session's bytes and reports its error; a failed write is always reported, after all bytes of some sink calls and at most fragments of the next |
| `ChunkedProof.ChunkArrives` | externals/httplib/httplib.h:3886-3908 | a written chunk is read back as its block, after which reading goes on as at the start |
| `ChunkedProof.FieldsArrive` | externals/httplib/httplib.h:3912-3930 | written trailer fields are read back in order, those with empty value dropped |
| `ChunkedProof.FinishArrives` | externals/httplib/httplib.h:3910-3931 | the terminating chunk ends reading right behind it |
| `ChunkedProof.AnyChunkReads` | externals/httplib/httplib.h:3886-3908 | a chunk from any writer delivers its data; if a CRLF follows, reading goes on behind it as at the start, and if not the body is rejected |
| `ChunkedProof.AnyFinishReads` | externals/httplib/httplib.h:3910-3931 | any size line that says 0, field lines and a blank line end the body right behind them |
| `ChunkedProof.LongTrailerIsRejected` | externals/httplib/httplib.h:3915-3916 | a trailer line of more than 8192 bytes rejects the body |
| `ChunkedProof.OddTrailerIsSkipped` | externals/httplib/httplib.h:3915-3928 | a trailer line without a colon, a bare LF among them, is skipped |
| `ChunkedProof.BareLineEndTakesAByte` | externals/httplib/httplib.h:3918-3925 | the last two bytes of a trailer line are taken for its end whatever they are, so a line with a bare LF loses the last byte of its value |
| `ChunkedProof.ReaderSeesActions` | externals/httplib/httplib.h:3878-4226 | for every sequence of sink calls the reader receives what the specification says |
| `ChunkedProof.ReceivedExactly` | externals/httplib/httplib.h:3878-4226 | the body arrives whole exactly when done was called and every size is below ULONG_MAX; otherwise it is rejected after a prefix |
| `ChunkedProof.UnfinishedSuccessExactly` | externals/httplib/httplib.h:4212-4226 | success is reported without done having been called if and only if the loop stops short: a shutdown is noticed, or a turn ends with an empty write, before done |
| `ChunkedProof.NothingAvailable` | externals/httplib/httplib.h:4133-4135 | without done, a turn ends the loop exactly when its last call is an empty write |
| `ChunkedProof.SuccessExactly` | externals/httplib/httplib.h:3878-4226 | after reported success the other side completes the body if and only if the loop did not stop short; either way it has all blocks |
| `ChunkedProof.EmptyWriteTruncates` | externals/httplib/httplib.h:4133-4144 | an instance of stopping short: an empty write as the last call of a turn |
| `ChunkedProof.EmptyWriteInside` | externals/httplib/httplib.h:4133-4144 | an empty write that another write follows in its turn does not stop the loop |
| `ChunkedProof.ShutdownTruncates` | externals/httplib/httplib.h:4212 | an instance of stopping short: a shutdown between two turns |
| `ChunkedProof.ReadThrough` | externals/httplib/httplib.h:3878-3931 | chunks without a terminator deliver their blocks, and what follows is read as from the start |
| `ChunkedProof.CutChunkIsRejected` | externals/httplib/httplib.h:3878-3908 | a chunk cut anywhere is rejected, with at most the bytes of its block |
| `ChunkedProof.FailedWriteIsRejected` | externals/httplib/httplib.h:4133-4158 | what a writer that fails in a write has sent is rejected by the reader, after a prefix of the blocks |
| `ChunkedProof.TornDoneIs` | externals/httplib/httplib.h:4187-4203 | what a failing done has sent is a prefix of the marker, of each field line and of the final CRLF |
| `ChunkedProof.FailedDoneExactly` | externals/httplib/httplib.h:4187-4203 | behind a whole marker, the reader takes the body for whole exactly when the final CRLF was taken, no fragment of a field stands before it and no joined line is too long; the fields it then reads are those of the lines as they came out |
| `ChunkedProof.TornMarkerIsRejected` | externals/httplib/httplib.h:4187-4203 | with neither the marker nor a field line taken whole the body is rejected |
| `ChunkedProof.TornMarkerReads` | externals/httplib/httplib.h:4187-4203 | with the marker torn, the first whole field line is read as a size line: without a number rejected, with zero as behind a whole marker |
| `ChunkedProof.LostTrailerLooksWhole` | externals/httplib/httplib.h:4192-4203 | an instance: the only field line is refused and the final CRLF taken; the reader completes the body without the trailer |
| `ChunkedProof.Transfer` | externals/httplib/httplib.h:3878-4226 | writer and reader together over any cutting wire deliver the blocks and trailers, exactly when done was called and sizes fit |
| `Base64.Base64Encode` | externals/httplib/httplib.h:2354-2380 | with its wrapping 32-bit accumulator computes the encoding of section 4 of RFC 4648 for inputs of every length |
| `Base64.SymbolIsLookup` | externals/httplib/httplib.h:2355-2356 | the symbol of a digit is the character of the lookup table at that index |
| `Base64.ShiftKeepsPending` | externals/httplib/httplib.h:2364-2365 | bits shifted out of the accumulator never affect a pending bit |
| `Base64.EncodedLength` | externals/httplib/httplib.h:2354-2380 | the output has 4 * ceil(n / 3) characters |
| `Base64.DecodedEncoded` | externals/httplib/httplib.h:2354-2380 | a decoder written from the RFC recovers every byte string |
| `PathParams.NextParam` | externals/httplib/httplib.h:5534-5559 | one turn of the constructor finds the next fixed text and parameter name |
| `PathParams.Construct` | externals/httplib/httplib.h:5522-5565 | fragments and names of the pattern, in order |
| `PathParams.Match` | externals/httplib/httplib.h:5567-5608 | succeeds exactly when there are captures, and then maps names to them |
| `PathParams.SamePrefixIsPrefix` | externals/httplib/httplib.h:5583-5586 | strncmp against a fragment without NUL is the prefix test |
| `PathParams.MatchesExactlyInstances` | externals/httplib/httplib.h:5522-5608 | a path matches with given captures if and only if they are free of separators and the path is the pattern's instance, up to one trailing separator after a final parameter |
| `PathParams.ParamsAreFirst` | externals/httplib/httplib.h:5598-5601 | the map holds exactly the names, each with the value of its first occurrence |
| `PathParams.FirstValueStays` | externals/httplib/httplib.h:5598-5601 | a repeated name keeps its first value |
| `PathParams.ParamsAreCaptures` | externals/httplib/httplib.h:5598-5601 | every name maps to its own capture if and only if equal names have equal captures |
| `PathParams.RepeatedName` | externals/httplib/httplib.h:5522-5608 | a pattern /:name/:name is accepted, and of the two values of a matching path the first is kept |
| `ThreadPool.StepKeepsInv` | externals/httplib/httplib.h:684-731 | every step of every thread keeps order, exit and notification invariants |
| `ThreadPool.QueueIsSafe` | externals/httplib/httplib.h:672-743 | in every reachable state jobs are taken once and in order, none is left when all workers have exited, and no job waits with all workers asleep and no notification on its way |
| `ThreadPool.JobsRunOnceInOrder` | externals/httplib/httplib.h:709-731 | in every run the jobs that workers are found to be running after their checks, followed by the queue, are the jobs enqueued, in order: each is run once, and all have been when the workers have exited |
| `ThreadPool.RunsUntilFinish` | externals/httplib/httplib.h:727-728 | a worker goes on running its job until that returns, whatever other threads do |
| `ThreadPool.ShutdownDescends` | externals/httplib/httplib.h:693-706 | after shutdown every step, spurious wakeups included, leaves less to do |
| `ThreadPool.ShutdownGoesOn` | externals/httplib/httplib.h:693-731 | while a worker has not exited some step is possible |
| `ThreadPool.ShutdownEnds` | externals/httplib/httplib.h:693-731 | runs after shutdown are bounded, and where they stop all workers have exited with every job taken |
| `ThreadPool.RestsOnlyWhenIdle` | externals/httplib/httplib.h:709-731 | without shutdown the pool comes to rest only with an empty queue |
| `ClientProtocol.StepKeepsInv` | externals/httplib/httplib.h:6876-6973 | every step keeps the in-flight count equal to the marked calls of the mutex holder |
| `ClientProtocol.CloseIsSafe` | externals/httplib/httplib.h:6808-6838 | in every interleaving, the socket is closed only with nothing in flight or by the thread all in-flight requests belong to; when it is closed is `ClientProtocol.StaysOpenExactly` |
| `ClientProtocol.CountingIsSafe` | externals/httplib/httplib.h:6928-6954 | the assertions at marking and unmarking hold and the counter never underflows |
| `ClientProtocol.StepAndConnection` | externals/httplib/httplib.h:6886-6962 | the steps that call close_socket leave the connection closed, unless a send then connects; no other step closes it, and only a send that connects opens it |
| `ClientProtocol.CloseLasts` | externals/httplib/httplib.h:6956-6961 | a request that asked for closing or failed, a response that says close and a stop with nothing in flight leave the connection closed until a send connects |
| `ClientProtocol.FinishKeepsOpen` | externals/httplib/httplib.h:6956-6961 | a keep-alive request that succeeds leaves the connection as it was, if stop was not called since the last send began |
| `ClientProtocol.StaysOpenExactly` | externals/httplib/httplib.h:6947-6962 | while no send begins, the connection stays open if and only if no step closes it, which the steps tell: no failed, closing or stopped request finishes, no response says close, and no stop comes with as many requests finished as were in flight |
| `ClientProtocol.TwoAttempts` | externals/httplib/httplib.h:6876-6884 | every send makes at most two attempts, over any run |
| `ClientProtocol.StopIsHonoured` | externals/httplib/httplib.h:6956-6961 | a stop made during a request closes the socket when the request finishes, unless another send begins |
| `ClientProtocol.StopIsRememberedExactly` | externals/httplib/httplib.h:6890-6892 | between stops the flag stays set if and only if no send begins |
| `ClientProtocol.StoppedIsReached` | externals/httplib/httplib.h:7973-7994 | a stop during a request does occur |
| `ClientProtocol.StopIsForgotten` | externals/httplib/httplib.h:6890-6892 | with a redirect begun after stop both the inner and the outer request finish and leave the connection open |
| `ProfilerEntry.MakeEntry` | externals/microprofile/microprofile.h:845-854 | kind, timer and tick can be read back from a packed entry |
| `ProfilerEntry.TickDifferenceExact` | externals/microprofile/microprofile.h:856-862 | the shifted 64-bit subtraction is the true difference if and only if that lies in [-2^47, 2^47), however often ticks wrapped |
| `ProfilerReplay.ExclusiveConserved` | externals/microprofile/microprofile.h:1696-1747 | over any log, balanced or not, exclusive time credited less child ticks on the stack never changes, and the bottom slot collects the outermost scopes |
| `ProfilerReplay.ExclusiveIsOutermost` | externals/microprofile/microprofile.h:1696-1747 | with nothing open, exclusive time credited is the time of the outermost scopes |
| `ProfilerReplay.ReplayAgreesWithForest` | externals/microprofile/microprofile.h:1683-1747 | replaying a flattened forest credits each timer with its inclusive and exclusive time and calls, and each group with its outermost scopes |
| `ProfilerRagged.StrayLeave` | externals/microprofile/microprofile.h:1719-1723 | a LEAVE with nothing open is ignored |
| `ProfilerRagged.RaggedLogCredits` | externals/microprofile/microprofile.h:1694-1756 | a log with scopes entered before it and scopes still open at its end credits timers with its whole scopes, groups with the outermost of them, and leaves the open ENTER entries on the stack |
| `ProfilerReplay.StackBoundIsDepth` | externals/microprofile/microprofile.h:1700-1704 | a forest is replayed within the stack arrays if and only if it is at most 31 deep |
| `ProfilerReplay.ThirtyTwoScopesOverrun` | externals/microprofile/microprofile.h:1700-1704 | an instance: 31 nested scopes are replayed within the arrays, 32 are not |
| `ProfilerReplay.OpenAtTracks` | externals/microprofile/microprofile.h:1696-1728 | the position stack always names the ENTER entries of the open scopes, oldest first |
| `ProfilerReplay.RunIgnoresOuter` | externals/microprofile/microprofile.h:1723-1728 | the ENTER entry of a scope that is not closed does not influence the replay |
| `ProfilerReplay.FrameCutsDoNotMatter` | externals/microprofile/microprofile.h:1618-1774 | accumulated totals are the same wherever the log is cut into frames |
| `ProfilerReplay.FlipsAgreeWithForest` | externals/microprofile/microprofile.h:1618-1774 | a forest's log cut into frames anywhere accumulates the forest's totals |
| `ProfilerThread.ThreadReplay.EnterScope` | externals/microprofile/microprofile.h:1696-1706 | the in-place push is the machine's |
| `ProfilerThread.ThreadReplay.LeaveScope` | externals/microprofile/microprofile.h:1718-1748 | the in-place pop and crediting are the machine's |
| `ProfilerThread.ThreadReplay.LeaveGroupScope` | externals/microprofile/microprofile.h:1737-1746 | the group counter goes down and the outermost scope credits its group, as in the machine |
| `ProfilerThread.ThreadReplay.ReplayRange` | externals/microprofile/microprofile.h:1689-1749 | the loop over a range is the machine's run over its entries, and the position stack names the open ones |
| `ProfilerThread.ThreadReplay.ReplayFrame` | externals/microprofile/microprofile.h:1620-1757 | both ranges of a frame on cleared totals |
| `ProfilerRing.GetRange` | externals/microprofile/microprofile.h:1481-1498 | the two ranges list the slots between the cursors, in order and without gap |
| `ProfilerRing.LogRing.Put` | externals/microprofile/microprofile.h:1387-1402 | an entry is refused exactly when its frame holds BUFFER_SIZE - 1 entries |
| `ProfilerRing.LogRing.Snapshot` | externals/microprofile/microprofile.h:1558-1616 | the put cursor becomes the start of a new frame |
| `ProfilerRing.LogRing.Cursors` | externals/microprofile/microprofile.h:1561-1565 | the history slots give the bounds of the frame four flips back, also after 512 flips and before the fourth |
| `ProfilerRing.LogRing.FrameRanges` | externals/microprofile/microprofile.h:1658-1661 | the ranges hold the frame that is due, if at most BUFFER_SIZE entries came since it began |
| `ProfilerRing.LogRing.Visit` | externals/microprofile/microprofile.h:1648-1693 | while visits are in time, the entries delivered are those accepted, each once and in put order |
| `ProfilerRing.LogRing.EqualCursorsMeanEmpty` | externals/microprofile/microprofile.h:1481-1498 | equal cursors mean an empty frame |
| `ProfilerPipeline.FrameContinues` | externals/microprofile/microprofile.h:1618-1774 | a frame on cleared totals, added up, continues the uninterrupted replay |
| `ProfilerPipeline.Profiler.constructor` | externals/microprofile/microprofile.h:633-648 | a new pipeline has nothing accepted, delivered or flipped, and zero totals |
| `ProfilerPipeline.Profiler.Put` | externals/microprofile/microprofile.h:1387-1402 | an entry is accepted exactly when its frame has room; totals, stack and ring stay in step with the entries delivered, flips and visits as they were |
| `ProfilerPipeline.Profiler.Snapshot` | externals/microprofile/microprofile.h:1558-1616 | the first half of a flip adds a frame start and changes nothing else |
| `ProfilerPipeline.Profiler.ReplayDue` | externals/microprofile/microprofile.h:1658-1757 | finds the frame that is due in one or two ranges of the ring and replays exactly its entries, the stack naming the open ones |
| `ProfilerPipeline.Profiler.Visit` | externals/microprofile/microprofile.h:1618-1774 | a flip adds one log's frame that is due, keeping the totals those of one replay of all entries delivered, across the end of the ring |
| `ProfilerPipeline.TotalsAreTheForests` | externals/microprofile/microprofile.h:1618-1774 | when a pipeline has delivered the log of a forest, its accumulated totals are the forest's inclusive, exclusive, call and group totals |
| `ProfilerSchedule.RunSchedule` | externals/microprofile/microprofile.h:1387-1774 | any schedule of puts, snapshots and visits in time, from a new log on: delivered is what the schedule says, in order, and the totals are those of one replay of it |
| `ProfilerSchedule.ProfileForest` | externals/microprofile/microprofile.h:1387-1774 | a schedule that delivers the log of a forest ends with the forest's totals |
| `ProfilerSchedule.ProfileOneFrame` | externals/microprofile/microprofile.h:1387-1774 | every forest that fits a frame has such a schedule: put it, flip four times |
| `ProfilerThreads.RunAllAdds` | externals/microprofile/microprofile.h:1648-1757 | one flip over all logs, replayed one after the other into shared totals, adds the sum of the logs' shares |
| `ProfilerThreads.FlipAllAdds` | externals/microprofile/microprofile.h:1618-1774 | however the logs are cut into frames, the accumulated totals are the sum of the shares of the uninterrupted logs |
| `ProfilerThreads.AllThreadsAgreeWithForests` | externals/microprofile/microprofile.h:1618-1774 | for one forest to a thread, the totals accumulated over all logs are the sums of the forests' totals |
| `ProfilerThreads.SharedTotalsAreTheSum` | externals/microprofile/microprofile.h:1618-1774 | the one set of totals kept by the flips, over the frames that any number of rings deliver, is the sum of what their pipelines accumulate |
| `ProfilerThreads.PipelinesAddUp` | externals/microprofile/microprofile.h:1618-1774 | when each ring has delivered the log of a forest, that set of totals holds the sums over the forests |
| `ProfilerPool.Pool.constructor` | externals/microprofile/microprofile.h:1118-1130 | the pool starts with the GPU log in slot 0 and an empty free list |
| `ProfilerPool.Pool.CreateThreadLog` | externals/microprofile/microprofile.h:1170-1196 | hands out a log that was free or new, never slot 0, with empty cursors and stacks |
| `ProfilerPool.Pool.OnThreadCreate` | externals/microprofile/microprofile.h:1198-1207 | the new thread shares its log with no live thread |
| `ProfilerPool.Pool.OnThreadExit` | externals/microprofile/microprofile.h:1209-1237 | the log returns to the free list; the pool stays sound if and only if it is the thread's first exit; a second exit makes the list circular if the log is on it, and else frees a log that a live thread is using |
| `Getopt.HitConsumes` | externals/getopt/getopt.c:276-421 | every reading consumes characters, so a run ends |
| `Getopt.ScanMerges` | externals/getopt/getopt.c:276-421 | the scan sorts the arguments into option elements and operands, each in original order |
| `Getopt.MergeIsPermutation` | externals/getopt/getopt.c:276-421 | sorted arguments are a permutation of the original ones |
| `Getopt.SwapStretches` | externals/getopt/getopt.c:91-96 | swaps two disjoint stretches and touches nothing else |
| `Getopt.SwapIntoTop` | externals/getopt/getopt.c:87-98 | moving the shorter lower block to the top leaves the rest of the exchange |
| `Getopt.SwapIntoBottom` | externals/getopt/getopt.c:99-110 | moving the shorter upper block to the bottom leaves the rest of the exchange |
| `Getopt.GetoptData.Exchange` | externals/getopt/getopt.c:79-114 | rotates the two blocks in place for all lengths, keeping the order inside each and everything else |
| `Getopt.GetoptData.FindLong` | externals/getopt/getopt.c:126-170 | exact name first, else the first abbreviation, and whether it is ambiguous |
| `Getopt.GetoptData.ProcessLongOption` | externals/getopt/getopt.c:116-247 | reads a long option as specified, with its argument or its complaint |
| `Getopt.GetoptData.ShortOption` | externals/getopt/getopt.c:351-420 | reads one short option of a cluster, with optional or required argument or the -W form, as specified; what it reads for each form is `GetoptUsage.LastReads` |
| `Getopt.GetoptData.OptionElement` | externals/getopt/getopt.c:330-349 | a fresh option element is read as specified |
| `Getopt.GetoptData.Gather` | externals/getopt/getopt.c:297-301 | operands so far go behind the options so far |
| `Getopt.GetoptData.SkipOperands` | externals/getopt/getopt.c:302-304 | operands before the next option element join the block |
| `Getopt.GetoptData.DashDash` | externals/getopt/getopt.c:306-316 | after two dashes the run is over, options first and all that follows operands |
| `Getopt.GetoptData.Call` | externals/getopt/getopt.c:276-421 | one call does what the plain scan of the original arguments does next, leaving the unread suffix alone |
| `Getopt.GetoptData.Initialize` | externals/getopt/getopt.c:249-274 | start index, empty block and ordering |
| `Getopt.UntilExactly` | externals/getopt/getopt.c:276-421 | the run reaches the end of the scan exactly when no report has the value -1 |
| `Getopt.ParseAll` | externals/getopt/getopt.c:276-421 | calls until -1 report what the scan reports; the arguments end as options then operands in original order, a permutation, with optind between them; an option that itself returns -1 ends the run there, with the rest unread |
| `GetoptUsage.OrderIsSaid` | externals/getopt/getopt.c:249-274 | the ordering asked for by a leading - or + of the option string, or by POSIXLY_CORRECT |
| `GetoptUsage.LetterReads` | externals/getopt/getopt.c:351-364 | a letter without colon behind it in the option string is reported alone, one that is not in it with a complaint |
| `GetoptUsage.LastReads` | externals/getopt/getopt.c:365-420 | an option with one colon takes the rest of its argument or the next one, with two colons only the rest; -W; takes a long option from either; with nothing left there is a complaint, ? or : as the option string says |
| `GetoptUsage.LongReads` | externals/getopt/getopt.c:116-247 | a long option by its name or an abbreviation of it, unambiguous up to effect, with =argument or the next one, returns its value or sets its flag; an unwanted or missing argument, an unknown and an ambiguous name are complaints |
| `GetoptUsage.ScanReadsLine` | externals/getopt/getopt.c:116-421 | every command line of operands, clusters of letters and long options, with or without a -- behind them, is read part by part as it is meant, in all three orderings |
| `GetoptUsage.EveryLineIsRead` | externals/getopt/getopt.c:116-421 | every list of arguments is such a command line, so this is the meaning of every input |
| `Resampler.AtIsLinear` | src/audio_core/interpolate.cpp:43 | the n-th position is the first plus n steps |
| `Resampler.CountIsExact` | src/audio_core/interpolate.cpp:32-44 | the count emitted is what the input and the frame allow, no less and no more |
| `Resampler.SamplesAre` | src/audio_core/interpolate.cpp:32-44 | the i-th sample is computed from the three samples around position p + i * step and its fraction |
| `Resampler.Fill` | src/audio_core/interpolate.cpp:32-44 | the loop writes exactly the samples of the formula and nothing else |
| `Resampler.State.StepOverSamples` | src/audio_core/interpolate.cpp:19-51 | output, history, position and leftover input are those of the specification |
| `Resampler.PlayInStep` | src/audio_core/interpolate.cpp:19-51 | after any schedule the output is a prefix of the one-shot formula over history and all input, and history and leftover are the unconsumed suffix |
| `Resampler.DrainedEmitsAll` | src/audio_core/interpolate.cpp:19-51 | with room to spare at the end, everything the input allows has been emitted |
| `Resampler.ScheduleIndependent` | src/audio_core/interpolate.cpp:19-51 | the same input gives the same output however it is split into calls and frames |
| `Resampler.PositionsStayBounded` | src/audio_core/interpolate.cpp:28-48 | positions stay within a step of the stream's end |
| `Interpolation.LinearChannelIsExact` | src/audio_core/interpolate.cpp:64-73 | the wrapped 64-bit arithmetic and 16-bit cast give x0 plus the floor of the exact product, between the two samples |
| `Interpolation.EmittedBetweenNeighbours` | src/audio_core/interpolate.cpp:60-74 | every emitted sample lies between the stream samples around its position, in both channels |
| `Interpolation.EmittedExactly` | src/audio_core/interpolate.cpp:54-74 | what is emitted at a position: with linear interpolation the sample before it plus the floor of fraction times saturated difference, in each channel; without interpolation the sample before it |
| `Adpcm.SafeExactly` | src/audio_core/codec.cpp:47-52 | a coefficient pair satisfies the stated bound if and only if the filter sum fits 32 bits for every nibble, scale and history |
| `Adpcm.SmallCoefficientsAreSafe` | src/audio_core/codec.cpp:47-52 | coefficients with absolute values summing to at most 49152 are safe |
| `Adpcm.SafeFilterIsExact` | src/audio_core/codec.cpp:46-59 | with safe coefficients the 32-bit filter is the filter over the integers |
| `Adpcm.DecodeRecurs` | src/audio_core/codec.cpp:36-59 | every output is the saturated, rounded second-order filter of its nibble, scale and coefficients as the data bytes give them and of the two outputs before it, over the integers for safe coefficients and in 32 bits for all; the state left is the last two outputs |
| `Adpcm.DecodeByte` | src/audio_core/codec.cpp:64-72 | one byte gives two samples, high nibble first |
| `Adpcm.DecodeFrame` | src/audio_core/codec.cpp:36-73 | a frame decodes as the sample-by-sample reference does, with all writes in range |
| `Adpcm.DecodeADPCM` | src/audio_core/codec.cpp:16-80 | output and carried state are the reference's, the count rounded up to even; every sample returned obeys the recurrence of `Adpcm.DecodeRecurs`, and the new state is the last two |
| `Adpcm.DecodingComposes` | src/audio_core/codec.cpp:16-80 | decoding composes at frame boundaries with the state carried over |
| `Adpcm.RoundsAtTheEnd` | src/audio_core/codec.cpp:28-29 | after whole frames only the last count is rounded up to even |
| `Adpcm.SplitBuffers` | src/audio_core/codec.cpp:16-80 | two buffers cut after whole frames decode to what one does |

## Left out

- Sockets, polling, DNS, TLS, compression and certificates are not part of this model; a stream is a script of short reads, short writes and failures.
- The receiver's and progress callbacks always accept; a receiver that refuses data only ends the read early.
- A provider is given by the turns it takes. The theorems hold for every list of turns and every script, so a provider that reacts to what the sink answers is covered by the list of what it did.
- ChunkedProof.TornMarkerReads: does not say what is read when the marker is torn and the first whole field line reads as a size above zero, because the later field lines are then data and size lines in turn.
- `Content-Disposition` is matched by a prefix matcher in place of the regular expression.
- Header and parameter multimaps are sequences in insertion order, except in `Urls`, where the key order of the multimap is modelled.
- MultipartParts.PartsArrive: asks for header lines of less than 8192 bytes, because the limit is applied to the line at the front of the buffer only and so a longer one is refused or not depending on the pieces it arrives in.
- MultipartCuts.ArrivesFrom: what arrives of a cut form is stated for forms whose opening line occurs only where an item begins (MarkFreeIsEnough gives a test for it); of others MultipartLate says that it is not all.
- Server routing, regular-expression routes, redirect and range parsing, digest authentication, status and MIME tables.
- The TLS client's proxy connection: closing while connecting is one outcome of the connecting step.
- Jobs that throw, a pool without workers, and enqueuing after shutdown.
- microprofile's meta counters, GPU time stamps, context switches, web server, user interface, dumps, maxima, aggregates and float conversions; tick totals are unbounded integers, while tick differences, kinds and group depths have their widths.
- ProfilerPipeline.Profiler.Visit: asks for 31 open scopes at most, for a frame still in the ring, and for the ENTER entries of the scopes the frame closes to be in the ring, because the original then reads other entries or leaves its arrays. It keeps one log's totals; ProfilerThreads adds the logs up.
- ProfilerPool.Pool.CreateThreadLog: requires a free slot among the 32, because the original then writes past its array; a log is named by its index, thread names are left out.
- Pausing the profiler and thread exit while entries are undelivered.
- The wide-character half of getopt, which repeats the narrow one, error messages and the environment lookup; the ordering it decides is a parameter.
- Getopt.ParseAll: with long_only, requires that no long option without a flag has the value -1, because the original then takes the option for none and reads the argument behind it, which need not exist.
- The resampler's float rate: the integer step is a parameter, and it may be zero. Positions are unbounded; PositionsStayBounded gives the bound that keeps them in 64 bits.
- The other sample codecs (8- and 16-bit PCM), audio sinks, inputs and the DSP interface: they would only add easy members.
