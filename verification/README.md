# Proofs about the SecureCloud services

SecureCloud is a set of C++ services: a gateway that speaks HTTP through the vendored `httplib.h`
(cpp-httplib 0.26.0, built without OpenSSL, zlib, brotli and zstd), an authentication service, a messaging
service and a file service. This project models the parts of them whose correctness does not show in any one
body, and proves properties of them over all inputs, all runs and all interleavings.

A C++ `std::string` is a Dafny `string` with one `char` per byte, or a `seq<bv8>` where bits matter. Code
that updates fields is a class; its methods are proved against functions of the old state, and the theorems
are about those functions. A stream is the sequence of bytes still to come, cut by arbitrary short reads.

## What is proved

**Multipart uploads.** `MultipartSpec` states what one `parse` call of `FormDataParser` does to the abstract
parser (state, unread bytes, part info, callbacks received). `FormDataParserClass.FormDataParser` is the
parser itself, with the buffer it compacts in place and its two cursors, and refines that function; its loop
ends by (bytes left, state 1 before state 2). `MultipartConfluence` shows that cutting the input differently
changes nothing: the hold-back window loses no delimiter. `MultipartRoundTrip` prints items with the
serializer and reads back exactly the items from every way of cutting the body into calls. `MultipartExact`
says where this ends: the round trip holds if and only if no content holds the delimiter, and a name or filename
survives if and only if it has no `;` and no `=`. `MultipartSplits` says exactly when the cut does matter: an
input that closes on its last byte parses the same under every cut if and only if all its header lines are
short, and bytes read after the closing delimiter change nothing in the parser's state if and only if there are
none or they begin with two dashes. `MultipartLines.UploadExact` sums up: items with plain headers come back from
every cut of their serialized form if and only if all their header lines are shorter than the limit and no content
holds the delimiter.

`MultipartSections` is the same round trip with any other header lines in the sections, and `HeaderForms` and
`SectionHeaders` say which lines are well formed, and which are read alike, read over or refused.

**Chunked bodies.** `ChunkedSpec.Decode` and `ChunkedSpec.Encode` are the reader and the writer as functions
of bytes, where a call of the content provider may act on the sink any number of times; `ChunkedRoundTrip` composes
them, with the payload limit and the bytes that follow: writes within the limit arrive if and only if no call before
the one that is done ends with an empty write. `ChunkedStream` runs the real loops over `SocketStream`'s read-ahead
buffer and `stream_line_reader`'s two buffers, under every schedule of short reads, and `ChunkedStream.Transfer` is
the whole path. `ChunkedReader` is about bodies the writer does not produce: other spellings of a size, chunk
extensions, trailer fields and errors.

**Byte ranges.** `RangeMeaning` reads off the header alone which ranges can be satisfied and which bytes they ask for,
and proves that exactly those lists are accepted and exactly those bytes covered. Coalescing is modelled for every tie
order of the sort (any permutation sorted by start): coverage is kept, the result is disjoint and non-adjacent if and
only if every repeated range is reached by one that starts in front of it, and an accepted list never asks for more
than three times the content. The three interpretations of the multipart traversal agree on length and bytes, and
`RangesReadBack` reads the body back with the form parser. `RangeHeader` prints the field in the client and reads it
in the server.

**Sessions.** Over every run of login, refresh, revoke and delete, the lenient rule of `ValidateToken` and the
strict rule of `RefreshToken` accept the same issued tokens, at most one session per user, and a token that
`ValidateToken` refuses stays refused there. `RevokeTokens` and `DeleteUser` trust the token alone, and which
retired tokens keep that power is stated exactly. Login, revoke and delete handlers that start together and
interleave between their database calls always keep at most one valid session if and only if at most one of them is
a login, or the account is there and none of them revokes or deletes.

**Concurrency.** `ThreadPool` and the socket protocol of `ClientImpl`, in every interleaving of their critical
sections, including exactly which jobs are accepted, when a worker goes on, which accepted jobs run, and exactly when
a stop takes effect.

**Messages.** From POST through Base64 storage to GET: after any run of posts both sides of a conversation are
shown the same list, the last `limit` messages said between them, in order and byte for byte. The two Base64
encoders of the repository agree.

**Query strings and the file store.** Both with their round trips, the spelling of query components, and the file store
with its run invariant.

Where code and documentation or expectation part, the code is what is modelled, and a lemma says so:

- a suffix range longer than the content is refused, while section 14.1.2 of RFC 9110 selects the whole
  content (`RangeProperties.SuffixAccepted`);
- coalescing can leave overlapping ranges when a range is repeated (`RangeSeparation.RepeatsMayOverlap`; exactly
  when, `RangeSeparation.ApartExactly`);
- an epilogue in a separate read reopens the multipart parser (`MultipartSplits.EpilogueExact`), and the header
  length limit depends on the cut (`MultipartSplits.SplitExact`);
- a provider call that ends with an empty write makes the chunked writer stop without its last chunk
  (`ChunkedRoundTrip.EmptyWriteLosesTerminator`, `ChunkedRoundTrip.WritesArriveExactly`);
- a redirect forgets a stop, unless its last response asks for the close (`ClientSocketProperties.RedirectForgetsStop`; exactly what does,
  `ClientSocketProperties.StopExact`), and a job enqueued after the workers left never runs
  (`ThreadPoolProperties.LateJobIsStranded`);
- a revoke that reads before two logins write, and clears after them, leaves both valid, and so does a delete
  between their reads and their writes (`SessionInterleaving.RevokeRaces`, `SessionInterleaving.DeleteRaces`;
  exactly which handlers can, `SessionInterleaving.InterleavingExact`);
- Base64 decoding accepts texts no encoder prints (`Base64Properties.DecodeIsLenient`); those it inverts are
  exactly the canonical ones (`Base64Canonical.DecodeExact`).

## Model

| member | source | states |
|---|---|---|
| `Text.FindFirst` | httplib.h:5746-5767 | the search returns the first occurrence, and the size of the view only if there is none |
| `Text.FindStable` | httplib.h:5746-5767 | an occurrence found is still the first one after more bytes are appended |
| `DispositionRoundTrip.DispositionExact` | httplib.h:5334-5358 | the printed name and filename are read back if and only if neither holds a semicolon or an equals sign |
| `DispositionRoundTrip.DispositionParses` | httplib.h:5585-5644 | the printed Content-Disposition line passes header validation and sets exactly the name and filename |
| `DispositionRoundTrip.ContentTypeParses` | httplib.h:5585-5644 | the printed Content-Type line is read back byte for byte and changes nothing else |
| `MultipartConfluence.StepStable` | httplib.h:5556-5692 | a step that goes on is the same step whatever bytes follow, except that closing drops them |
| `MultipartConfluence.FindPastWindow` | httplib.h:5661-5671 | delivering all but a window as long as the delimiter moves the first delimiter by exactly the delivered bytes, whatever is read next |
| `MultipartConfluence.BodyResumes` | httplib.h:5651-5673 | an unfinished body that gave up its front and reads on ends as one that had read everything at once |
| `MultipartConfluence.RunAppend` | httplib.h:5556-5692 | a run followed by more bytes leaves the state, part info, view and callbacks of one run on all bytes, unless bytes follow a closed form |
| `MultipartConfluence.ParseSplits` | httplib.h:5551-5695 | `parse(a)` then `parse(b)` leaves what `parse(a + b)` leaves |
| `MultipartConfluence.EpilogueIgnored` | httplib.h:5680-5685 | bytes behind the closing delimiter in the same read change nothing |
| `MultipartConfluence.SmoothSplit` | httplib.h:5556-5692 | an input whose run fails nowhere and has short header lines may be cut at any byte |
| `MultipartConfluence.AnySplit` | httplib.h:5556-5692 | every way of cutting such an input into calls ends in the state of a single call |
| `MultipartRoundTrip.FindDelimiter` | httplib.h:5653-5660 | the delimiter cannot overlap itself: after content free of it, it is found exactly at the end of the content |
| `MultipartRoundTrip.SerializeSections` | httplib.h:5861-5874 | the serialized body is the opening delimiter, the sections each closed by CRLF and delimiter, and a final CRLF |
| `MultipartRoundTrip.SectionsYield` | httplib.h:5556-5692 | from the start of a section the parser delivers the remaining items in order and closes |
| `MultipartRoundTrip.RoundTrip` | httplib.h:5551-5695 | a serialized list of items, cut into calls in any way, is accepted and delivers exactly those items with byte-exact contents |
| `MultipartExact.RoundTripExact` | httplib.h:5819-5874 | with readable header fields, the items come back if and only if no content holds CRLF, two dashes and the boundary |
| `MultipartExact.RunKeepsClosed` | httplib.h:5556-5692 | a part that is complete is never changed again by any later bytes |
| `MultipartSections.SectionsComeBack` | httplib.h:5551-5695 | sections with any header lines come back from every cut, each as the part its lines give |
| `MultipartSections.SpareLinesChangeNothing` | httplib.h:5551-5695 | the round trip of serialized items holds with any well-formed header lines of other fields added to their sections, at any place |
| `MultipartSections.SerializedIsForm` | httplib.h:5861-5874 | the serializer prints such a form, with its own lines only |
| `MultipartSections.DispositionText` | httplib.h:5831-5859 | the Content-Disposition line of an item, spelled out |
| `MultipartSections.SerializedText` | httplib.h:5831-5874 | the lines around a content, spelled out, with and without a content type |
| `MultipartSections.RefusedLine` | httplib.h:5585-5601 | a header line that is refused makes the call fail, and the form is not valid |
| `MultipartSections.RefusedHeader` | httplib.h:5575-5579 | so does a header callback that refuses a part |
| `MultipartSections.RefusedContent` | httplib.h:5655-5658 | and a content callback that refuses a content |
| `MultipartSections.JunkStops` | httplib.h:5674-5690 | bytes behind a delimiter that are neither CRLF nor two dashes stop the parser for good: calls succeed, no part changes and the form stays open |
| `SectionHeaders.OtherHeaderKept` | httplib.h:5585-5644 | a well-formed line of any field but Content-Type and Content-Disposition, in any letter case, is read over and changes nothing |
| `SectionHeaders.MalformedRefused` | httplib.h:5587-5601 | a line without a colon or without a name is refused |
| `SectionHeaders.NameAlone` | httplib.h:5618-5627 | a disposition with a name alone sets the name and nothing else |
| `SectionHeaders.NamelessRefused` | httplib.h:5618-5624 | a form-data disposition without a name is refused |
| `SectionHeaders.ExtendedFilename` | httplib.h:5629-5642 | an extended filename replaces the filename by its decoded form |
| `SectionHeaders.AnyCaseDisposition` | httplib.h:5611-5617 | the field name and the disposition type are read in any letter case |
| `SectionHeaders.AnyCaseType` | httplib.h:5603-5607 | and so is the name of Content-Type |
| `HeaderForms.WellFormedExactly` | httplib.h:4604-4646 | a line is well formed if and only if its name is a token and its value has no control characters, whatever blanks are around the value |
| `HeaderForms.TokenChars` | httplib.h:2653-2657 | a token's characters are the visible ones without the delimiters of RFC 9110 |
| `HeaderForms.TypeTrimmed` | httplib.h:5603-5607 | the content type is read without the blanks around it |
| `HeaderForms.AnySpelling` | httplib.h:5342-5355 | a parameter reads the same with and without quotes around key and value and blanks around the equals sign |
| `HeaderForms.ExtendedRefused` | httplib.h:5629-5642 | an extended filename that is not marked UTF-8, or is empty behind the mark, is refused |
| `MultipartSplits.ClosingRunEnds` | httplib.h:5674-5692 | a run that closes the form ends at the delimiter with nothing buffered |
| `MultipartSplits.EpilogueExact` | httplib.h:5674-5692 | after a call that closes the form, splitting changes nothing if and only if the next one brings nothing or begins with two dashes |
| `MultipartSplits.EpilogueDependsOnSplit` | httplib.h:5674-5692 | for instance, two line ends behind the closing delimiter are ignored in the same read and open a bogus part in a later one |
| `MultipartSplits.CutExists` | httplib.h:5570-5647 | an input with a header line that is not short has a cut in two places that makes a call fail |
| `MultipartSplits.SplitExact` | httplib.h:5551-5695 | for an input one call reads to the closing delimiter at its end, every cut gives the same result if and only if all its header lines are short |
| `MultipartSplits.LimitDependsOnSplit` | httplib.h:5571-5572 | for instance, a first header line of exactly the limit is read when whole and refused when cut between its CR and LF |
| `MultipartSplits.LaterLineDependsOnSplit` | httplib.h:5571-5647 | and a later header line of any length at or over the limit is read with the first and refused when reads end in front of it and behind its CR |
| `MultipartLines.SectionsSpoiled` | httplib.h:5556-5692 | if a header line of an item is not short or a content holds the delimiter, then some cut in two places fails, or a single call delivers something else |
| `MultipartLines.UploadExact` | httplib.h:5551-5695 | items with plain headers come back, validly, from every cut of their serialized form if and only if all header lines are shorter than the limit and no content holds the delimiter |
| `FormDataParserClass.FormDataParser.SetBoundary` | httplib.h:5543-5547 | stores the boundary and the two delimiters that contain it, and touches nothing else |
| `FormDataParserClass.FormDataParser.BufFind` | httplib.h:5746-5767 | the scan over the buffer between the cursors is the first-occurrence search on the view |
| `FormDataParserClass.FormDataParser.Compact` | httplib.h:5769-5777 | moving the unread bytes to the front keeps the view |
| `FormDataParserClass.FormDataParser.BufAppend` | httplib.h:5769-5785 | the view becomes the old view followed by the data |
| `FormDataParserClass.FormDataParser.HeaderState` | httplib.h:5570-5650 | the inner header loop and its length check are the abstract run through all header lines |
| `FormDataParserClass.FormDataParser.BodyState` | httplib.h:5651-5673 | the body case, with its hold-back window and callbacks, is the abstract body step |
| `FormDataParserClass.FormDataParser.DelimiterState` | httplib.h:5674-5690 | the boundary case is the abstract delimiter step |
| `FormDataParserClass.FormDataParser.Parse` | httplib.h:5551-5695 | one call returns and leaves exactly what the specification says of the appended view; the loop terminates |
| `MultipartUpload.ParseAll` | httplib.h:5551-5695 | the calls of a whole upload are the abstract fold over its reads, stopping at the first failure |
| `MultipartUpload.SerializeItems` | httplib.h:5861-5874 | the serializer's loop prints the specified body |
| `MultipartUpload.Receive` | httplib.h:5551-5695 | a fresh parser object fed a serialized body in any cut is valid and holds exactly the items |
| `Hex.FromIToHex` | httplib.h:2745-2753 | the digit loop prints the canonical hexadecimal text, most significant digit first |
| `Hex.SizeReadBack` | httplib.h:4776-4779 | a printed chunk size is read back exactly, up to the 64-bit maximum, whatever non-digit follows |
| `Hex.HexText` | httplib.h:2745-2753 | sizes are printed in lower case and without leading zeros |
| `Streams.SocketStream.Read` | httplib.h:7048-7092 | for every short read, what a read returns followed by what is still pending is what was pending; 0 means the end |
| `Streams.SocketStream.ReadBuffered` | httplib.h:7057-7068 | bytes served from the read-ahead buffer leave the pending stream in order |
| `Streams.SocketStream.ReadAhead` | httplib.h:7070-7091 | a refill may take more from the socket than it returns and loses none of it |
| `Streams.StreamLineReader.Append` | httplib.h:3052-3063 | the line grows by one byte, whether it still fits the fixed buffer or spills |
| `Streams.StreamLineReader.Getline` | httplib.h:3012-3050 | success is exactly a readable stream, and yields its bytes through the first CRLF or to its end, leaving the rest |
| `ChunkedRoundTrip.SizeLine` | httplib.h:4769-4781 | the size line of a written chunk is read as that size and the reader stands behind it |
| `ChunkedRoundTrip.ChunkDecodes` | httplib.h:4776-4801 | a written chunk is delivered whole and the reader continues behind it |
| `ChunkedRoundTrip.BodyDecodes` | httplib.h:4772-4802 | the chunks of any writes, with any bytes behind them, are delivered in order as far as they fit the limit |
| `ChunkedRoundTrip.EncodeWhole` | httplib.h:5158-5242 | if no call ends with an empty write, the wire holds the chunks of all non-empty writes in order and the last chunk |
| `ChunkedRoundTrip.RoundTrip` | httplib.h:4760-4818 | reading what the provider's calls wrote, empty writes among them, delivers the concatenation and leaves following bytes untouched, or PayloadTooLarge after the writes that fit; no call but the last may end with an empty write |
| `ChunkedRoundTrip.NeverOverLimit` | httplib.h:4783-4794 | on any bytes whatever, no more than the payload limit is delivered |
| `ChunkedRoundTrip.EmptyWriteLosesTerminator` | httplib.h:5158-5242 | a call that ends with an empty write is the last one made: its writes arrive, the last chunk never comes, and the reader goes on with what follows or reports an error at the end of the stream |
| `ChunkedRoundTrip.WritesArriveExactly` | httplib.h:5149-5246 | writes within the limit are read back whole, leaving the following bytes, if and only if no call before the one that is done ends with an empty write |
| `ChunkedReader.SizeSpelled` | httplib.h:4776-4781 | a size is read the same with leading zeros, in either case, and whatever follows it |
| `ChunkedReader.SizeInFront` | httplib.h:4776-4781 | white space, a sign and 0x in front of a size are taken; behind a minus it is taken modulo 2^64 |
| `ChunkedReader.SpelledChunkDecodes` | httplib.h:4776-4801 | a chunk whose size is spelled in any such way, with any chunk extension, is delivered whole |
| `ChunkedReader.TrailersSkipped` | httplib.h:4818-4881 | trailer fields are passed over through the blank line, and later bytes stay |
| `ChunkedReader.LastChunkWithTrailers` | httplib.h:4783-4881 | a last chunk in any spelling, with any trailer fields, ends the message behind the blank line |
| `ChunkedReader.NothingBehindLastChunk` | httplib.h:4805-4818 | a stream that ends behind the last size line is a complete message |
| `ChunkedReader.TrailersCutFail` | httplib.h:4818-4881 | one that ends within the trailer fields is an error |
| `ChunkedReader.NoSizeFails` | httplib.h:4776-4780 | a size line without a number is an error and delivers nothing |
| `ChunkedReader.NoLineEndFails` | httplib.h:4795-4799 | data without a line end behind it is delivered and is an error |
| `ChunkedReader.LongLineFails` | httplib.h:3020-3025 | a size line over the line limit is an error |
| `ChunkedStream.ReadContentWithLength` | httplib.h:4696-4716 | true means exactly the asked bytes were delivered and taken; otherwise only a prefix was |
| `ChunkedStream.ReadChunk` | httplib.h:4791-4801 | chunk data and its CRLF are taken from the stream, or fail for the stated reason |
| `ChunkedStream.ReadTrailers` | httplib.h:4818-4881 | lines after the last chunk are skipped through the blank one |
| `ChunkedStream.ReadChunks` | httplib.h:4772-4802 | the chunk loop is the specified decoding under every schedule of short reads, and never exceeds the limit |
| `ChunkedStream.ReadContentChunked` | httplib.h:4760-4881 | result, delivered bytes and bytes left are those of the specification |
| `ChunkedStream.WriteContentChunked` | httplib.h:5149-5246 | the loop over provider calls, each acting on the sink any number of times, writes the specified encoding |
| `ChunkedStream.Transfer` | httplib.h:5149-5246 | written then read over a socket: the payload arrives, following bytes are left, and the limit is enforced |
| `Ranges.SortByFirst` | httplib.h:5879-5881 | a permutation of the ranges sorted by start |
| `Ranges.CoalesceRanges` | httplib.h:5876-5930 | the in-place rewrite is the coalescing of some sorted permutation of the ranges |
| `Ranges.RangeError` | httplib.h:5932-5998 | errors exactly on too many, out-of-bounds or more than two overlapping ranges, leaving the list normalised up to the refused one; otherwise normalises and coalesces |
| `RangeHeader.HeaderRoundTrip` | httplib.h:5359-5406 | the ranges a client prints are read back as they are if and only if there is one and the field can express them all; any other list is refused |
| `RangeHeader.HeaderIsExpressible` | httplib.h:5359-5406 | whatever the field holds, what the server goes on with is one range at least, each with a position, none negative and none backwards |
| `RangeHeader.MakeRangeHeader` | httplib.h:6702-6714 | the loop prints the specified field, and the server reads it back |
| `RangeMeaning.AcceptedExactly` | httplib.h:5940-5991 | a list is accepted if and only if each range, read off the header alone, can be satisfied and at most two share a byte with an earlier one |
| `RangeMeaning.CoalescedMeans` | httplib.h:5932-5998 | whatever the tie order, the ranges left cover exactly the bytes some range of the header asks for |
| `RangeProperties.ValidateBound` | httplib.h:5940-5991 | accepted ranges are in bounds and their lengths sum to at most the number of covered positions plus two contents |
| `RangeProperties.AcceptedBound` | httplib.h:5932-6008 | an accepted list stays non-empty, within the content, and sums to at most three times its length |
| `RangeProperties.CoalesceKeeps` | httplib.h:5876-5930 | for every tie order: the same positions covered, sorted by start, no longer and no larger than before |
| `RangeSeparation.ApartExactly` | httplib.h:5876-5930 | the result is disjoint and non-adjacent under every tie order if and only if every repeated range is reached by one that starts in front of it |
| `RangeSeparation.CoalesceApart` | httplib.h:5876-5930 | in particular, pairwise distinct ranges come out pairwise disjoint and non-adjacent |
| `RangeSeparation.RepeatsMayOverlap` | httplib.h:5911-5923 | and a repeated range with another that overlaps it is accepted, and some tie order leaves an overlap |
| `RangeProperties.SuffixAccepted` | httplib.h:5956-5978 | a suffix range is accepted if and only if it asks for at least one and at most all bytes |
| `MultipartRanges.OffsetAndLength` | httplib.h:6000-6008 | the two asserted bounds hold for every range in bounds |
| `MultipartRanges.WriteContent` | httplib.h:5049-5096 | the stream receives exactly the requested slice of the provider, however it is portioned |
| `MultipartRanges.ProcessMultipartRanges` | httplib.h:6024-6059 | materialising, counting and streaming are the same body, its bytes or its length |
| `MultipartRanges.RespondWithRanges` | httplib.h:8139-8192 | an error exactly on more than 1024 ranges, one that cannot be satisfied, or more than two that share a byte with an earlier one; otherwise the ranges left cover exactly the bytes some range of the header asks for, one range is answered by its slice and Content-Range, several by the multipart body; the declared length, the materialised answer and the streamed one agree |
| `RangesReadBack.ContentRangeReadBack` | httplib.h:6010-6022 | a printed Content-Range value names its first and last position and the length of the content |
| `RangesReadBack.RangesComeBack` | httplib.h:6024-6059 | the multipart form parser reads a byteranges body back, from every cut, as exactly the slices in order, under a Content-Range that names each |
| `Decimal.ParseToText` | gateway_service/src/main.cpp:94-106 | a printed integer is read back exactly when it is in the target's range |
| `Decimal.ParseForm` | gateway_service/src/main.cpp:94-106 | white space, a sign and digits with any leading zeros are read as their number, in range or not at all |
| `Decimal.ParseOnlyForms` | gateway_service/src/main.cpp:94-106 | and no other text is read as a number |
| `Decimal.ToTextInjective` | gateway_service/src/main.cpp:108-113 | printed integers determine the integers |
| `SessionProperties.StepInv` | auth_service/src/service/AuthServiceImpl.cpp:179-185 | every handler keeps: an issued jti is its user's current one or revoked, jtis belong to one user, a current jti was issued and is not revoked |
| `SessionProperties.RunInv` | auth_service/src/service/AuthServiceImpl.cpp:136-479 | the invariant holds after every run of handlers with fresh jtis |
| `SessionProperties.RulesAgree` | auth_service/src/service/AuthServiceImpl.cpp:236-334 | after any run the lenient and the strict rule accept the same issued tokens, of at most one session per user |
| `SessionProperties.HandlerEffect` | auth_service/src/service/AuthServiceImpl.cpp:136-479 | which tokens are valid after each handler, in terms of those valid before: only the named user's change |
| `SessionProperties.NeverAgain` | auth_service/src/service/AuthServiceImpl.cpp:236-248 | an issued token that ValidateToken refuses once is refused there after every further run |
| `SessionProperties.RetiredPower` | auth_service/src/service/AuthServiceImpl.cpp:383-403 | of the tokens ValidateToken refuses after a run, exactly an administrator's access tokens still delete others and revoke anyone, and other access tokens still revoke their own user |
| `AuthServiceClass.Database.GetUserTokenJti` | auth_service/src/db/Database.cpp:294-318 | the stored jti, or nothing for a missing row or an empty column |
| `AuthServiceClass.Database.SetUserTokenJti` | auth_service/src/db/Database.cpp:320-362 | changes the row if it exists and no other |
| `AuthServiceClass.Database.IsTokenRevoked` | auth_service/src/db/Database.cpp:364-387 | membership in the revoked table; the empty jti is never revoked |
| `AuthServiceClass.Database.RevokeTokenJti` | auth_service/src/db/Database.cpp:389-413 | adds a non-empty jti to the revoked table |
| `AuthServiceClass.Database.DeleteUserById` | auth_service/src/db/Database.cpp:214-262 | revokes the current jti and removes the row |
| `AuthServiceClass.AuthService.Login` | auth_service/src/service/AuthServiceImpl.cpp:136-222 | refusals change nothing; success rotates the jti, and the first token returned is the access token with the role, the second the refresh token without one, both of that user and jti, issued, and valid unless the jti was already revoked |
| `AuthServiceClass.AuthService.ValidateToken` | auth_service/src/service/AuthServiceImpl.cpp:227-265 | accepts exactly a valid token without a jti, or one whose jti is not revoked and not contradicted by a current jti of its user |
| `AuthServiceClass.AuthService.RefreshToken` | auth_service/src/service/AuthServiceImpl.cpp:304-363 | succeeds exactly for an unrevoked refresh token with its user's current jti, with the right error otherwise; the access token returned is issued, of that user and jti, carries the stored role and validates; nothing else changes |
| `AuthServiceClass.AuthService.RevokeTokens` | auth_service/src/service/AuthServiceImpl.cpp:365-422 | the status is OK exactly for a valid access token of an administrator or of the named user, with the right error otherwise; then that session is retired, otherwise nothing changes |
| `AuthServiceClass.AuthService.DeleteUser` | auth_service/src/service/AuthServiceImpl.cpp:424-479 | the status is OK exactly for a valid administrator and an existing other user, with the right error otherwise; then the row goes and the session is retired |
| `SessionInterleaving.InterleavedLogins` | auth_service/src/service/AuthServiceImpl.cpp:180-202 | any number of logins to an account that is there, interleaved between database calls: at most one issued jti passes in every reachable state |
| `SessionInterleaving.RevokeRaces` | auth_service/src/service/AuthServiceImpl.cpp:411-415 | whatever else is running, two logins and a revoke have a schedule after which both sessions are valid |
| `SessionInterleaving.DeleteRaces` | auth_service/src/db/Database.cpp:214-238 | whatever else is running, two logins and a delete have a schedule after which the account is gone and both sessions are valid |
| `SessionInterleaving.InterleavingExact` | auth_service/src/service/AuthServiceImpl.cpp:180-202 | login, revoke and delete handlers that start together leave at most one valid session in every schedule if and only if at most one is a login, or the row is there and none revokes or deletes |
| `ThreadPoolSpec.ThreadPool.Enqueue` | httplib.h:874-885 | the critical section is the one every interleaving uses: append unless the queue is at its positive maximum |
| `ThreadPoolSpec.ThreadPool.Shutdown` | httplib.h:887-901 | the critical section is the one every interleaving uses: raise the flag and keep the queue |
| `ThreadPoolSpec.ThreadPool.Take` | httplib.h:906-923 | the critical section is the one every interleaving uses: an awake worker leaves exactly on an empty queue, and else pops the front |
| `ThreadPoolProperties.FirstInFirstOut` | httplib.h:874-923 | in every interleaving jobs start at most once, in enqueue order, and the queue keeps its maximum |
| `ThreadPoolProperties.AcceptedExactly` | httplib.h:874-885 | in every reachable state a job is accepted if and only if there is no maximum or fewer jobs than that are waiting, and joins the end; otherwise nothing changes |
| `ThreadPoolProperties.WakesExactly` | httplib.h:906-923 | in every reachable state a waiting worker goes on if and only if a job is left or the pool was shut down; it runs the oldest job left, and leaves only if there is none |
| `ThreadPoolProperties.ShutdownDrains` | httplib.h:887-923 | a shutdown in any reachable state with a worker left can be followed to a state in which all workers have left and every accepted job has finished |
| `ThreadPoolProperties.AllJobsRun` | httplib.h:887-923 | once all workers left, every accepted job has finished if and only if none was accepted after the last worker left; so if none followed shutdown |
| `ThreadPoolProperties.LateJobIsStranded` | httplib.h:874-923 | a job accepted after the last worker left is neither started nor finished in any later run |
| `ClientSocketSpec.ClientImpl.CloseSocket` | httplib.h:8627-8644 | closes, under the asserted condition of nothing in flight or only this thread's requests |
| `ClientSocketSpec.ClientImpl.BeginSend` | httplib.h:8692-8752 | the locked first half of send_: succeeds exactly when the open socket is alive or a new connection is made, then counts itself in flight as this thread's, clears the stop flag in any case, and leaves the socket open exactly on success |
| `ClientSocketSpec.ClientImpl.EndSend` | httplib.h:8764-8781 | the locked second half: counts down, gives up ownership at 0, and leaves the socket open exactly if it was and neither a stop, the request nor a failure closes it |
| `ClientSocketSpec.ClientImpl.CloseInRequest` | httplib.h:8843-8856 | the close a response asks for, with its own request in flight, under the asserted condition |
| `ClientSocketSpec.ClientImpl.StopAll` | httplib.h:10238-10259 | closes at once when idle, otherwise leaves it to the request in flight |
| `ClientSocketProperties.SocketSafety` | httplib.h:8627-8856 | in every interleaving of all five critical sections the in-flight count is the nesting depth of the owning thread, and no enabled step breaks an assertion |
| `ClientSocketProperties.StopExact` | httplib.h:8682-8856 | a stop during a request leaves the socket closed when the count returns to 0 if and only if no later start of send_ leaves it open with no stop, failure or close behind it, be the close asked for by the client or by a response |
| `ClientSocketProperties.StopTakesEffect` | httplib.h:8764-8781 | a stop during a request, with no later start of send_, leaves the socket closed when the count returns to 0 |
| `ClientSocketProperties.RedirectForgetsStop` | httplib.h:8682-8861 | a redirect behind the stop of a lone request leaves the socket open if and only if the last response does not ask for the close, whatever happened before |
| `ClientSocketProperties.RedirectPossible` | httplib.h:8682-8861 | every lone request can be redirected that way, with either response asking for the close or not |
| `Base64Properties.AlphaValue` | services/messaging_service/src/utils/Base64.cpp:7-21 | the alphabet and the value table are inverse on all 64 values |
| `Base64Properties.DecodeGroup3` | services/messaging_service/src/utils/Base64.cpp:30-92 | four characters of a full group carry exactly its three bytes |
| `Base64Properties.RoundTrip` | services/messaging_service/src/utils/Base64.cpp:26-104 | decoding an encoding never fails, returns every byte, and the length is four per started group of three |
| `Base64Properties.EncodeInjective` | services/messaging_service/src/utils/Base64.cpp:26-61 | different byte strings have different encodings |
| `Base64Properties.DecodeIsLenient` | services/messaging_service/src/utils/Base64.cpp:63-104 | non-zero spare bits and a misplaced padding sign are accepted |
| `Base64Canonical.EncodeCanonical` | services/messaging_service/src/utils/Base64.cpp:26-61 | encodings are full groups and at most one padded group at the end, whose cut off bits are zero |
| `Base64Canonical.DecodeExact` | services/messaging_service/src/utils/Base64.cpp:63-104 | a text is decoded and encoded back to itself if and only if it is of that form |
| `Base64Canonical.AlphabetIs` | services/messaging_service/src/utils/Base64.cpp:8 | the digits are those of section 4 of RFC 4648, in order |
| `Base64Canonical.TestVectors` | services/messaging_service/src/utils/Base64.cpp:26-61 | the test vectors of section 10 of RFC 4648 |
| `Base64Canonical.DecodeAccepts` | services/messaging_service/src/utils/Base64.cpp:63-104 | a text is decoded if and only if, without its white space, it has groups of four, digits of the alphabet, and padding only in the second half of a group |
| `Base64Canonical.SpacesDropped` | services/messaging_service/src/utils/Base64.cpp:63-72 | white space anywhere in the text changes nothing |
| `Base64Code.EncodeGroups` | services/messaging_service/src/utils/Base64.cpp:26-61 | the three-byte loop and its two tails print the specified encoding |
| `Base64Code.DecodeString` | services/messaging_service/src/utils/Base64.cpp:63-104 | the decoder's loops compute the specified decoding, with its three error cases |
| `Base64Code.AccumulatorEncode` | httplib.h:2789-2815 | the wrapping bit accumulator prints the same text as the three-byte grouping |
| `ConversationKeys.KeySymmetric` | gateway_service/src/main.cpp:108-118 | the key does not depend on which side asks |
| `ConversationKeys.PairKeyInjective` | gateway_service/src/main.cpp:108-113 | a pair key determines the two integers |
| `ConversationKeys.PairKeyParses` | services/messaging_service/src/db/Database.cpp:18-38 | parse_dm_key recovers the pair exactly when both ids fit 32 bits |
| `ConversationKeys.ReachesPair` | gateway_service/src/main.cpp:582-586 | a numeric user reaches a pair's conversation if and only if they name the other one, being of the pair, or write its key |
| `ConversationKeys.KeyIsThePair` | gateway_service/src/main.cpp:484-487 | numeric users under numeric ids get the same key if and only if the two unordered pairs are the same |
| `ConversationKeys.KeyText` | gateway_service/src/main.cpp:108-113 | the key of two numeric ids is dm:, the smaller, a colon and the larger |
| `ConversationKeys.NameText` | gateway_service/src/main.cpp:115-118 | the key of other names has them in the order in which they first differ |
| `ConversationKeys.NamedUserKey` | gateway_service/src/main.cpp:582-586 | a user without a numeric id is filed, under a numeric path, with the pair of names, whichever side writes it |
| `ConversationKeys.OtherPathsAreKeys` | gateway_service/src/main.cpp:484-487 | a path that is no number, or a room, is the key itself |
| `HistorySpec.NewestFirstIsReversed` | services/messaging_service/src/db/Database.cpp:194-268 | the descending query with a limit is the reverse of the last messages of that conversation |
| `MessagePath.ParseIntText` | services/messaging_service/src/messaging_service.cpp:56-67 | a printed id is read back if and only if it has 32 bits |
| `MessagePath.RoomReaders` | services/messaging_service/src/messaging_service.cpp:28-54 | a room is read by its participants and by nobody else with a numeric name |
| `MessagePath.OthersOpen` | services/messaging_service/src/messaging_service.cpp:144-154 | everything else is open to all, and rooms to requesters without a name |
| `MessagePath.ClampNearest` | gateway_service/src/main.cpp:490-497 | the limit is the number in 1..500 nearest to the one asked for, and 50 if none is |
| `MessagePath.Database.InsertMessage` | services/messaging_service/src/db/Database.cpp:112-192 | appends one row under its conversation, adds the two participants of a pair key, and hands out increasing ids |
| `MessagePath.Database.GetHistory` | services/messaging_service/src/db/Database.cpp:194-292 | the rows of one conversation, or of all for the empty key, newest first, up to a positive limit |
| `MessagePath.SafeB64Decode` | services/messaging_service/src/messaging_service.cpp:69-76 | returns the original of everything that was encoded, and a text that is not Base64 unchanged, byte for byte |
| `MessagePath.MessagingService.SendMessage` | services/messaging_service/src/messaging_service.cpp:92-135 | logs the message byte for byte, or refuses an empty conversation and changes nothing |
| `MessagePath.MessagingService.GetHistory` | services/messaging_service/src/messaging_service.cpp:137-174 | refuses exactly non-participants of a room; otherwise the newest messages with their original bytes |
| `MessagePath.Gateway.Post` | gateway_service/src/main.cpp:545-616 | one message under the caller's key for this path, or nothing on an empty path or content |
| `MessagePath.Gateway.List` | gateway_service/src/main.cpp:459-542 | the last messages of that conversation, oldest first, with the limit clamped; without a token the path itself is the conversation |
| `MessagePath.PairHistory` | gateway_service/src/main.cpp:518-527 | after any run of posts both of a pair see the same list: the last `limit` messages said between them, in order |
| `MessagePath.Conversation` | gateway_service/src/main.cpp:459-616 | the same on the running services: post everything, then both sides read |
| `QueryRoundTrip.ComponentRoundTrip` | httplib.h:6613-6690 | decoding an encoded component gives it back, for all byte strings, and the encoding holds no separator |
| `QueryRoundTrip.RoundTrip` | httplib.h:5284-5317 | parameters come back if and only if no key is empty and no pair is repeated |
| `QueryText.SafeExactly` | httplib.h:6613-6665 | the bytes that stand for themselves are the query characters of RFC 3986 without ampersand, equals sign and plus |
| `QueryText.EscapeOf` | httplib.h:6613-6665 | every other byte but the blank is a percent sign and its two digits, in upper case, high digit first |
| `QueryText.PairsJoined` | httplib.h:5284-5294 | keys and values are joined by equals signs and pairs by ampersands |
| `QueryText.EscapeReads` | httplib.h:6667-6690 | an escape is read in either case of its digits |
| `QueryText.BrokenEscapeStays` | httplib.h:6667-6690 | a percent sign without two characters of a number behind it stands for itself |
| `QueryText.ShortEscapeStays` | httplib.h:6672-6673 | and so does one at the end |
| `QueryText.SignedEscape` | httplib.h:6674-6679 | a blank or a sign is taken in place of the high digit, a negative number modulo 256 |
| `QueryText.BareKey` | httplib.h:5296-5317 | a key without an equals sign has the empty value |
| `QueryCode.EncodeQueryComponent` | httplib.h:6613-6665 | the encoding loop prints the specified text |
| `QueryCode.DecodeQueryComponent` | httplib.h:6667-6690 | the decoding loop, with its invalid escapes, computes the specified text |
| `QueryCode.ParamsToQueryStr` | httplib.h:5284-5294 | the printing loop joins the encoded pairs |
| `FileStoreProperties.RunInv` | services/file_service/src/FileServiceImpl.cpp:59-202 | after every run the files on disk are exactly the entries not deleted, with their recorded sizes |
| `FileStoreProperties.EntryFate` | services/file_service/src/FileServiceImpl.cpp:59-202 | an entry never disappears, is live after a run if and only if it was before and no step deletes it, and is unchanged while it lives |
| `FileStoreProperties.DeletedForever` | services/file_service/src/FileServiceImpl.cpp:177-202 | after a successful delete the id is not found, for everyone and after every run |
| `FileStoreProperties.BlocksGood` | services/file_service/src/FileServiceImpl.cpp:160-172 | a download is full blocks except possibly the last, flagged last once if not empty, and joins to the file |
| `FileStoreProperties.UploadedIsDownloaded` | services/file_service/src/FileServiceImpl.cpp:59-175 | what is downloaded any time before deletion is the concatenation of what was uploaded |
| `FileStoreProperties.OwnerDeletes` | services/file_service/src/FileServiceImpl.cpp:177-202 | after any run behind an upload, a delete succeeds exactly for the owner it declared or a requester without a name, as long as the file was not deleted |
| `FileStoreProperties.CompleteExactly` | services/file_service/src/FileServiceImpl.cpp:59-136 | an upload is complete exactly with a name, an owner, a last chunk and a size that agrees with the last positive one declared, if any |
| `FileStoreProperties.DeclaredExactly` | services/file_service/src/FileServiceImpl.cpp:59-136 | the declared size is the last positive one, and -1 without any |
| `FileServiceClass.FileService.Upload` | services/file_service/src/FileServiceImpl.cpp:59-136 | stores a complete, correctly declared upload under its owner, name and size, and refuses any other without a trace |
| `FileServiceClass.FileService.Download` | services/file_service/src/FileServiceImpl.cpp:138-175 | sends the blocks of a live file, or the right error |
| `FileServiceClass.FileService.Delete` | services/file_service/src/FileServiceImpl.cpp:177-202 | deletes a live file for its owner or a requester without a name, with the right error otherwise, and touches no other file |

## Left out

- Sockets, address lookup, TLS and compressors; a stream is a byte sequence with arbitrary short reads.
- `std::regex`: the Content-Disposition and extended-filename expressions are prefix matches ignoring case; the percent decoder behind `filename*` is a parameter.
- The `headers` multimap of a multipart part; name, filename and content type are kept.
- `MultipartConfluence.ParseSplits`: the content callback accepts everything, because one that refuses sees the cut.
- `MultipartRoundTrip.RoundTrip`: header lines stay below the length limit, because the limit also looks at unfinished lines (`MultipartLines.UploadExact`).
- `split`, `parse_header`, `parse_disposition_params`, `parse_query_text` and `parse_range_header` are functions on values, not loops over character positions.
- `ChunkedStream.ReadTrailers`: declared trailers are not collected, and there is no limit on the number of lines.
- `ChunkedStream.ReadContentChunked`: the same.
- `ChunkedStream.WriteContentChunked`: the stream takes every byte.
- `MultipartRanges.WriteContent`: the provider stays within the span and the stream takes every byte.
- `ChunkedStream.ReadChunk`: after a refusing receiver or a failed socket only the delivered amount is bounded.
- `std::sort` is any permutation sorted by start; the method that sorts shows that one exists.
- The token by token emission of a part's head, which is one token here.
- Progress and shutdown callbacks of the content writers.
- `std::multimap` parameters are a list sorted by key, equal keys in insertion order.
- Signing and decoding of tokens, password hashes and their migration, roles beyond the administrator test, token lifetimes.
- Database failures, reconnects and SQL text; every call is one atomic update that succeeds.
- `AuthServiceClass.AuthService.RefreshToken`: the deleted-user error cannot occur when handlers are atomic, and is absent.
- Nothing is said of random jtis beyond being fresh, and of generated file ids likewise.
- The liveness of jobs and workers; the thread pool statements are about states in which all workers have left.
- RefreshToken and ValidateToken are no handlers of `SessionInterleaving`: the one hands out a jti that was issued before and writes nothing, the other only reads.
- The destructor of `ClientImpl`, and its retry over SSL.
- `Base64Code.AccumulatorEncode`: the accumulator is a 32-bit word with logical shifts; the sign bit never reaches a digit.
- Message ids, timestamps and conversation names in what a reader is shown, and the broadcast to open chat streams.
- Group conversations: no title equals a conversation key, because titles double as keys.
- `MessagePath.Gateway.List`: a refused token (401) and a failing serialisation (500) are absent.
- `MessagePath.Gateway.Post`: the caller's token has been accepted and the body is JSON, so its other error responses are absent.
- `FileServiceClass.FileService.Download`: the file of a live entry is on disk, as every run keeps it; disk failures are absent.
- File metadata beyond owner, name and size, and `GetMetadata`, which only reads it.
- Accept-header ordering, which is floating point; the Qt client; routing, logging and configuration.
