# Verified models of logit's parsers, protocols and checkers

`logit` moves logs, metrics and traces between systems. This project models the parts of it that
are algorithms in their own right, and proves what they promise over every input, every run and
every interleaving:

- the AWS credential chain (`creds.rs`): the expiring cache that concurrent dials share, as a step
  protocol; the lookup over five sources; the shared profile file parser; the reader of leaf XML
  elements;
- SigV4 signing (`sigv4.rs`): percent encoding, the canonical request, presigned parameters and
  what a verifier makes of them;
- the `!env` directive of the configuration (`config.rs`): the tree walk with its mode, its path
  stack and its substitution list;
- the reference machines of two fuzz targets (`message_csv.rs`, `stream_framing.rs`): the CSV row
  reader and writer, the line and length-prefix splitters, the push generator;
- the Kafka group checker (`check.py`): who owned which offset, and the verdict;
- the HTTP capture harness (`raw_capture.py`): the capture plan shared by handler threads, and how a
  request's body is taken off its connection.

Each file holds one module of the same name. `Wrappers`, `Bytes`, `Text`, `Utf8` and `Sorting` are shared; the
rest follow the list above. Loops and objects of the source are methods and classes, each proved
against a function of its input; the laws are lemmas about those functions. `dafny verify
dfyconfig.toml` checks the whole project.

Where the code and a promise differ, the model follows the code and a lemma gives the exact
condition:

- `raw_capture.py` claims file names under a lock so that no two requests share one. Under `--name-by-path` two paths with one
  slug, such as `/a/b` and `/a-b`, share files (`Capture.SlugClash`); `CaptureNames.NeverSharedExactly`
  says for which command lines that can happen.
- `raw_capture.py` says that with `--require` a capture is complete once the requests are written,
  and that completion counts flushed replies otherwise. `--require` counts claims, and
  `--name-by-path` claims past `--count`, so a capture can be complete with a request in flight
  (`CaptureCompletion.WaitsExactly`).
- `raw_capture.py` means to record a body verbatim or not at all. A body by its length that the peer
  cuts off is recorded short, and so is a chunked one cut among the leading zeros of a chunk size;
  no other cut is (`RequestBody.CutRecordedExactly`).
- `config.rs` keeps an `!env` as text anywhere inside a `lua` component's `vars:`. It looks at the
  `type` key as it is written, before keys are resolved, so a key that is an `!env` over a variable
  holding `type` can make a component `lua` whose variables are retyped, or keep text in one that
  is not `lua` (`LuaVars.NumberInLua`, `LuaVars.TextElsewhere`). `LuaVars.PromiseKeptExactly` says
  for which configs the promise holds.

## Model

| member | source | states |
|---|---|---|
| `Utf8.ScannerDecides` | fuzz/fuzz_targets/message_csv.rs:159-163 | a byte-at-a-time scanner accepts exactly the texts of the grammar in section 4 of RFC 3629 |
| `Utf8.AsciiOnlyWhenReady` | fuzz/fuzz_targets/message_csv.rs:159-163 | in a well-formed text an ASCII byte stands only between characters |
| `Csv.Reference` | fuzz/fuzz_targets/message_csv.rs:49-95 | the four-state loop reads what the reading function says, errors included |
| `Csv.RowShape` | fuzz/fuzz_targets/message_csv.rs:49-95 | every row is some legal cells and a last field, whole, unterminated or broken after its quote, and that shape is its reading |
| `Csv.AcceptedExactly` | fuzz/fuzz_targets/message_csv.rs:49-95 | a row reads as given fields exactly when it is a legal writing of them |
| `Csv.RenderedIsRead` | fuzz/fuzz_targets/message_csv.rs:49-95 | any mix of quoted and legal unquoted fields reads back to its values |
| `Csv.UnterminatedExactly` | fuzz/fuzz_targets/message_csv.rs:89-90 | the unterminated error comes exactly when the last field opens a quote and never closes it |
| `Csv.TrailingExactly` | fuzz/fuzz_targets/message_csv.rs:85 | the trailing error comes exactly when a closed quote is followed by something else than a quote or the delimiter |
| `Csv.NoQuotesIsPlainSplit` | fuzz/fuzz_targets/message_csv.rs:154-157 | a row without quotes reads as a plain split on the delimiter |
| `Csv.PushEnclosed` | fuzz/fuzz_targets/message_csv.rs:142-149 | the inner loop writes the field in quotes with its own quotes doubled |
| `Csv.Quote` | fuzz/fuzz_targets/message_csv.rs:137-152 | the writer's row reads back to the same fields, for every non-empty list of fields |
| `Csv.AcceptedLength` | fuzz/fuzz_targets/message_csv.rs:49-95 | an accepted row's length is its field bytes, delimiters, enclosing quotes and doubled quotes |
| `Csv.FieldsStayUtf8` | fuzz/fuzz_targets/message_csv.rs:159-163 | from any reader state, dropping quotes and cutting at the delimiter keeps every later field well-formed |
| `Csv.FieldsAreUtf8` | fuzz/fuzz_targets/message_csv.rs:159-163 | every field of a well-formed UTF-8 row is well-formed UTF-8, for every ASCII delimiter |
| `Csv.Delimiter` | fuzz/fuzz_targets/message_csv.rs:22-25 | the selector picks an admitted delimiter by its position modulo 125, the three bytes left out skipped |
| `Csv.EveryDelimiterPicked` | fuzz/fuzz_targets/message_csv.rs:22-25 | each of the 125 admitted delimiters is picked by some selector |
| `Framing.LinesModel` | fuzz/fuzz_targets/stream_framing.rs:166-194 | the loop over the shrinking rest gives the outcomes of the stream's split on LF |
| `Framing.PushLine` | fuzz/fuzz_targets/stream_framing.rs:172-182 | a line over the bound adds its oversize error, a blank one nothing, any other its frame without one CR |
| `Framing.CloseLines` | fuzz/fuzz_targets/stream_framing.rs:184-193 | what is left adds its oversize error, nothing when it is white space, or a truncation, and the close unless the error was fatal |
| `Framing.LinesCut` | fuzz/fuzz_targets/stream_framing.rs:166-194 | cutting a stream anywhere keeps a prefix of its frames and oversize errors |
| `Framing.FatalStopsAtOversize` | fuzz/fuzz_targets/stream_framing.rs:166-194 | the fatal rule's outcomes are the draining rule's up to the first oversize line |
| `Framing.LinesRoundTrip` | fuzz/fuzz_targets/stream_framing.rs:166-194 | lines sent with LF or CRLF come back as frames, whatever follows |
| `FramingExact.LineOff` | fuzz/fuzz_targets/stream_framing.rs:170-183 | what the first line of any stream adds to the outcomes of the rest, case by case in byte values |
| `FramingExact.LastPiece` | fuzz/fuzz_targets/stream_framing.rs:184-193 | what is left after the last LF, case by case in byte values |
| `Framing.LengthPrefixedModel` | fuzz/fuzz_targets/stream_framing.rs:198-220 | the loop gives the outcomes of taking frames off the front one at a time |
| `Framing.LengthPrefixedCut` | fuzz/fuzz_targets/stream_framing.rs:198-220 | cutting a stream anywhere keeps a prefix of its frames and oversize errors |
| `Framing.LengthPrefixedRoundTrip` | fuzz/fuzz_targets/stream_framing.rs:198-220 | frames behind their lengths come back whole in either byte order, whatever follows |
| `FramingExact.FrameOff` | fuzz/fuzz_targets/stream_framing.rs:198-214 | a length within the bound, in either byte order, and as many bytes are a frame in front of the rest |
| `FramingExact.OversizeEnds` | fuzz/fuzz_targets/stream_framing.rs:205-208 | a length over the bound ends the stream with a fatal error |
| `FramingExact.UnfinishedFrame` | fuzz/fuzz_targets/stream_framing.rs:209-220 | a frame the stream ends in is truncated |
| `FramingExact.UnfinishedLength` | fuzz/fuzz_targets/stream_framing.rs:215-220 | so is a length cut short; an empty rest is a clean close |
| `Framing.LengthOfPrefix` | fuzz/fuzz_targets/stream_framing.rs:202-204 | the four bytes of a length read back to it in either byte order |
| `Framing.NextPush` | fuzz/fuzz_targets/stream_framing.rs:60-67 | one turn advances the 64-bit generator and takes the size the new state rolls, never nothing twice in a row |
| `Framing.Chunks` | fuzz/fuzz_targets/stream_framing.rs:54-73 | the generator ends, its pushes concatenate to the stream, none is empty after an empty one or at the end, there are at most two per byte, and each is what the seed's states roll |
| `Ownership.TallyReader` | tools/kafka-interop/check.py:1285 | the reader tally holds each place's readers in order, one more read in |
| `Ownership.TallyMember` | tools/kafka-interop/check.py:1286 | the member tally counts each member's reads, one more read in |
| `Ownership.TallyEvent` | tools/kafka-interop/check.py:1282-1287 | one event is counted in both tallies exactly if it is the topic's |
| `Ownership.Walk` | tools/kafka-interop/check.py:1277-1287 | the tallies hold exactly the topic's reads of all members |
| `Ownership.CountMissing` | tools/kafka-interop/check.py:1288-1289 | the missing count is of the offsets below the topic's ends that nobody read |
| `Ownership.ListOwners` | tools/kafka-interop/check.py:1294-1295 | the owners are those of the offsets read by one member alone, in offset order |
| `Ownership.CountSwitches` | tools/kafka-interop/check.py:1296 | the switches are the places where neighbouring owners differ |
| `Ownership.SwitchesByPartition` | tools/kafka-interop/check.py:1290-1296 | one entry for each of the topic's partitions and no other, each its switches |
| `Ownership.Ownership` | tools/kafka-interop/check.py:1272-1297 | all four results, for every log: missing, duplicates, switches of exactly the topic's partitions, reads of exactly the members that read |
| `Ownership.RereadsCount` | tools/kafka-interop/check.py:1297 | duplicates are the reads less the distinct places |
| `OwnershipCounts.ReadsInOrder` | tools/kafka-interop/check.py:1277-1287 | the reads are the topic's events, each once, members in order and each one's events in order |
| `OwnershipCounts.GapsCounted` | tools/kafka-interop/check.py:1288-1289 | the missing count is the size of the set of places below the topic's ends that nobody read |
| `OwnershipCounts.OwnersInOrder` | tools/kafka-interop/check.py:1294-1295 | the owners are the members of exactly the offsets one member alone read, in offset order |
| `OwnershipCounts.ChangesIsSize` | tools/kafka-interop/check.py:1296 | the switches are the size of the set of positions whose owner differs from the one before |
| `OwnershipCounts.CountIsSize` | tools/kafka-interop/check.py:1286 | a member's count is the size of the set of its reads |
| `Ownership.SegmentsBoundSwitches` | tools/kafka-interop/check.py:1290-1296 | a partition read in n segments of consecutive offsets changes member at most n-1 times, whatever their order and overlap |
| `Ownership.NothingMissingWhenCovered` | tools/kafka-interop/check.py:1288-1289 | nothing is missing exactly when the segments cover every offset below the end |
| `Ownership.SegmentedGroup` | tools/kafka-interop/check.py:1272-1297 | for any interleaving of any number of partitions' segments: duplicates are what overlaps, each partition changes member at most once per further segment, and nothing is missing exactly when every partition is covered |
| `Ownership.MembersInTally` | tools/kafka-interop/check.py:1328-1329 | the tally has as many entries as there are members exactly when every member read something |
| `Ownership.JudgeGroup` | tools/kafka-interop/check.py:1310-1330 | each of the seven verdicts, exactly when its condition holds and no earlier one does |
| `OwnershipCounts.CompleteExactly` | tools/kafka-interop/check.py:1300-1322 | a group is complete exactly when some event read each offset below each end and the sequence numbers that arrived are 0 to 399 |
| `OwnershipCounts.CountedExactly` | tools/kafka-interop/check.py:1328-1329 | a member is in the tally exactly when one of its events is the topic's |
| `Ownership.OwnershipInTurnIsWithin` | tools/kafka-interop/check.py:1323-1325 | a group whose members owned each partition in at most max+1 segments never exceeds the switch threshold |
| `Chunked.Stream.ReadLine` | tools/record-fixtures/raw_capture.py:270 | takes the bytes up to and with the first LF off the stream, or all |
| `Chunked.Stream.Read` | tools/record-fixtures/raw_capture.py:275 | takes that many bytes or all there are, everything for -1, and fails below it |
| `Chunked.SkipTrailers` | tools/record-fixtures/raw_capture.py:272-273 | leaves the stream past the first blank line |
| `Chunked.ReadChunk` | tools/record-fixtures/raw_capture.py:270-276 | one turn of the loop takes one chunk, or the end, off the stream |
| `Chunked.ReadChunked` | tools/record-fixtures/raw_capture.py:266-276 | the loop returns the decoded body and leaves the stream where decoding ends, or fails when it does |
| `Chunked.SizeIsRead` | tools/record-fixtures/raw_capture.py:270 | a size line says its hexadecimal value, with any padding and extension |
| `ChunkSizeText.NumberIs` | tools/record-fixtures/raw_capture.py:270 | a sign, a `0x` and digits with single underscores between them are a size, of the value of the digits |
| `ChunkSizeText.OnlyNumbers` | tools/record-fixtures/raw_capture.py:270 | nothing else is a size |
| `ChunkSizeText.DigitValue` | tools/record-fixtures/raw_capture.py:270 | the digits are `0`-`9`, `A`-`F` and `a`-`f`, with their values |
| `ChunkSizeText.ValueByPlace` | tools/record-fixtures/raw_capture.py:270 | each further digit counts those before it sixteenfold |
| `ChunkSizeText.SizeLineIs` | tools/record-fixtures/raw_capture.py:270 | the size is what stands before the first `;`, white space around it left out |
| `Chunked.DecodeEncoded` | tools/record-fixtures/raw_capture.py:266-276 | every body, cut into non-empty chunks with any extensions and trailers (section 7.1 of RFC 9112), comes back whole and the stream is left just past its final empty line |
| `ChunkedTurns.ChunkOff` | tools/record-fixtures/raw_capture.py:270-276 | of any stream, a chunk's data is taken by its size and the line behind it dropped, whatever it holds |
| `ChunkedTurns.BadSize` | tools/record-fixtures/raw_capture.py:270 | a line that is no size, or a negative one, fails |
| `ChunkedTurns.ZeroSize` | tools/record-fixtures/raw_capture.py:271-274 | zero ends the body, past the trailers |
| `ChunkedTurns.ShortChunk` | tools/record-fixtures/raw_capture.py:275-276 | a chunk the peer closes in, or just behind, fails |
| `ChunkedTurns.UnendedSize` | tools/record-fixtures/raw_capture.py:270-274 | a size line the peer closes in fails unless it is zero |
| `ChunkedTurns.TrailerOff` | tools/record-fixtures/raw_capture.py:272-273 | a line of white space ends the trailers and any other is skipped |
| `ChunkedTurns.UnendedTrailers` | tools/record-fixtures/raw_capture.py:272-273 | trailers the peer closes in leave nothing |
| `Chunked.CutElsewhere` | tools/record-fixtures/raw_capture.py:266-276 | cut anywhere but among a size's leading zeros, a body is read whole once its last chunk has begun, and refused before |
| `Chunked.CutAmongZeros` | tools/record-fixtures/raw_capture.py:270-274 | cut among the leading zeros of a chunk's size, a body is read without that chunk and those after it |
| `Chunked.CutBodiesExactly` | tools/record-fixtures/raw_capture.py:266-276 | over every cut, a chunked body is never read short exactly when no chunk size starts with a zero |
| `RequestBody.TakeBody` | tools/record-fixtures/raw_capture.py:278-322 | the handler from the headers to the body: refused, in chunks or by length, what is recorded, and what is left on the connection |
| `RequestBody.FramedAsAnnounced` | tools/record-fixtures/raw_capture.py:285-305 | the handler reads a body by the framing it was sent in exactly when the headers announce that framing and length |
| `ChunkSizeText.NamesChunkedExactly` | tools/record-fixtures/raw_capture.py:287-288 | the encoding is `chunked` exactly when it is that word in any case with blanks around it |
| `ChunkedTurns.UnannouncedIsRefused` | tools/record-fixtures/raw_capture.py:285-312 | a request whose headers announce no body it could have is refused and nothing is read |
| `RequestBody.WholeIsVerbatim` | tools/record-fixtures/raw_capture.py:278-322 | a body the headers announce and that arrives whole, by length or in chunks, is recorded as sent and the connection left just past it |
| `RequestBody.CutRecordedExactly` | tools/record-fixtures/raw_capture.py:307-322 | for every cut of either framing, something else than the body is recorded exactly when a byte of a body by length is missing or the cut falls among a size's leading zeros, and then a proper prefix |
| `RequestBody.VerbatimOrNothingExactly` | tools/record-fixtures/raw_capture.py:307-322 | a body is verbatim or not at all under every cut exactly when it is empty, or in chunks none of whose sizes starts with a zero |
| `Capture.Plan.constructor` | tools/record-fixtures/raw_capture.py:168-179 | a new plan has claimed and counted nothing |
| `Capture.Plan.Claim` | tools/record-fixtures/raw_capture.py:181-196 | the stem a request gets, or none, and the plan's whole new state |
| `Capture.Plan.IsComplete` | tools/record-fixtures/raw_capture.py:198-201 | complete under the rule the command line chose |
| `Capture.Plan.Finish` | tools/record-fixtures/raw_capture.py:353-355 | counts one flushed reply and says whether that was enough |
| `Capture.StepKeepsInv` | tools/record-fixtures/raw_capture.py:328-359 | each step of each handler, failures included, keeps the tallies equal to the claims and their phases |
| `Capture.PlainCountSafe` | tools/record-fixtures/raw_capture.py:328-359 | in every interleaving under plain `--count`: replies within claims, claims within the count, complete only once every claimed reply was flushed and counted |
| `CaptureClaims.RequestClaims` | tools/record-fixtures/raw_capture.py:181-201 | in every interleaving, a request is claimed exactly when the capture still needs one, its path is not discarded and has room, all told by the claims so far; its number is how many came before |
| `Capture.CompleteNeverReverts` | tools/record-fixtures/raw_capture.py:198-201 | once complete, always complete, and nothing more is claimed |
| `Capture.PaddedInjective` | tools/record-fixtures/raw_capture.py:188 | two zero-padded numbers agree exactly when the numbers do |
| `CaptureClaims.ThreeDigits` | tools/record-fixtures/raw_capture.py:188 | a number below a thousand is written as its three digits |
| `CaptureClaims.SlugIs` | tools/record-fixtures/raw_capture.py:160-162 | a slug is the path's runs of letters and digits with dashes between them, or `root` |
| `Capture.SameStem` | tools/record-fixtures/raw_capture.py:160-196 | two stems agree exactly when the numbers do and, by path, the slugs |
| `Capture.FilesAreDistinct` | tools/record-fixtures/raw_capture.py:325-329 | in every interleaving, claimed requests have distinct files exactly when no two claimed paths share a slug; always without `--name-by-path` |
| `Capture.SlugClash` | tools/record-fixtures/raw_capture.py:160-162 | two requests of one slug that share their files |
| `CaptureNames.KeptApart` | tools/record-fixtures/raw_capture.py:181-196 | where the condition below holds, every run's files are distinct |
| `CaptureNames.OthersShare` | tools/record-fixtures/raw_capture.py:191-196 | with `--max-per-path` above zero, two paths nobody named share the slug `root` in some run |
| `CaptureNames.WantedShare` | tools/record-fixtures/raw_capture.py:191-196 | two required paths of one slug share a file in some run |
| `CaptureNames.NeverSharedExactly` | tools/record-fixtures/raw_capture.py:160-196 | over every command line, no run ever shares a file exactly when files are not named by path, or the capture is complete from the start, or only required paths are let in and no two of them share a slug |
| `CaptureCompletion.OutrunsNothing` | tools/record-fixtures/raw_capture.py:198-201 | where the condition holds, a complete capture has counted every claimed reply |
| `CaptureCompletion.RequireOutruns` | tools/record-fixtures/raw_capture.py:199-200 | otherwise a `--require` capture has a run that is complete with nothing written |
| `CaptureCompletion.CountOutruns` | tools/record-fixtures/raw_capture.py:191-201 | otherwise a `--name-by-path` capture has a run that is complete with a request in flight |
| `CaptureCompletion.WaitsExactly` | tools/record-fixtures/raw_capture.py:211-215 | over every command line, completion waits for every claimed reply exactly when that condition holds |
| `UriEncoding.UriEncode` | crates/logit-aws/src/sigv4.rs:175-186 | the loop gives the percent encoding |
| `UriEncoding.DecodeEncode` | crates/logit-aws/src/sigv4.rs:175-186 | a percent decoder undoes it, for every value |
| `UriEncoding.EncodeInjective` | crates/logit-aws/src/sigv4.rs:175-186 | two values encode alike exactly when they are equal |
| `UriEncoding.EncodedAlphabet` | crates/logit-aws/src/sigv4.rs:175-186 | encoded text holds unreserved bytes and percent signs only |
| `Sorting.SortSorts` | crates/logit-aws/src/sigv4.rs:126 | the sort orders pairs by their bytes and keeps them |
| `Sorting.SortCanonical` | crates/logit-aws/src/sigv4.rs:126 | two lists sort alike exactly when they are permutations of each other |
| `CanonicalRequest.PathInjective` | crates/logit-aws/src/sigv4.rs:123 | two paths canonicalise alike exactly when they are equal |
| `CanonicalRequest.SortedQueryExactly` | crates/logit-aws/src/sigv4.rs:124-126 | encoding and sorting forget the order of the parameters and nothing else |
| `CanonicalRequest.QueryExactly` | crates/logit-aws/src/sigv4.rs:124-127 | two queries give the same canonical string exactly when one is a permutation of the other |
| `CanonicalRequest.WordsAreWords` | crates/logit-aws/src/sigv4.rs:132 | the words of a value are not empty and hold no Unicode white space |
| `CanonicalRequest.CollapseKeepsWords` | crates/logit-aws/src/sigv4.rs:132 | collapsing keeps the words, and collapsing twice is collapsing once |
| `CanonicalRequest.FoldHeaders` | crates/logit-aws/src/sigv4.rs:129-140 | the in-place loop gives the fold of the headers |
| `CanonicalRequest.FoldFolds` | crates/logit-aws/src/sigv4.rs:129-140 | the fold has each lowercased name once, with its collapsed values joined by commas in arrival order, and no other |
| `CanonicalRequest.HeadersFolded` | crates/logit-aws/src/sigv4.rs:129-141 | the same after sorting, with the names strictly ascending |
| `CanonicalRequest.HeaderOrderForgotten` | crates/logit-aws/src/sigv4.rs:129-141 | reordering that keeps same-named headers in order changes nothing |
| `CanonicalRequest.CanonicalRequestText` | crates/logit-aws/src/sigv4.rs:122-155 | the method builds the six parts of the canonical request; `CanonicalText.TextLines` says what they are |
| `CanonicalText.TextLines` | crates/logit-aws/src/sigv4.rs:122-155 | line by line: the method, the path, the query line, one line for each folded header, an empty one, the names joined by `;`, the payload hash |
| `CanonicalText.QueryLine` | crates/logit-aws/src/sigv4.rs:124-127 | the query line split on `&` and `=` decodes to the parameters, each once, their encoded names and then values in byte order |
| `CanonicalText.PathLine` | crates/logit-aws/src/sigv4.rs:123 | the path line is the path's segments, each encoded, with `/` between them |
| `CanonicalText.LeqIsByteOrder` | crates/logit-aws/src/sigv4.rs:126 | the order is that of the first byte that differs, a prefix first |
| `CanonicalText.EncodedByte` | crates/logit-aws/src/sigv4.rs:175-186 | each byte is itself when unreserved and otherwise `%` with two upper-case digits |
| `CanonicalText.EncodedApart` | crates/logit-aws/src/sigv4.rs:175-186 | a text is encoded byte by byte |
| `CanonicalText.FoldedLower` | crates/logit-aws/src/sigv4.rs:131 | no folded name holds a byte from 65 to 90 |
| `CanonicalText.LowerByte` | crates/logit-aws/src/sigv4.rs:131 | a letter is lowered and any other byte kept, by position |
| `CanonicalText.NamesAscend` | crates/logit-aws/src/sigv4.rs:141 | the folded names strictly ascend in byte order |
| `CanonicalText.WordsExactly` | crates/logit-aws/src/sigv4.rs:132 | a value is its words with white space around and between them and nothing else |
| `HeaderValues.FoldedExactly` | crates/logit-aws/src/sigv4.rs:129-141 | a canonical header has the lowered name of all the headers of that name in any case, and their values, each its words with one space between, joined by commas in arrival order |
| `HeaderValues.EveryHeaderFolded` | crates/logit-aws/src/sigv4.rs:129-141 | every header is in one |
| `HeaderValues.WhiteIsUnicode` | crates/logit-aws/src/sigv4.rs:132 | the bytes taken for white space are the UTF-8 of the characters that are |
| `CanonicalRequest.OrderForgotten` | crates/logit-aws/src/sigv4.rs:122-155 | parameter order and the order of differently named headers never reach the canonical request |
| `SignedHeaders.HeaderLinesInjective` | crates/logit-aws/src/sigv4.rs:142-143 | the header lines can be taken apart again, whatever follows their empty line |
| `SignedHeaders.RequestDetermined` | crates/logit-aws/src/sigv4.rs:122-155 | two requests have the same canonical text exactly when they have the same method, path, payload hash and folded headers, and the same parameters up to order |
| `Presign.SigningKey` | crates/logit-aws/src/sigv4.rs:164-171 | the loop chains the four HMACs from the secret inwards |
| `Presign.Sign` | crates/logit-aws/src/sigv4.rs:76-80 | the signature is, digit by digit, the HMAC of the four lines to sign under the key chained from the secret |
| `Presign.HexByPosition` | crates/logit-aws/src/sigv4.rs:188-190 | two lower-case digits a byte, the high one first, by position |
| `Bytes.AsciiIs` | crates/logit-aws/src/sigv4.rs:158-162 | the literal texts that are signed are the codes of their characters, by position |
| `Presign.SignedParams` | crates/logit-aws/src/sigv4.rs:95-108 | the query, then the algorithm, credential, date, expiry, token when there is one and signed headers, spelled out |
| `Presign.PresignQuery` | crates/logit-aws/src/sigv4.rs:87-117 | the signature comes last and signs a GET of the other parameters for the host, spelled out; a verifier that signs them again, in any order, computes exactly it |
| `Presign.AnyOrderVerifies` | crates/logit-aws/src/sigv4.rs:76-117 | signing any permutation of the parameters gives the same signature |
| `Presign.OtherParamsOtherText` | crates/logit-aws/src/sigv4.rs:109-115 | the canonical request is the same exactly for a permutation of the parameters and a host equal up to white space |
| `Profile.CutComments` | crates/logit-aws/src/creds.rs:715-720 | the loop cuts at each marker in turn |
| `Profile.ReadLine` | crates/logit-aws/src/creds.rs:687-721 | a line is skipped, a header of some rank, or an assignment |
| `ProfileLines.EveryLine` | crates/logit-aws/src/creds.rs:687-721 | every line is ignored, an open header, a header or an assignment, by how it is written |
| `ProfileLines.IgnoredLine` | crates/logit-aws/src/creds.rs:688-693 | a line that is indented, blank, a comment or no assignment is skipped |
| `ProfileLines.CredentialsHeader` | crates/logit-aws/src/creds.rs:695-707 | `[name]`, trimmed, is the profile's in the credentials file |
| `ProfileLines.ConfigHeader` | crates/logit-aws/src/creds.rs:695-704 | `[profile name]`, trimmed twice, is the profile's in the config file |
| `ProfileLines.BareConfigHeader` | crates/logit-aws/src/creds.rs:695-704 | without `profile ` only `[default]` is one, the default profile's and of the lower rank |
| `ProfileLines.OpenHeader` | crates/logit-aws/src/creds.rs:695-697 | a header that is not closed is nobody's |
| `ProfileLines.AssignmentIs` | crates/logit-aws/src/creds.rs:714-721 | the key before the first `=`, and the value up to the first comment, both trimmed |
| `ProfileLines.TrimIs` | crates/logit-aws/src/creds.rs:690 | trimming leaves the part between the white space around it |
| `ProfileLines.TrimSplits` | crates/logit-aws/src/creds.rs:690 | every text is white space, its trimmed part and white space |
| `ProfileLines.LineFeedEnds` | crates/logit-aws/src/creds.rs:686 | a line feed ends a line, whatever follows |
| `ProfileLines.CrLfEnds` | crates/logit-aws/src/creds.rs:686 | so does a carriage return with a line feed |
| `Profile.TakeLine` | crates/logit-aws/src/creds.rs:694-721 | one line's turn opens a section, sets a key in the current one or does nothing, and keeps the sections what the lines say |
| `Profile.ReadSections` | crates/logit-aws/src/creds.rs:684-722 | the loop's sections hold, per rank, what the lines assign |
| `Profile.MergeSections` | crates/logit-aws/src/creds.rs:723-730 | the sections of the highest rank merged in order, or nothing when there are none |
| `Profile.ProfileKeys` | crates/logit-aws/src/creds.rs:677-731 | the whole reader gives the keys the lines' kinds say |
| `Profile.ProfileMeaning` | crates/logit-aws/src/creds.rs:670-731 | nothing exactly when no section matches; else each key maps to its last assignment under a header of the highest rank, wherever the sections stand |
| `ProfileLines.HeaderAbove` | crates/logit-aws/src/creds.rs:695-713 | lines stand under the last header above them |
| `ProfileLines.WrittenProfile` | crates/logit-aws/src/creds.rs:677-731 | a section written out plainly, in either file and under any of its headers, reads back as its keys, each with the last value written |
| `ProfileSections.EveryFileDivides` | crates/logit-aws/src/creds.rs:684-712 | every file is some lines and then sections, each a header and the lines up to the next |
| `ProfileSections.SectionsDecide` | crates/logit-aws/src/creds.rs:682-730 | the assignments of a rank are those of the sections of that rank, in file order |
| `ProfileSections.OnlyTopSectionsMatter` | crates/logit-aws/src/creds.rs:682-730 | two files with the same highest-ranked sections in the same order give the same keys, whatever other sections they hold and wherever |
| `ProfileSections.LowerSectionsAddNothing` | crates/logit-aws/src/creds.rs:682-730 | taking out a section that is not the profile's, or is below the highest rank, changes nothing |
| `Profile.CutsAreOneCut` | crates/logit-aws/src/creds.rs:715-720 | the four cuts one after another are one cut at the earliest comment |
| `XmlText.NextReference` | crates/logit-aws/src/creds.rs:746-763 | the head of the loop finds the next reference and what it stands for, or the reason to stop |
| `XmlText.DecodeEntities` | crates/logit-aws/src/creds.rs:744-767 | the loop over the shrinking rest ends and gives the decoding |
| `XmlText.ReadElement` | crates/logit-aws/src/creds.rs:735-769 | the trimmed decoding of the first element's text, or nothing when it is missing, unclosed or not a leaf |
| `XmlText.DecodesExactly` | crates/logit-aws/src/creds.rs:744-767 | a text decodes to a string exactly when it spells it, character by character, plainly or by reference |
| `XmlText.ElementIsRead` | crates/logit-aws/src/creds.rs:735-769 | any spelling of a string in a tag is read back trimmed, whatever surrounds it |
| `XmlText.EscapedIsRead` | crates/logit-aws/src/creds.rs:735-769 | for every string and tag: escape, wrap, read, and the trimmed string comes back |
| `XmlText.NumbersSpell` | crates/logit-aws/src/creds.rs:756-762 | every character's decimal and hexadecimal reference decodes to it |
| `XmlEntities.EntityExactly` | crates/logit-aws/src/creds.rs:751-763 | a reference stands for a character exactly when it is one of five names of it or a decimal or hexadecimal number of its code point |
| `XmlEntities.ElementOnly` | crates/logit-aws/src/creds.rs:735-769 | only the text of the first `<tag>` up to its `</tag>` is ever read, and only if it holds no other tag |
| `CredentialCache.Chain.Check` | crates/logit-aws/src/creds.rs:198-202 | serves the cached credentials before their refresh time, and nothing from then on |
| `CredentialCache.Chain.Store` | crates/logit-aws/src/creds.rs:204-210 | caches credentials that expire five minutes from now or later, until five minutes before, and empties the cache otherwise |
| `CredentialCache.Chain.Forget` | crates/logit-aws/src/creds.rs:215-220 | drops exactly the credentials given |
| `CredentialCache.Chain.Call` | crates/logit-aws/src/creds.rs:196-212 | one undisturbed call: served or asked, and the cache after it; a failed lookup leaves it |
| `CredentialCache.StepKeepsInv` | crates/logit-aws/src/creds.rs:196-220 | every step of every dial, cancellations and clock steps included, keeps lock, cache, identities and history consistent |
| `CredentialCache.SingleFlight` | crates/logit-aws/src/creds.rs:197 | in every run at most one dial is in a lookup |
| `CredentialCache.ServedExactly` | crates/logit-aws/src/creds.rs:198-202 | in every run a dial is served exactly what the last lookup kept, exactly while it is not due or forgotten |
| `CredentialDue.NotTooEarly` | crates/logit-aws/src/creds.rs:198-210 | in every run no lookup starts while what the last one stored is good: more than five minutes from its expiry, as the clock reads at its storing tell |
| `CredentialDue.ServedWhileGood` | crates/logit-aws/src/creds.rs:198-210 | in every run a check is handed what the last lookup stored exactly while that is good, and starts a lookup otherwise |
| `CredentialDue.StoredIsCached` | crates/logit-aws/src/creds.rs:204-210 | in every run the cache is what the last lookup's store made of it, until that is forgotten |
| `CredentialCache.LookupsJustified` | crates/logit-aws/src/creds.rs:196-212 | in every run each lookup follows an empty, due or forgotten cache, or a failed or cancelled lookup |
| `CredentialCache.ServedInTime` | crates/logit-aws/src/creds.rs:204-210 | credentials are served before their expiry less five minutes, up to the gap between the two clock reads and to how far the wall clock was set |
| `CredentialCache.ServedInTimeUnset` | crates/logit-aws/src/creds.rs:204-210 | with no clock set, the gap between the clock reads on lines 205 and 209 is the only slack |
| `CredentialCache.ForgottenStaysForgotten` | crates/logit-aws/src/creds.rs:214-220 | in every run no cache read after a forget returns what was forgotten |
| `CredentialHistory.StepKeepsHistory` | crates/logit-aws/src/creds.rs:196-220 | every step keeps the cache what the log makes of it, stores in order of age, and forgets to what was stored |
| `CredentialHistory.CacheIsReplay` | crates/logit-aws/src/creds.rs:196-220 | in every run the cache is what the logged stores and forgets make of it: nothing else ever changes it |
| `CredentialHistory.StoredInOrder` | crates/logit-aws/src/creds.rs:203-210 | in every run each stored credential is newer than every one stored before it |
| `CredentialHistory.ForgottenWasStored` | crates/logit-aws/src/creds.rs:214-220 | in every run whatever is forgotten was stored before |
| `CredentialHistory.OlderForgetsNothing` | crates/logit-aws/src/creds.rs:214-220 | in every run a forget of credentials stored before the latest ones leaves the cache as it was |
| `CredentialHistory.BrokenLookupLeavesCache` | crates/logit-aws/src/creds.rs:203 | in every run, over a lookup that fails or is cancelled, the cache changes by the forgets made meanwhile and by nothing else |
| `CredentialChain.Resolve` | crates/logit-aws/src/creds.rs:223-248 | the sources in turn: result, absent list and requests made; `SourceContents` says what each source gives |
| `CredentialChain.FirstPresentDecides` | crates/logit-aws/src/creds.rs:223-236 | the first source that is there gives the outcome, failure or credentials, and only its requests are made |
| `CredentialChain.ImdsDecides` | crates/logit-aws/src/creds.rs:237-247 | with all four absent IMDS decides, or its refusal when it is off |
| `SourceContents.EnvironmentGives` | crates/logit-aws/src/creds.rs:250-274 | the two keys and the token of the environment, trimmed, and no expiry |
| `SourceContents.HalfAnEnvironment` | crates/logit-aws/src/creds.rs:250-274 | one key alone is refused |
| `SourceContents.WebIdentityAsks` | crates/logit-aws/src/creds.rs:276-352 | one request to STS for the role with the file's token; its status and its four fields decide |
| `SourceContents.WebIdentityRefused` | crates/logit-aws/src/creds.rs:276-320 | half a setup, no token in the file, or a region without STS is refused and nobody is asked |
| `SourceContents.SharedFilesGive` | crates/logit-aws/src/creds.rs:354-424 | the profile's keys, each from the credentials file if that sets it, decide; only an unnamed profile without keys is skipped |
| `SourceContents.SharedFilesRefused` | crates/logit-aws/src/creds.rs:354-424 | an unreadable file, and a named profile in neither file, are refused |
| `SourceContents.ContainerAsks` | crates/logit-aws/src/creds.rs:426-470 | one request to the address the variables give, with their token; its status and document decide |
| `SourceContents.ContainerRefused` | crates/logit-aws/src/creds.rs:426-470 | an address that is not allowed, or no token in the file, is refused and nobody is asked |
| `SourceContents.ImdsAsks` | crates/logit-aws/src/creds.rs:472-516 | the token, the roles and the first role's document are asked in turn, and each answer decides; switched off, nothing is asked |
| `CredentialChain.AbsentListExactly` | crates/logit-aws/src/creds.rs:223-237 | the absent list is the sources before the first one that is there, in chain order |
| `CredentialChain.AgreeingHosts` | crates/logit-aws/src/creds.rs:223-516 | hosts whose sources say the same up to the first one that is there get the same outcome |
| `HostFootprint.SameAttempt` | crates/logit-aws/src/creds.rs:250-516 | a source says the same on hosts that agree on the variables, files and answers it reads |
| `HostFootprint.FootprintDecides` | crates/logit-aws/src/creds.rs:223-516 | a host's outcome depends on nothing but what the sources up to the first one that is there read on it |
| `CredentialChain.ImdsOnlyLast` | crates/logit-aws/src/creds.rs:21-25 | IMDS is asked or used only on a host where the other four are absent, each in terms of its variables and files |
| `CredentialChain.BrokenWebIdentityStaysBroken` | crates/logit-aws/src/creds.rs:21-25 | a web identity setup, however broken, never authenticates as anything else and asks nobody but STS |
| `Config.Walker.Walk` | crates/logit-cli/src/config.rs:156-212 | the walk returns what the resolution function says, appends its substitutions, and restores the path stack on success and on error; an `!env` comes out as spelled below |
| `Config.Walker.WalkEnvTag` | crates/logit-cli/src/config.rs:214-247 | one `!env`, spelled out by what it holds, whether its variable is set and what its text reads as: the value or error, and the one substitution that names its kind |
| `Config.Walker.WalkEntry` | crates/logit-cli/src/config.rs:168-182 | one mapping entry, key before value, with the mode `vars` switches |
| `ConfigMappings.BuildMerges` | crates/logit-cli/src/config.rs:166-183 | keys that meet after resolution keep the first one's place and take the last one's value, and no other entry is lost |
| `ConfigMappings.EntryPath` | crates/logit-cli/src/config.rs:168-177 | a value stands below its resolved key's name, or its kind in angle brackets; a key stands where its mapping does |
| `ConfigLaws.SucceedsExactly` | crates/logit-cli/src/config.rs:156-247 | resolution succeeds exactly when every tag, in keys and values, is a core tag or an `!env` over a string naming a set variable |
| `ConfigLaws.ResolvedIsClean` | crates/logit-cli/src/config.rs:156-247 | what it returns holds only core tags |
| `ConfigLaws.ResolvedIsFinal` | crates/logit-cli/src/config.rs:124-247 | resolving the result again, under any environment and anywhere, returns it unchanged and records nothing |
| `ConfigLaws.OnlyNamedVariablesMatter` | crates/logit-cli/src/config.rs:137-247 | environments that agree on the variables the tree names give the same outcome |
| `ConfigMeaning.VerbatimExactly` | crates/logit-cli/src/config.rs:137-182 | the text of a variable is kept exactly below the `vars:` of a component whose `type` key, as it is written, names `lua`: what the walk does, before the entries are resolved |
| `ConfigMeaning.EnvRetyped` | crates/logit-cli/src/config.rs:214-260 | outside `vars:`, a variable's text that reads as null, a boolean, an integer or a float becomes it and is recorded under that name; any other, and an empty one, stays text |
| `ConfigMeaning.EnvKept` | crates/logit-cli/src/config.rs:235-238 | below `vars:` it stays text and nothing is recorded |
| `ConfigMeaning.TagRefused` | crates/logit-cli/src/config.rs:194-234 | an `!env` over anything but a string or over an unset variable is refused, and so is every tag but `!env` and those that start with `!!` |
| `LuaVars.BuiltType` | crates/logit-cli/src/config.rs:168-184 | the resolved mapping has the type of the last `type` key among its resolved entries |
| `LuaVars.RunsLuaExactly` | crates/logit-cli/src/config.rs:156-184 | a component that resolves runs as `lua` exactly when the last of its keys that becomes `type`, an `!env` key included, names it |
| `LuaVars.GuardRightExactly` | crates/logit-cli/src/config.rs:137-154 | the walk takes a component for `lua` just when it runs as `lua`, exactly when that last key and the one written `type` name `lua` alike |
| `LuaVars.PlainGuardRight` | crates/logit-cli/src/config.rs:137-154 | so it does when no key is an `!env` over a variable holding `type` |
| `LuaVars.PromiseKeptExactly` | docs/design/lua-api.md:560 | over a whole config that resolves, an `!env` is kept as text below the `vars:` of the components that run as `lua` and nowhere else, exactly when each component with `vars:` has such a settled type |
| `LuaVars.NumberInLua` | crates/logit-cli/src/config.rs:124-126 | a component that runs as `lua` by an `!env` key, and whose variable becomes a number |
| `LuaVars.TextElsewhere` | crates/logit-cli/src/config.rs:124-126 | a component written as `lua` that runs as something else, and whose variable is kept as text |
| `ConfigMeaning.Meaning` | crates/logit-cli/src/config.rs:124-247 | the result is the tree with each tag's scalar in its place and the substitutions in document order, or the first bad tag's error with those before it |

## Left out

- `split_row`, `unescape`, `Framer` and every codec and pipeline crate: not part of this model; the fuzz targets' own reference machines are.
- The octet-counting and auto modes of the framing target, and its `run` and `close`: they drive the real framer and have no reference machine there.
- Sockets, TLS, HTTP clients, file reads and the async runtime: an endpoint's or a file's answer is an input, and a dial's steps are interleaved freely.
- HMAC and SHA-256: arbitrary functions, so the signing laws hold for any.
- The clock: reads are inputs of the steps. `AmzDate` formatting is left out; a date is its own text.
- The library sort is modelled by an insertion sort, which gives the one sorted arrangement there is.
- YAML parsing and typed deserialisation: a configuration is an already parsed tree, re-parsing a scalar is an arbitrary function, and so is the equality of mapping keys, since floating-point keys are involved.
- `LuaVars.PromiseKeptExactly`: takes it from the YAML library that a text key is found by its text alone and that `type`, `lua` and `lua_file` are read as text; what typed deserialisation makes of a `type` under a core tag is left out with it.
- `ConfigMappings.BuildMerges`: takes it from the YAML library that key equality is an equivalence.
- JSON parsing of endpoint answers: an answer carries the fields that are read.
- The text of errors, of absent-list entries and of `missing()`; a path is its list of segments.
- Region partitions, container address rules and expiry timestamps: arbitrary functions of the host, each settled by one branch.
- UTF-8 decoding in front of `xml_text`: its text is taken as characters.
- `Ownership.Ownership`: record fields other than topic, partition and offset are left out, except the sequence number the verdict counts.
- The UDP, TCP and Unix modes of the capture tool, its replies and its deadline: easy members or input and output.
- `Chunked.Stream.Read`: a size beyond a machine word, which Python's `read` refuses, takes all there is here, because no stream in the model has a bound on its length.
- `RequestBody.TakeBody`: the meaning of a Content-Length text is a function of it, whichever texts Python's `int` takes.
- `Chunked.DecodeEncoded`: the size text is any hexadecimal one; the underscores and signs Python's integer parser also takes are in the model's reader and not in the encoder.
- `signals.rs`, `fdlimit.rs`, `provenance.rs`, `resource.rs`, `dot.rs`, `http.rs`, `alloc.rs` and the other checkers: easy members.
