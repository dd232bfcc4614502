# Verified models of HolyLib's HTTP codecs and concurrency primitives

Two parts of HolyLib are modelled here and their hard properties proved.

**The HTTP codecs and buffers of `source/httplib.h`.** Characters are Dafny `char`s. The code that works step by step is
modelled by methods and classes with the same fields, loops, branches and constants, each proved equal to a
specification function; the laws are then proved about those functions. A socket delivers between one byte and as many
as asked for, or ends in one of three ways (closed, failed, timed out). An outgoing connection takes all or a part of
each write or fails, as its `plan` says, and keeps a log of the writes; plans and pieces are arbitrary. Contracts that
need a connection that does not fail, or takes every write whole, name it (`Reliable`, `Whole`).

| module | models |
|---|---|
| `Bytes` | character classes, searching, trimming, concatenation |
| `PercentCoding`, `QueryText` | percent escapes in both directions, splitting, query strings |
| `Base64` | the encoder on its wrapping 32-bit accumulator |
| `Streams` | the socket's read-ahead buffer and the two-stage line buffer |
| `HeaderBlock` | header blocks in both directions |
| `Chunked`, `ChunkedReader` | the chunked coding in both directions |
| `Multipart`, `MultipartParser` | the form printer and the incremental parser over its sliding buffer |
| `MultipartNames` | which names, file names and content types survive a part header |
| `MultipartStreaming`, `MultipartRoundTrip` | chunk independence of the parser, and the round trip |
| `MultipartProvider` | the closure that streams a form through the chunked writer |
| `Ranges` | range normalisation in place |
| `RangeFraming`, `RangeResponse` | `multipart/byteranges` text and its reading; the body, the announced length and the sending |
| `PathParams` | the compiled route matcher |
| `ThreadPool` | the worker pool, over all interleavings |

**HolyLib's own primitives** (`source/lua.h`, `source/lua.cpp`, `source/teleport_guard.h`).

| module | models |
|---|---|
| `ThreadAccess` | `ThreadAccessMutex` under nested scopes of any number of threads |
| `StateData`, `StateDataRuns` | creation, removal and use of `StateData` on top of it, over all interleavings |
| `LuaMutex` | `LuaMutex` and `ThinkMainInterface`, one step for each atomic operation |
| `TeleportGuard` | the intrusive stack of scopes, and the recursion it bounds |

The concurrent modules are transition systems: a state, an action of one thread, the state after it, and for each a
predicate that holds in every state of every run (`Reachable`). Threads, producers and workers may be any number.
Atomics and locks are sequentially consistent.

## Findings

The properties below hold of the code only under a condition. Each is stated with its exact condition.

- A header value outside `Location` and `Referer` comes back changed exactly when it holds a valid percent escape; a
  value with a lone `%` survives (`HeaderBlock.HeaderRoundTrip`; `HeaderBlock.ValueIsRewritten` for the field `X: %41`,
  which is read as `X: A`).
- Query keys are printed unencoded. A pair comes back exactly if its key is not empty, does not begin with a blank, and
  holds no '&', '=', '+' and no valid percent escape (`QueryText.PairReturnsIff`; the key "+" is read as a blank,
  `QueryText.PlusKeyChanges`).
- A content provider whose call ends with an empty write, without `done`, makes the chunked writer stop without a
  terminator and still report success; the receiver then rejects the message (`Chunked.ChunkedRoundTrip`, and
  `Chunked.StallingProvider` for one such provider).
- With both a body and a content length set, an accepted range satisfies the asserts of
  `get_range_offset_and_length` for all requests exactly when the content length does not exceed the body
  (`RangeResponse.AssertsHoldIff`).
- The tokens of a multi-range response are written with a single write each whose result is ignored; the text is
  whole exactly when every such write took all its bytes (`RangeResponse.WriteMultipartRangesData`), and success is
  reported also when one did not (`RangeResponse.ShortTokenGoesUnnoticed`).
- `ThinkMainInterface` can return exactly if its caller has the main state's mutex locked once, or if nobody waits:
  otherwise `lockWhenDone` waits for an owner that is the caller itself (`LuaMutex.ThinkReturnsIff`; the position is
  reached, `LuaMutex.LockedTwiceWithWaiter`). `lockWhenDone` can return exactly if the caller does not have the mutex
  and no such thread has it (`LuaMutex.LockWhenDoneReturnsIff`).
- `enqueue` accepts jobs after `shutdown` (`ThreadPool.LateJobIsAccepted`); a queued job can still run exactly as long
  as a worker is left (`ThreadPool.QueuedJobRunsIff`).
- `CreateLuaData` with `bNullOut` clears the slot before it looks at it. On an interface that has its data already, the
  old object stays registered and allocated for ever without a slot (`StateDataRuns.SecondCreationLosesObject`,
  `StateDataRuns.LostForEver`); registry and slots agree exactly if that has not happened
  (`StateDataRuns.RegistryIsLive`).
- Names, file names and content types are printed into part headers as they are. As long as each header line holds no
  CRLF and is within the limit, a form comes back one for one exactly if all of its names and file names are made of
  field characters other than ';' and '=', and its content types are field values; quotes survive
  (`MultipartRoundTrip.MultipartRoundTrip`). Otherwise it is rejected if one of these lines is, as
  with a control character other than a tab in a name, and accepted under another description if none is
  (`MultipartRoundTrip.FormReread`).
- A name with a CRLF in it is cut there: the form with the name "a", CRLF, "X: y" is accepted, and its item delivered
  under the name `"a` (`MultipartRoundTrip.NameWithLineEnd`). Whatever the input, no item is ever delivered under a name
  with a character outside those above (`MultipartRoundTrip.DeliveredAreClean`).
- The first boundary line is found only if a single chunk holds all of it: chunks before that one are thrown away
  (`MultipartStreaming.FirstLineIsWhole`), and nothing at all comes of the input exactly if no chunk holds it
  (`MultipartStreaming.BeginsIff`). A first chunk that ends within the line thus makes a form come to nothing if the line
  does not occur again (`MultipartStreaming.FirstLineCut`).

## Model

| member | source | states |
|---|---|---|
| Bytes.SameLetterIff | source/httplib.h:354-383 | Two characters are equal ignoring case exactly when they are the same, or a capital, ASCII or Latin-1, and its small letter |
| PercentCoding.FromHexToInt | source/httplib.h:2643-2658 | The loop computes the value of the hexadecimal prefix, or fails on a character that is none |
| PercentCoding.DecodeUrl | source/httplib.h:2842-2877 | The loop computes `Decoded`, with `%uXXXX`, `%XX`, malformed escapes kept, and '+' as asked |
| PercentCoding.DecodedIsIdentityIff | source/httplib.h:2842-2877 | Decoding leaves a text alone exactly when it holds no valid escape, nor a '+' that is to become a blank |
| PercentCoding.EncodeQueryParam | source/httplib.h:2789-2808 | The loop computes `Encoded` |
| PercentCoding.DecodeEncode | source/httplib.h:2789-2877 | Round trip: decoding an encoded byte string gives it back, for both treatments of '+' |
| PercentCoding.SpelledIff | source/httplib.h:2629-2658 | A run of digits has a value exactly when each is a digit of that value, in either case |
| PercentCoding.TwoDigitsDecode | source/httplib.h:2864-2872 | Two digits of either case behind a `%` are decoded to that byte |
| PercentCoding.FourDigitsDecode | source/httplib.h:2848-2862 | Four of them behind `%u` are decoded to the UTF-8 bytes of that code point |
| PercentCoding.CodePointOfUtf8 | source/httplib.h:2670-2700 | A reader written from section 3 of RFC 3629 gets every code point below 0x10000 back from its bytes; surrogates have none |
| PercentCoding.NoEscapeIff | source/httplib.h:2846-2877 | A `%` is kept exactly when neither form follows it |
| PercentCoding.EncodedByteIs | source/httplib.h:2789-2808 | The encoder leaves letters, digits and nine marks alone; every other byte becomes a `%` and two capital digits that spell it |
| QueryText.SplitPieces | source/httplib.h:2946-2966 | The loop over the text yields the trimmed, non-empty pieces between separators, in order |
| QueryText.ParseQueryText | source/httplib.h:4800-4825 | The multimap gets the decoded pairs of the pieces, repeated pieces dropped, in order |
| QueryText.ParamsToQueryStr | source/httplib.h:4788-4798 | The printed pairs, each value encoded and each key as it is |
| QueryText.SplitJoined | source/httplib.h:2946-2966 | Splitting undoes joining, for any segments, but for blanks around them and empty ones |
| QueryText.PairIsParsed | source/httplib.h:4800-4821 | Whatever follows the first `=` is the value, decoded, other `=` included |
| QueryText.FormIsParsed | source/httplib.h:4800-4821 | A pair whose value is form-encoded, blanks as `+`, comes in as that pair, for every byte string |
| QueryText.FlagIsParsed | source/httplib.h:4800-4821 | A key alone comes in with an empty value |
| QueryText.ParsePrinted | source/httplib.h:4788-4825 | Parsing the printed pairs gives them back without later identical pairs, in order, for all keys that survive |
| QueryText.QueryRoundTrip | source/httplib.h:4788-4825 | Under each key the multimap read back has the key's values, in order, first occurrences only |
| QueryText.PairReturnsIff | source/httplib.h:4788-4825 | A printed pair is parsed as just that pair exactly when its key is one that survives unencoded |
| QueryText.PlusKeyChanges | source/httplib.h:4788-4825 | A pair with the key "+" is read back under the key " " |
| Base64.LookupIsAlphabet | source/httplib.h:2705-2706 | The characters are those of table 1 of RFC 4648, in order |
| Base64.OnlyLowTwelveBits | source/httplib.h:2711-2725 | Two accumulators that agree in the low twelve bits give the same output character at every shift used |
| Base64.Base64Encode | source/httplib.h:2704-2730 | On inputs of any length, though the accumulator wraps, the output is that of the three-byte groups of section 4 of RFC 4648 |
| Base64.Base64Length | source/httplib.h:2704-2730 | The output has 4 * ceil(n / 3) characters |
| Base64.DecodeBase64 | source/httplib.h:2704-2730 | A decoder written from the standard gives the input back |
| Streams.SocketStream.Read | source/httplib.h:6044-6088 | Bytes returned, then bytes read ahead, then bytes to come are the bytes that were to come: nothing lost, repeated or reordered |
| Streams.StreamLineReader.Append | source/httplib.h:3029-3040 | The text grows by the character, across the spill from the fixed buffer to the string |
| Streams.StreamLineReader.Getline | source/httplib.h:2994-3027 | The shortest prefix ending in CRLF, or the rest at the end; for every fixed buffer of at least two characters |
| HeaderBlock.IsFieldContent | source/httplib.h:2590-2613 | The scan accepts exactly the field values of section 5.5 of RFC 9110 |
| HeaderBlock.ParseHeader | source/httplib.h:4226-4272 | Trimming, the colon, the checks and the decoding of one line, or rejection |
| HeaderBlock.TokenCharIff | source/httplib.h:2568-2574 | The characters of a field name are the visible ones but the delimiters of section 5.6.2 of RFC 9110 |
| HeaderBlock.FieldValueIff | source/httplib.h:2584-2613 | A field value is a text without control characters but the tab and without a blank at either end |
| HeaderBlock.KeptVerbatimIff | source/httplib.h:4263-4265 | The values of just `Location` and `Referer`, in any case, are not decoded |
| HeaderBlock.FieldLineIsTaken | source/httplib.h:4226-4272 | Every line of the form key, colon, blanks, field value, blanks is read as that key and that value |
| HeaderBlock.TakenIsFieldLine | source/httplib.h:4226-4272 | No other line is read as a field |
| HeaderBlock.ReadHeaders | source/httplib.h:4274-4311 | The loop over lines yields what the whole-text reader `ReadBlock` yields, fields and unread bytes, in every kind of end |
| HeaderBlock.LinesAreRead | source/httplib.h:4274-4311 | Every block of such lines, each within the limit, and a blank one is read as their fields, and what follows is left |
| HeaderBlock.ReadAreLines | source/httplib.h:4274-4311 | No other block is accepted, one that was cut short included |
| HeaderBlock.WriteHeaders | source/httplib.h:4537-4554 | The buffer gets one line for each header and the blank line, and the count returned is its length |
| HeaderBlock.ReadPrinted | source/httplib.h:4226-4311 | The printed block, if the lines fit, is read as the same fields with decoded values, and is rejected otherwise |
| HeaderBlock.HeaderRoundTrip | source/httplib.h:4226-4311 | A multiset of headers `set_header` lets through survives exactly when every line fits and no value is rewritten |
| HeaderBlock.ValueIsRewritten | source/httplib.h:4251-4268 | The field `X: %41`, which `set_header` lets through, is read back as `X: A` |
| Chunked.FromIntToHex | source/httplib.h:2660-2668 | The loop prints the hexadecimal digits |
| Chunked.ReadBackSize | source/httplib.h:4313-4425 | `strtoul` on a printed size and what follows it gives the size back |
| Chunked.StrToULIs | source/httplib.h:4375-4382 | What `strtoul` makes of blanks, a sign, a prefix and digits of either case, with saturation and wrap-around |
| Chunked.NoNumber | source/httplib.h:4375-4382 | Without a digit it converts nothing |
| Chunked.ChunkedWriter.Write | source/httplib.h:4657-4681 | A write sends its chunk, counts its bytes and announces more data exactly when it is not empty; it fails only on a broken connection |
| Chunked.ChunkedWriter.Done | source/httplib.h:4685-4733 | The last chunk, the trailer and the blank line are sent, unless the connection broke |
| Chunked.WriteContentChunked | source/httplib.h:4647-4750 | The loop sends what the provider's calls amount to, and succeeds on a reliable connection when the provider comes to an end |
| Chunked.ReadWritten | source/httplib.h:4362-4425 | What was written as chunks and terminator is read as the concatenation and the trailer, and nothing beyond it is touched |
| Chunked.SizeWithExtension | source/httplib.h:4367-4382 | Digits of either case, with leading zeros and an extension behind them, are a size line |
| Chunked.ReadForeignChunk | source/httplib.h:4362-4405 | A chunk with any such size line is read as its data |
| Chunked.ReadForeignEnd | source/httplib.h:4405-4425 | The last chunk of another sender, with trailer lines of which those that are fields are kept |
| Chunked.ChunkMustEnd | source/httplib.h:4385-4402 | Data that no line end follows is not accepted |
| Chunked.SizeMustBeNumber | source/httplib.h:4375-4382 | A size line without a number is not accepted |
| Chunked.SizeMustFit | source/httplib.h:4375-4382 | Nor is a size that does not fit |
| Chunked.BareLastChunk | source/httplib.h:4405-4425 | A message may end with the line of its last chunk |
| Chunked.TrailersMustEnd | source/httplib.h:4405-4425 | A trailer section that has begun must end with a blank line |
| Chunked.CutShort | source/httplib.h:4362-4425 | A message cut anywhere before its last chunk is not accepted, and exactly the data that has arrived is delivered |
| Chunked.ChunkedRoundTrip | source/httplib.h:4362-4750 | A whole run of the writer is accepted exactly when no call but the last ends with an empty write; then exactly the written bytes arrive |
| Chunked.StallingProvider | source/httplib.h:4657-4750 | A provider of two calls whose run ends well and whose message the receiver rejects |
| ChunkedReader.ReadContentWithLength | source/httplib.h:4313-4333 | Delivers exactly the next bytes, or what there is |
| ChunkedReader.ReadContentChunked | source/httplib.h:4361-4425 | For every input, end, short-read pattern and refusal of the receiver, delivers what the whole-input decoder `ReadMessage` says |
| Multipart.SerializeMultipartFormdata | source/httplib.h:5196-5239 | The loop prints the items and, if asked, the finish line |
| Multipart.ParseDispositionParams | source/httplib.h:4838-4861 | The parameters, unquoted, repeated pieces dropped |
| Multipart.ReadHeaderLine | source/httplib.h:4963-5008 | The effect of one part-header line, or its rejection |
| MultipartNames.ParametersRead | source/httplib.h:4838-4861 | Any list of parameters, quoted or not, with blanks around them, is read as its keys and values, repetitions dropped |
| MultipartNames.LastPieceCounts | source/httplib.h:4838-4861 | Of a parameter with several `=` the last piece is the value |
| MultipartNames.ForeignDisposition | source/httplib.h:4973-4983 | A disposition, its fixed parts in any case and with blanks between them, sets what its parameters say |
| MultipartNames.ForeignType | source/httplib.h:4968-4973 | So does a content type |
| MultipartNames.ExtendedNameWins | source/httplib.h:4991-5006 | A `filename*` in UTF-8 names the file, decoded, whatever `filename` says |
| MultipartNames.OtherCharset | source/httplib.h:4991-5006 | A `filename*` of another form makes the line rejected |
| MultipartNames.NoName | source/httplib.h:4983-4989 | So does a missing name |
| MultipartNames.OtherLine | source/httplib.h:4963-5008 | A header line of any other kind changes nothing |
| MultipartParser.MultipartFormDataParser.BufFind | source/httplib.h:5110-5131 | The skip search finds the first occurrence in the window, or its length |
| MultipartParser.MultipartFormDataParser.BufAppend | source/httplib.h:5133-5149 | The window grows by the new bytes, whether the buffer is shifted in place or enlarged |
| MultipartParser.MultipartFormDataParser.Parse | source/httplib.h:4925-5060 | One call on the sliding buffer does what the machine `Run` does on retained plus new bytes, with every callback and refusal |
| MultipartStreaming.FindAfterDrop | source/httplib.h:5016-5038 | Dropping bytes before the retained tail does not change where the delimiter is found |
| MultipartStreaming.RunSplit | source/httplib.h:4925-5060 | For the machine that checks the length of every header line: running on two pieces one after the other is running on both at once, verdict and, unless rejected, state |
| MultipartStreaming.OpenChunksEqualWhole | source/httplib.h:4925-5060 | Every cut of any text that leaves the parser open, the first boundary line in the first chunk, leads to the state that one call on the whole leads to |
| MultipartStreaming.ChunksEqualWhole | source/httplib.h:4925-5060 | Every cut of a text that its last byte before the final CRLF closes gives the result of one call on the whole, for a receiver that never refuses |
| MultipartStreaming.ChunksRejected | source/httplib.h:4946-5014 | Every cut of a text with a header line that is not accepted is rejected, whatever follows the line |
| MultipartStreaming.FirstLineIsWhole | source/httplib.h:4932-4939 | Chunks before the first that holds a whole first boundary line make no difference |
| MultipartStreaming.BeginsIff | source/httplib.h:4932-4939 | The parser stays where it began exactly when no single chunk holds that line |
| MultipartStreaming.FirstLineCut | source/httplib.h:4932-4939 | A text with one such line, at its beginning, comes to nothing when its first chunk ends within the line |
| MultipartStreaming.LongLineRejected | source/httplib.h:4946-4947 | A first header line over the limit is rejected, even before its end has come |
| MultipartStreaming.StrayBytesStall | source/httplib.h:5042-5058 | Behind a delimiter, anything but a line end and "--" makes the parser wait for ever |
| MultipartStreaming.RefusedRun | source/httplib.h:4925-5060 | With a receiver that refuses, nothing more is delivered, and a run that is not rejected is the one with a willing receiver |
| MultipartStreaming.RefusedBody | source/httplib.h:5016-5038 | A body given to a receiver that refuses ends the parse |
| MultipartStreaming.BodyStreams | source/httplib.h:5016-5038 | In the body, on arbitrary bytes and cuts without a delimiter, bytes emitted and bytes retained are the bytes received |
| MultipartStreaming.BodyEnds | source/httplib.h:5016-5038 | The chunk that completes the first delimiter, however many it straddles and whatever the body has retained before, ends the body exactly there |
| MultipartRoundTrip.IsMultipartBoundaryCharsValid | source/httplib.h:5184-5194 | The loop accepts exactly alphanumerics, '-' and '_' |
| MultipartRoundTrip.DelimiterFoundAtEnd | source/httplib.h:5016-5038 | The delimiter has no proper border: after a content without it, it is found where the content ends |
| MultipartNames.NamesReadBackIff | source/httplib.h:4963-5007 | The printed disposition line is read as the item's name and file name exactly when both are made of field characters other than ';' and '=' |
| MultipartNames.TypeReadBackIff | source/httplib.h:4960-4973 | The printed content type is read back exactly when it is a field value |
| MultipartNames.RereadIff | source/httplib.h:4960-5008 | The two header lines bring back the whole description exactly when all its texts are of those characters |
| MultipartNames.LineKeepsClean | source/httplib.h:4960-5008 | No line that is accepted, whoever wrote it, sets a name or content type with other characters |
| MultipartRoundTrip.HeadersTaken | source/httplib.h:4946-5014 | Wherever they stand, the printed part headers are taken whole and open an item with what their lines say |
| MultipartRoundTrip.FormReread | source/httplib.h:4925-5239 | The serialised form, cut anywhere after the first boundary line: rejected exactly when one of its header lines is, and otherwise accepted with each item under what its lines say |
| MultipartRoundTrip.MultipartRoundTrip | source/httplib.h:4925-5239 | The serialised items come back one for one and in order, and the parser ends valid, exactly when every description is of the characters that survive |
| MultipartRoundTrip.NameWithLineEnd | source/httplib.h:4946-5014 | A form with the name "a", CRLF, "X: y" is accepted, in any cut after the first boundary line, and its item delivered under another name |
| MultipartRoundTrip.DeliveredAreClean | source/httplib.h:4925-5060 | For every input, cut and receiver: names delivered are of the surviving characters, and content types are field values |
| MultipartProvider.Providers.Provide | source/httplib.h:8219-8227 | A provider is only ever called with the number of bytes it has produced so far |
| MultipartProvider.MultipartClosure.Call | source/httplib.h:8203-8240 | One call of the closure sends the next writes of those still to come, and keeps the provider's count in step |
| MultipartProvider.SendForm | source/httplib.h:4647-4750 | Driven by the chunked writer with conforming providers, exactly the chunks of `AllWrites` and the terminator are sent |
| MultipartProvider.StreamedIsBatch | source/httplib.h:8199-8241 | The streamed body is the batch serialisation of all the items, provided ones included |
| MultipartProvider.ReceivedIsBatch | source/httplib.h:8199-8241 | The receiver of the chunked form gets that serialisation |
| Ranges.NormaliseIsWhatIsAsked | source/httplib.h:5258-5286 | A range is kept exactly when it asks for something and is no suffix longer than the content, and then holds just the positions asked for |
| Ranges.RangeError | source/httplib.h:5241-5305 | For a content as long as the content length says, or as the body when that is 0: true exactly when the normalised list is not acceptable (at most 1024, within the content, first positions increasing, at most two overlapping an earlier one); otherwise the list is normalised in place. Ranges within the content, ascending and apart, are accepted and left as they are |
| Ranges.AcceptedLengthBound | source/httplib.h:5241-5305 | The accepted ranges ask for at most three times the content |
| RangeFraming.TakeNumberPrinted | source/httplib.h:5316-5329 | A printed number in a `Content-Range` reads back |
| RangeResponse.ProcessMultipartRangesData | source/httplib.h:5331-5366 | Each of the three users is handed exactly the pieces of all parts and the closing boundary; on a connection the log holds one write for each token and writes that carry each slice; it fails only with the connection or the provider |
| RangeResponse.MakeMultipartRangesData | source/httplib.h:5368-5384 | The text of the ranges of the body |
| RangeResponse.GetMultipartRangesDataLength | source/httplib.h:5386-5404 | The announced length is that of the text, for every content of that length |
| RangeResponse.SentWholeIff | source/httplib.h:5406-5420 | Writes made for the pieces carry the text exactly when each token's write took all its bytes |
| RangeResponse.WriteMultipartRangesData | source/httplib.h:5406-5420 | Fails only if the connection broke or the provider refused; on success every piece has been written, and the text is on the connection exactly when no token write was short or failed, as on an unbroken connection that takes writes whole |
| RangeResponse.ShortTokenGoesUnnoticed | source/httplib.h:5406-5420 | A run on a connection that never fails: the first write is short, success is reported, and the text is not there |
| RangeFraming.ReadPrintedRanges | source/httplib.h:5331-5366 | A reader after section 14.6 of RFC 9110 gets each range's positions and exactly the requested slice, in order |
| RangeResponse.WriteContent | source/httplib.h:4566-4602 | However the provider cuts its data and the connection its writes, the requested stretch is sent, unless the connection broke or the provider refused |
| RangeResponse.ApplyRanges | source/httplib.h:7100-7155 | For a 206 response without compression: the new body is the content, the bytes at one range's positions, or a text in which a reader finds every range's positions and bytes; or the announced length is that of the payload |
| RangeResponse.WriteContentWithProvider | source/httplib.h:6655-6680 | What the provider path sends for no or one range is the content or the bytes at its positions, and for several, on the condition above, the text in which a reader finds them |
| RangeResponse.RespondWithRanges | source/httplib.h:6655-6680 | On a reliable connection that takes writes whole, with a willing provider, just as many bytes are sent as were announced, and they are that answer |
| RangeResponse.AssertsHoldIff | source/httplib.h:5307-5314 | The asserts hold after every acceptance exactly under the stated relation of the two lengths |
| PathParams.PathParamsMatcher.Construct | source/httplib.h:6151-6194 | The loop builds the pattern's fragments and names, and throws exactly on a repeated name |
| PathParams.PartsOfPattern | source/httplib.h:6151-6194 | A pattern put together from texts and names has just these names, and substituting puts the values in their places |
| PathParams.PathParamsMatcher.WalkPath | source/httplib.h:6196-6235 | The loop does the walk over the fragments and captures as it goes |
| PathParams.PathParamsMatcher.Match | source/httplib.h:6196-6235 | Accepts exactly the paths that are the pattern with separator-free values substituted, up to one trailing separator after a last parameter; captures just those values |
| PathParams.WalkSound | source/httplib.h:6196-6235 | What is captured, substituted, gives the path |
| PathParams.WalkComplete | source/httplib.h:6196-6235 | A substituted path is accepted and captures the values substituted |
| PathParams.MatchIff | source/httplib.h:6196-6235 | Both directions, for each list of values |
| PathParams.CapturedAt | source/httplib.h:6222-6225 | With distinct names each name maps to its own value |
| ThreadPool.StepKeeps | source/httplib.h:765-847 | Every step of every thread keeps the pool's invariant |
| ThreadPool.JobsAreConserved | source/httplib.h:765-847 | Accepted jobs are exactly queued, in a worker's hands, or finished, each in one place; the queue respects its bound |
| ThreadPool.EnqueueCall | source/httplib.h:778-788 | A whole call of `enqueue`, whatever the others do meanwhile, pushes its job once, or else, and only then, it met a full queue while it had the mutex |
| ThreadPool.StepTakesInOrder | source/httplib.h:812-828 | A job is popped once, always the oldest queued, and let go of only when it has run |
| ThreadPool.NoLostWakeUp | source/httplib.h:778-788 | If a job is queued and all workers left sleep, a notification is still to come |
| ThreadPool.StepsRunOut | source/httplib.h:791-804 | After the notice each step but a new call of `enqueue` decreases a measure |
| ThreadPool.ShutdownReturns | source/httplib.h:791-804 | From any state after the notice `shutdown` can return within the measure |
| ThreadPool.RunsAreBounded | source/httplib.h:791-804 | Every run after the notice without new calls is at most as long as the measure |
| ThreadPool.AllRunBeforeJoin | source/httplib.h:791-828 | When `shutdown` has returned and there was a worker, every job accepted before the flag has run; of the others exactly the popped ones |
| ThreadPool.NoWorkersNothingRuns | source/httplib.h:778-788 | With no worker left nothing runs any more |
| ThreadPool.QueuedJobRunsIff | source/httplib.h:778-828 | A queued job can still run exactly as long as a worker is left |
| ThreadPool.LateJobIsAccepted | source/httplib.h:778-804 | A reachable state after `shutdown` with a job accepted and the only worker gone |
| ThreadAccess.StepKeeps | source/lua.h:528-613 | Every step of every thread keeps counters, scopes and the underlying mutex in agreement |
| ThreadAccess.BetweenCalls | source/lua.h:528-613 | Between calls a thread holds the lock exclusively iff a scope is critical, shared iff it has scopes and none is; the counters count the scopes below the first critical one, and the critical ones; `isLocked` iff there is a scope |
| ThreadAccess.WholeCall | source/lua.h:531-604 | A call that has ended, in any interleaving, has opened its scope or closed the innermost; `try_lock_shared` fails only for a thread without scopes whose underlying attempt failed |
| ThreadAccess.WholeCallHolds | source/lua.h:531-604 | So after each call the thread holds the mutex in the mode that the call is for, or that its remaining scopes ask for |
| ThreadAccess.WaitIsOverIff | source/lua.h:531-604 | A waiting thread can go on exactly when no other holds what it waits for: readers share |
| ThreadAccess.Exclusion | source/lua.h:580-604 | An exclusive holder excludes all others |
| ThreadAccess.BlockedHoldsNothing | source/lua.h:531-604 | A thread blocked inside a call holds nothing |
| ThreadAccess.NeverMisused | source/lua.h:531-604 | The plain mutex is never locked by a holder nor released by a thread that does not hold it so; the counters never underflow |
| ThreadAccess.AllClosedIsFree | source/lua.h:677-689 | With all scopes closed the counters are zero and the mutex is free |
| ThreadAccess.NoDeadlock | source/lua.h:580-604 | From every reachable state, simultaneous upgrades included, all scopes can be closed |
| ThreadAccess.ClosingRunsEnd | source/lua.h:531-604 | Every run without new scopes is at most as long as a measure of the state, and one that cannot go on has closed all scopes, and only such a one |
| StateData.BodyKeeps | source/lua.cpp:893-940 | Each statement of the two functions, the nulling out included, takes slots, registry and live objects from the shape it expects to the next one's |
| StateData.HappenKeeps | source/lua.cpp:893-940 | Every step of every thread keeps the whole invariant |
| StateDataRuns.NeverFreedInScope | source/lua.cpp:929-940 | A pointer read inside a scope that opens no critical scope of its own stays live in every state until the scope ends, whatever the others do and although addresses are reused |
| StateDataRuns.WholeFunction | source/lua.cpp:892-940 | A function that has come to its end, in any interleaving, has done its work: created, stored and registered one new object, or unregistered, freed and cleared one, or changed nothing, as the slot asks for |
| StateDataRuns.RegistryIsLive | source/lua.cpp:892-940 | Whoever holds the lock outside the two functions finds that registry and live objects agree, and the slots with them, without duplicates, exactly if no creation has nulled out an occupied slot |
| StateDataRuns.LostForEver | source/lua.cpp:896-907 | An object whose slot was nulled out is never freed |
| StateDataRuns.SecondCreationLosesObject | source/lua.cpp:896-926 | A run in which two creations on one interface leave two objects registered and one slot |
| StateDataRuns.DanglingSlot | source/lua.cpp:936-938 | Without a scope the promise fails: there is a run in which a slot holds a freed address |
| LuaMutex.StepKeeps | source/lua.h:281-339 | Every step, one for each operation on an atomic, the mutex and the condition variable, keeps the invariant |
| LuaMutex.OwningIsHolding | source/lua.h:308-311 | For a thread between calls `isOwning` iff it has the mutex; then `recursion` is its depth |
| LuaMutex.WholeCall | source/lua.h:281-327 | A call that has ended, in any interleaving, has locked once more, undone one lock, or left the mutex as locked as it was; after `lock`, `lockWhenDone` and `ThinkMainInterface` the thread owns it |
| LuaMutex.ReturnsWhenDone | source/lua.h:318-327 | `lockWhenDone` and `ThinkMainInterface` return only after a moment without waiters, the first also only after one at which nobody owned the mutex |
| LuaMutex.RecursionIsGuarded | source/lua.h:284-301 | At most one thread is ever about to touch `recursion`, and it has the mutex |
| LuaMutex.WaitingIsExact | source/lua.h:284-306 | `waiting` is the number of threads between its increment and its decrement |
| LuaMutex.BalancedIsFresh | source/lua.h:284-301 | When everything locked is unlocked the object is as it was made |
| LuaMutex.ThinkNeverReturns | source/lua.cpp:1013-1030 | Called with the mutex locked more than once while someone waits, `ThinkMainInterface` never returns |
| LuaMutex.ThinkReturnsIff | source/lua.cpp:1013-1030 | At the call: it can return exactly if the mutex is locked once or nobody waits |
| LuaMutex.LockWhenDoneReturnsIff | source/lua.h:318-327 | At the call: it can return exactly if the caller does not have the mutex and no thread that never returns has it |
| LuaMutex.LockedTwiceWithWaiter | source/lua.h:284-292 | That position is reachable: one thread locks twice, another then waits |
| LuaMutex.AllCanReturnIff | source/lua.h:281-339 | All calls can still return, and all locks be undone, exactly when no thread is in that position |
| TeleportGuard.Scope.constructor | source/teleport_guard.h:15-28 | Entered exactly when there is room and the handle is not on the list; the list grows by the scope or is unchanged |
| TeleportGuard.ThreadLocals.Find | source/teleport_guard.h:19-21 | The walk from the top finds a handle exactly when it is on the list |
| TeleportGuard.Scope.Destroy | source/teleport_guard.h:30-37 | The previous list is restored |
| TeleportGuard.GuardedTouch | source/modules/teleportguard.cpp:38-51 | However touches nest, the recursion ends, each is let through exactly when the guard allows it, the blocked ones are counted, and the stack is left as found |
| TeleportGuard.DepthBound | source/teleport_guard.h:12-50 | The nesting never exceeds 64 nor the number of entities |

## Left out

- RangeResponse.WriteContent: does not model a server shutting down in the middle of the content.
- RangeResponse.WriteMultipartRangesData: does not model a server shutting down in the middle of the body.
- RangeResponse.ApplyRanges: does not model the header fields set, nor compression of the body.
- RangeResponse.WriteContentWithProvider: does not model content of unknown length, nor handlers that set a status other than 206 on a ranged request.
- Ranges.RangeError: takes content lengths below 2^63, where the casts to `ssize_t` change nothing; beyond, the signed subtraction of a suffix can overflow, which means nothing in C++. The parser of the `Range` header is not modelled, and the result holds for any list of integer pairs.
- PathParams.PathParamsMatcher.Match: for patterns without NUL, since `strncmp` stops at one.
- MultipartRoundTrip.MultipartRoundTrip: for items whose two header lines hold no CRLF and are shorter than 8191 bytes, and whose content does not hold the delimiter; the first chunk holds the first boundary line; text after the final CRLF is outside it. Of names with a CRLF it is shown that they do not come back (`DeliveredAreClean`) and, for one, how the form is read.
- MultipartStreaming.ChunksEqualWhole: for a receiver that never refuses and a text that its last byte completes; `OpenChunksEqualWhole` is for all texts that do not.
- MultipartStreaming.RunSplit: is about the machine that checks every line's length; the source checks the first line when it enters the header state, so which over-long lines it rejects depends on the cut. After a rejection only the verdict is compared.
- Of several disposition parameters with one key the first counts; the multimap of the source leaves that open.
- The two regular expressions of the part-header reader are rendered as text functions with the same captures.
- ThreadAccess, LuaMutex, ThreadPool and StateData are transition systems on values instead of classes, so that all interleavings can be stated; object identity is not part of them.
- Chunked.ChunkedRoundTrip: for writes shorter than 2^64 - 1 bytes, the largest size the reader accepts, and trailers that are valid header fields on lines within the limit.
- MultipartProvider.ReceivedIsBatch: for writes shorter than that.
- QueryText.QueryRoundTrip: for lists in which every key survives (`PairReturnsIff` is the condition for one pair), and values made of bytes.
- Chunked.ChunkedWriter.Write: without compression, and without the server shutting down between calls.
- Chunked.ChunkedWriter.Done: likewise.
- Streams.SocketStream.Read: the time limit of `select` is the end `TimedOut`; sockets, polling and timers themselves are not modelled.
- HeaderBlock.WriteHeaders: writes to the in-memory stream the server and the client use; the hash order of the multimap is any order.
- StateDataRuns.NeverFreedInScope: the work done inside `~StateData` and the interface's own fields other than the slot are not modelled; path IDs are shorter than 24 characters, so that nulling out clears the whole slot; a scope that opens a critical scope of its own is excluded, since the lock is released while it is upgraded.
- StateData.Begins: an interface's slot starts as null; what its memory may hold before `CreateLuaData` first clears it is not modelled.
- StateAccess: not modelled; its constructor and destructor compare different things on the main state.
- LuaMutex.AllCanReturnIff: says that calls can return, not that they must; wake-ups of `lockWhenDone` may come at any time, notified or not.
- ThreadAccess.WholeCall: says what a call has done when it has ended; `NoDeadlock` says that it can end.
- ThreadAccess.NoDeadlock: lets the plain mutex be granted whenever it is free; preferences between readers and writers are not modelled, and non-nested use is not covered.
- ThreadPool.StepTakesInOrder: orders the popping; two workers may call their functions in the other order after unlocking.
- Memory ordering weaker than sequential consistency is not modelled.
- TLS, compression, DNS, regular-expression routes, redirects, authentication, memory-mapped files and the engine's hooks are not part of this model.
