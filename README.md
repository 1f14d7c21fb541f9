# RedCorners.Video upload core in Dafny

This project models the core of RedCorners.Video, a C# library that uploads
videos to YouTube with Google's resumable upload protocol. It covers:

- **`Core` helpers.** Chunk arithmetic and payload slicing. Percent-encoding
  and the white-space test. Form encoding of nested parameter dictionaries,
  expansion of dotted keys, and reading a URL's query. The request head
  `HTTPFetchAsync` writes, its sliced write with the halt flag and the
  progress callback, and how it splits the raw response. Header lookup and
  the content-type choice of `RequestRawAsync`.
- **`YouTubeHook`.** The upload loop, the probe (`Verify`) and how its
  answer is read, one chunk upload, the upload session, `RequestRaw` with
  its single credential refresh on a 40x answer, parameter routing in
  `RequestAsync`, and the login URL. The asynchronous copy
  (`RedCorners.Video/YouTube/YouTubeHook.cs`) and the synchronous one
  (`RedCorners/YouTube/YouTubeHook.cs`) do the same steps, so they are
  modelled once. The rows below cite the asynchronous copy; the synchronous
  copy's lines are 50-67, 164-169, 171-201, 223-261, 304-335, 337-357,
  359-406 and 409-476.
- **`UploadTask`.** Progress and completion.
- **`YouTubeMetadata`.** The JSON text it builds.

| file | module | what it holds |
|---|---|---|
| `wrappers.dfy` | `Wrappers` | `Option` and `Result` |
| `text.dfy` | `Text` | the .NET string operations the core relies on (Trim, Split, Join, Replace, IndexOf, integer printing and `long.Parse`), plus `PercentEncode` and `IsNullOrWhiteSpace` |
| `chunks.dfy` | `Chunks` | `GetChunksCount`, `GetChunkSize`, `GetPayload` |
| `forms.dfy` | `Forms` | `FlattenDictionary`, `KeyValueToString`, `ExpandDictionary`, `QueryParametersFromUrl` |
| `http.dfy` | `Http` | the request head, the response split, `GetHeaderValue`, content types, and class `Connection` (the `_active` flag, the callback rate, the sliced write, the fetch) |
| `resumable.dfy` | `Resumable` | the session, probe and chunk requests, and how `Verify` reads the probe's answer |
| `hook.dfy` | `YouTube` | the upload loop as a function of the server's answers, and class `Hook` with its methods |
| `task.dfy` | `Tasks` | `UploadTask` |
| `metadata.dfy` | `Metadata` | `YouTubeMetadata`, `ToJson`, `ToJsonWithId` |

### How the outside world is represented

- **The network is a script.** A `Hook` holds the server's answers as a
  sequence. Each fetch consumes the next answer; `None` stands for a fetch
  that throws. The sent requests are logged in `sent`.
- **Refreshes are a script too.** `grants` holds the tokens that successive
  refreshes return; `None` is a refresh that throws.
- **JSON parsing is a parameter.** Reading the `"id"` of an answer is
  `extractId`, a function the caller supplies. The JSON text of a
  dictionary body is the parameter `jsonText`.
- **The file is its bytes.** A missing file is `None`.
- **Another thread's `Halt()`** is the parameter `haltAfter`: the check at
  which the cleared flag is first seen.
- **The URL's host and the raw reply** are parameters of `Fetch`.
- **Exceptions are values.** Each one that escapes becomes an error value
  of a `Result`.

## Model

| member | source | states |
|---|---|---|
| Chunks.CeilDiv | RedCorners/Core.cs:155 | the result is the ceiling of a / b: (q-1)·b < a ≤ q·b |
| Chunks.ChunksCount | RedCorners/Core.cs:151-156 | a negative chunk size gives 1 and zero gives 0; otherwise the count n is the smallest with n·size ≥ fileSize, and it is non-negative for a non-negative file |
| Chunks.ChunksTileFile | RedCorners/Core.cs:151-192 | for a positive size, every chunk below ChunksCount is non-empty and at most `size` long, and the chunk sizes add up to the file length |
| Chunks.FullChunks | RedCorners/Core.cs:177-192 | the chunks before the last are exactly `size` long |
| Chunks.Payload | RedCorners/Core.cs:194-217 | success exactly when 0 ≤ startbyte ≤ file length; the bytes are the file's from startbyte, min(size, rest) of them for a positive size, else all the rest |
| Chunks.GetPayload | RedCorners/Core.cs:194-217 | the clamp, allocation and copy loop return exactly Payload |
| Chunks.ChunkSize | RedCorners/Core.cs:177-192 | a size of 0 or less gives the whole file; for a positive size and a chunk starting within the file, the chunk holds 0 to size bytes and ends at min(fileSize, (index+1)·size); a chunk starting past the end comes out negative |
| Chunks.ChunkPayloadsRebuildFile | RedCorners/Core.cs:177-217 | reading chunk after chunk with GetPayload rebuilds the file; chunk i is GetChunkSize(length, i, size) bytes long |
| Chunks.ChunkBytesPrefix | RedCorners/Core.cs:194-217 | the first k full chunks are the file's first k·size bytes |
| Text.IsNullOrWhiteSpace | RedCorners/Core.cs:258-271 | true exactly for null or for text that is all white space |
| Text.PercentEncode | RedCorners/Core.cs:242-256 | the builder loop returns the concatenated encodings of the characters |
| Text.EncodeCharShape | RedCorners/Core.cs:249-252 | an unreserved character passes through; any other becomes '%' and upper-case hex digits whose value is the character code |
| Text.EncodedShape | RedCorners/Core.cs:242-256 | the output is at least as long as the input and holds only unreserved characters and '%' |
| Text.EncodedUnreserved | RedCorners/Core.cs:242-256 | text made only of unreserved characters comes back unchanged |
| Text.PercentRoundTrip | RedCorners/Core.cs:242-256 | for characters below U+0100, percent-decoding the output gives the input back |
| Text.EncodingNotInjective | RedCorners/Core.cs:252 | with "{0:X2}", codes of three hex digits collide: U+0100 and "U+0010 then 0" both encode to "%100" |
| Text.HexX2 | RedCorners/Core.cs:252 | at least two upper-case hex digits, exactly two below 256 |
| Text.HexX2RoundTrip | RedCorners/Core.cs:252 | the hex digits read back as the number |
| Text.Trim | RedCorners/Core.cs:540 | the result has no white space at either end, is empty exactly for blank input, and leaves already-trimmed text alone |
| Text.TrimPadded | RedCorners/Core.cs:540 | trimming white space followed by trimmed text gives that text |
| Text.IndexOf | RedCorners/Core.cs:539 | the first position of the character, or -1 exactly when it is absent |
| Text.LastIndexOf | RedCorners/Core.cs:80 | the last position of the character, or -1 exactly when it is absent |
| Text.SplitJoin | RedCorners/Core.cs:307-308 | Split undoes Join when no piece holds the separator |
| Text.JoinSplit | RedCorners/Core.cs:307-308 | Join undoes Split |
| Text.SplitCount | RedCorners/Core.cs:307-308 | Split gives one piece more than there are separators |
| Text.SplitPieces | RedCorners/Core.cs:307-308 | no piece holds the separator |
| Text.ReplaceSingle | RedCorners.Video/YouTube/YouTubeMetadata.cs:61 | string.Replace with a one-character pattern and a one-character replacement is string.Replace(char, char), which the model uses for `Replace("'", "\"")` |
| Text.ReplaceCharClears | RedCorners.Video/YouTube/YouTubeMetadata.cs:73 | after replacing a by a different b no a is left; text without a comes back unchanged; a second replacement changes nothing |
| Text.ReplaceClears | RedCorners.Video/YouTube/YouTubeMetadata.cs:61 | replacing a pattern with a character the pattern does not hold leaves no occurrence of it |
| Text.ReplaceSplit | RedCorners.Video/YouTube/YouTubeMetadata.cs:61 | Replace works on each side of a join that no occurrence can straddle |
| Text.ReplaceAbsent | RedCorners.Video/YouTube/YouTubeMetadata.cs:61 | text without the pattern's first character is unchanged |
| Text.ParseLongOfNat | RedCorners.Video/YouTube/YouTubeHook.cs:386-387 | long.Parse reads back a printed number within the 64-bit range |
| Text.DigitsValueOfNat | RedCorners.Video/YouTube/YouTubeMetadata.cs:32 | the printed digits of n have value n |
| Forms.FlattenDictionary | RedCorners/Core.cs:282-303 | the method returns Flatten: a string gives "key=value" percent-encoded; a dictionary gives its entries under "key." joined by '&'; an empty dictionary's body is indexed at -1 and throws |
| Forms.KeyValueToString | RedCorners/Core.cs:273-280 | the loop returns FormBody of the payload, failing on the first entry that fails and on an empty payload |
| Forms.FlattenLeaves | RedCorners/Core.cs:282-303 | flattening succeeds exactly on well-formed values, and then gives the fields of the value's leaves (dotted key path, string) joined by '&' |
| Forms.FormBodyLeaves | RedCorners/Core.cs:273-303 | KeyValueToString succeeds exactly on a non-empty payload of well-formed values, and then gives the fields of all leaves joined by '&' |
| Forms.FormFields | RedCorners/Core.cs:273-303 | splitting the body at '&' gives back one field per leaf |
| Forms.FormRoundTrip | RedCorners/Core.cs:242-303 | decoding the body of a payload whose text is below U+0100 gives back every leaf with its dotted key path, in order |
| Forms.PlaceEntry | RedCorners/Core.cs:77-86 | one entry of the loop is placed as Place says: an undotted key assigned; a dotted key cut at its last dot and stored in the Dictionary<string, object> under the part before it, created when missing; a string, a Dictionary<string, string>, null or any other object there throws NullReference |
| Forms.ExpandOnce | RedCorners/Core.cs:73-87 | the loop builds the pass over all entries, throwing where a store goes through anything but a Dictionary<string, object>; `expanded` is true exactly when no key has a dot |
| Forms.ExpandDictionary | RedCorners/Core.cs:71-91 | the recursion returns Expand, whose result never holds a dotted key, and which throws where a pass does |
| Forms.PassLowersDots | RedCorners/Core.cs:71-91 | a pass that met a dot lowers the largest number of dots in a key, so the recursion ends |
| Forms.ExpandIdentity | RedCorners/Core.cs:71-91 | a dictionary with distinct undotted keys comes back unchanged |
| Forms.ExpandNests | RedCorners/Core.cs:71-91 | a key "a.b.c" becomes nested dictionaries a, b, c holding the value |
| Forms.ExpandThenFlatten | RedCorners/Core.cs:71-91 | flattening the expansion of a dotted key gives the dotted key back |
| Forms.ExpandConflict | RedCorners/Core.cs:77-84 | for a dictionary with distinct keys, a dotted key whose part before its last dot names an earlier undotted entry holding a string, a Dictionary<string, string>, null or any other object makes the pass and the whole expansion throw NullReference |
| Forms.ConflictPersists | RedCorners/Core.cs:77-85 | once such an entry is placed, no later entry replaces it: the pass fails or still holds it under its key |
| Forms.PassErrors | RedCorners/Core.cs:84 | the only exception the loop lets escape is the NullReferenceException of the store |
| Forms.ExpandIntoStringDictionary | RedCorners/Core.cs:84 | a Dictionary<string, string> under "a" followed by the key "a.b" throws |
| Forms.AssignSpec | RedCorners/Core.cs:84 | dictionary assignment keeps keys distinct, stores the value and leaves other keys alone |
| Forms.QueryParametersFromUrl | RedCorners/Core.cs:305-316 | the loop returns QueryParameters: the text after the first '?' up to the next '?', cut at '#', read as '&'-separated pairs; a URL without '?' or a piece without '=' throws |
| Forms.QueryRoundTrip | RedCorners/Core.cs:305-316 | reading base?k1=v1&…&kn=vn gives back the pairs in order, when keys are distinct and no key or value holds '?', '#', '&' or '=' |
| Forms.ReadPairsRoundTrip | RedCorners/Core.cs:309-314 | the loop over "k=v" pieces gives back the pairs |
| Http.SplitResponse | RedCorners/Core.cs:501-507 | the fields are non-empty lines |
| Http.ResponseRoundTrip | RedCorners/Core.cs:501-507 | a head of CR-free lines, its blank line and any body split back into those lines and that body |
| Http.ResponseWithoutBlankLine | RedCorners/Core.cs:501-507 | without a blank line, there are no fields and the text is empty |
| Http.FrameEnd | RedCorners/Core.cs:501 | the first blank line of a framed head followed by any body is the one ending the head |
| Http.SplitOnJoin | RedCorners/Core.cs:504 | lines without CR, joined by CRLF, split back into those lines |
| Http.HeaderValue | RedCorners/Core.cs:532-544 | None exactly when no line contains the name |
| Http.HeaderValueRoundTrip | RedCorners/Core.cs:532-544 | a "name: value" line is read back by name when no earlier line mentions the name |
| Http.WriteHeaders | RedCorners/Core.cs:387-397 | the loop writes one "name: value" line per value of each caller header, in order |
| Http.BuildHead | RedCorners/Core.cs:375-400 | the head is the request line, Host (the URL's host when none is given), Connection: Close, Accept when not blank, Content-Type when given, the caller headers, Content-Length, then a blank line |
| Http.RequestHeadReadsBack | RedCorners/Core.cs:375-507 | a head built from CR-free texts splits back into exactly its lines |
| Http.ContentTypeForText | RedCorners/Core.cs:553-555 | no type exactly when the body is null or empty; otherwise JSON exactly when jsonBody, form exactly when not |
| Http.ContentTypeForDictionary | RedCorners/Core.cs:567-569 | no type exactly when the body is null; otherwise the same choice |
| Http.UpperIdempotent | RedCorners/Core.cs:556 | the upper-cased method holds no ASCII lower-case letter, and upper-casing it again changes nothing |
| Http.UpperIsCaseVariant | RedCorners/Core.cs:556 | upper-casing gives a text w without lower-case letters exactly when the input is w with some ASCII capitals written in lower case |
| Http.UpperIsGet | RedCorners.Video/YouTube/YouTubeHook.cs:240 | a verb is sent as "GET" exactly when it is "get" in some mix of ASCII cases |
| Http.Slice | RedCorners/Core.cs:441-448 | slice j is the GetPayload of `rate` bytes from j·rate |
| Http.SlicesRebuildBuffer | RedCorners/Core.cs:438-450 | writing all slices in order puts the whole buffer on the wire |
| Http.HaltedWritesPrefix | RedCorners/Core.cs:438-440 | a halt at check h leaves exactly the first h full slices written, a strict prefix of the buffer |
| Http.ReportsMonotone | RedCorners/Core.cs:444-449 | progress reports never decrease, stay within [0, contentLength] with total contentLength, and the last is (contentLength, contentLength) when contentLength is at most the buffer length |
| Http.SlicesWritten | RedCorners/Core.cs:438-440 | no more slices than the buffer has |
| Http.Connection.constructor | RedCorners/Core.cs:46-48 | flag down, rate 10240, no callback, nothing written |
| Http.Connection.Halt | RedCorners/Core.cs:49-52 | clears the flag; nothing else changes |
| Http.Connection.SetRate | RedCorners/Core.cs:62-69 | sets the rate; nothing else changes |
| Http.Connection.WriteSliced | RedCorners/Core.cs:435-451 | writes the slices up to the halt and one report per slice; succeeds exactly when every slice went out, and otherwise fails with Halt and leaves the flag down |
| Http.Connection.Fetch | RedCorners/Core.cs:358-530 | raises the flag, writes head and body (sliced with a callback and a positive rate, else in one write) and returns the split reply; a halt fails; the flag is down afterwards in every case |
| Resumable.ReadFeedback | RedCorners.Video/YouTube/YouTubeHook.cs:367-397 | the loop returns ProbeFeedback: a 2xx status gives LastByte = ContentSize = 0; otherwise the last Range line sets both ends, and a Range line that throws resets both to 0 |
| Resumable.RangeLineParses | RedCorners.Video/YouTube/YouTubeHook.cs:382-387 | "Range: bytes=F-L" reads back as (F, L) |
| Resumable.LastRangeWins | RedCorners.Video/YouTube/YouTubeHook.cs:380-389 | the last Range line decides both ends |
| Resumable.BadRangeResets | RedCorners.Video/YouTube/YouTubeHook.cs:391-396 | a Range line that fails to parse resets both ends to 0 |
| Resumable.NoRangeIsZero | RedCorners.Video/YouTube/YouTubeHook.cs:369-397 | without a Range line the feedback is all zero |
| Resumable.ResumeIncompleteReadsRange | RedCorners.Video/YouTube/YouTubeHook.cs:367-397 | a non-2xx answer ending in "Range: bytes=F-L" gives FirstByte F, LastByte L |
| Resumable.FeedbackNonNegative | RedCorners.Video/YouTube/YouTubeHook.cs:384-387 | both ends are never negative, since the range is cut at '-' before parsing |
| Resumable.RangesStaysNone | RedCorners.Video/YouTube/YouTubeHook.cs:377-396 | once a Range line has thrown, later lines change nothing |
| Resumable.ProbeHead | RedCorners.Video/YouTube/YouTubeHook.cs:360-366 | the probe's head, line by line: PUT, Authorization, "Content-Range: bytes */N", Content-Length 0, and no Content-Type |
| Resumable.ChunkHead | RedCorners.Video/YouTube/YouTubeHook.cs:342-350 | the chunk's head, line by line: PUT, Content-Type video/*, Authorization, "Content-Range: bytes S-E/T" with E = S + length - 1, Content-Length of the payload |
| YouTube.Hook.constructor | RedCorners.Video/YouTube/YouTubeHook.cs:137-143 | an authorized hook: API root, token, counter 0, nothing sent |
| YouTube.Hook.Send | RedCorners/Core.cs:358-530 | one fetch: the request is logged and the next scripted answer consumed |
| YouTube.Hook.RefreshAuthorization | RedCorners.Video/YouTube/YouTubeHook.cs:166-171 | the next grant becomes the access token; a failed refresh leaves the token |
| YouTube.Hook.RequestRaw | RedCorners.Video/YouTube/YouTubeHook.cs:225-261 | does what RawExchange describes on the request RawRequest builds |
| YouTube.RawSendsAtMostTwice | RedCorners.Video/YouTube/YouTubeHook.cs:247-258 | one or two sends of the same request; two exactly after a 40x with the counter at 0 and a good refresh; "Got 40x multiple times." exactly on a 40x with the counter not 0 |
| YouTube.RawResendsStaleToken | RedCorners.Video/YouTube/YouTubeHook.cs:236-253 | the resend carries the old token while the hook keeps the new one; the counter is back to 0 only when the resend is answered |
| YouTube.Hook.Request | RedCorners.Video/YouTube/YouTubeHook.cs:173-203 | routes the parameters with Route, then does RequestRaw |
| YouTube.GetRoutesToQuery | RedCorners.Video/YouTube/YouTubeHook.cs:185-188 | a GET appends "?" and the form body of the parameters to the URL, and its query reads back every leaf |
| YouTube.FormRoutesToBody | RedCorners.Video/YouTube/YouTubeHook.cs:189-198 | a body verb without JSON keeps the URL and carries every leaf in the body |
| YouTube.LowerCaseGetDropsParameters | RedCorners.Video/YouTube/YouTubeHook.cs:185-240 | "get" is routed nowhere, so its parameters are dropped, yet it is sent as GET |
| YouTube.Hook.GetUploadSessionUrl | RedCorners.Video/YouTube/YouTubeHook.cs:304-334 | does what SessionExchange describes |
| YouTube.SessionAtMostTwice | RedCorners.Video/YouTube/YouTubeHook.cs:316-327 | at most two session requests, the second with the refreshed token and only after a 40x with the counter at 0 |
| YouTube.SessionAnswered | RedCorners.Video/YouTube/YouTubeHook.cs:329-333 | an answer without a 40x gives its Location header |
| YouTube.SessionAfterRefresh | RedCorners.Video/YouTube/YouTubeHook.cs:316-333 | 40x, refresh, then "Location: u": two requests and u as the upload URL, counter 0 |
| YouTube.Hook.Verify | RedCorners.Video/YouTube/YouTubeHook.cs:357-403 | sends the probe and returns ReadFeedback of the answer; a failed fetch throws |
| YouTube.Hook.UploadChunk | RedCorners.Video/YouTube/YouTubeHook.cs:336-355 | sends the chunk request and returns the answer's text |
| YouTube.Hook.UploadLoop | RedCorners.Video/YouTube/YouTubeHook.cs:421-472 | the while loop does exactly what Loop describes: requests, UploadCallback feedback, outcome, and the counter reset |
| YouTube.Hook.Upload | RedCorners.Video/YouTube/YouTubeHook.cs:406-473 | a missing file throws; without a URL the session is opened first; then the loop runs |
| YouTube.LoopShape | RedCorners.Video/YouTube/YouTubeHook.cs:423-469 | requests alternate probe and chunk; the k-th chunk starts at the k-th probe's LastByte and carries the GetPayload bytes from there; every feedback carries the file length; only the last probe may report the file complete |
| YouTube.NullOnlyWithoutAttempts | RedCorners.Video/YouTube/YouTubeHook.cs:454-466 | the attempt count is 0 whenever the catch runs, so null comes back only when maxAttempts < 1 |
| YouTube.StepSendsOneChunk | RedCorners.Video/YouTube/YouTubeHook.cs:468 | in step mode at most one probe and one chunk go out |
| YouTube.CompleteProbeStops | RedCorners.Video/YouTube/YouTubeHook.cs:434-438 | a probe showing the whole file held ends the loop with no chunk sent |
| YouTube.OkProbeRestarts | RedCorners.Video/YouTube/YouTubeHook.cs:371-441 | a 2xx probe sets LastByte to the still-zero ContentSize, so a non-empty file is sent again from byte 0 |
| YouTube.ResumeResendsLastByte | RedCorners.Video/YouTube/YouTubeHook.cs:428-441 | after "Range: bytes=0-L" the next chunk starts at L, which the server already holds |
| YouTube.ChunkHalfSends | RedCorners.Video/YouTube/YouTubeHook.cs:440-441 | a cursor inside the file sends the chunk from there |
| YouTube.ChunkAnswerEnds | RedCorners.Video/YouTube/YouTubeHook.cs:441-459 | a non-blank chunk answer ends the loop after that one chunk, with the id read from it, or without an id with the caught exception (null once the attempts are used up) |
| YouTube.LoopStops | RedCorners.Video/YouTube/YouTubeHook.cs:423-469 | a run that does not go round again sends at most one probe and one chunk and reports at most one feedback |
| YouTube.GetLoginURL | RedCorners.Video/YouTube/YouTubeHook.cs:51-68 | the scopes joined with '+', then the login query after the endpoint |
| YouTube.LoginUrlReadsBack | RedCorners.Video/YouTube/YouTubeHook.cs:51-68 | reading the login URL's query gives back scope, state, redirect_uri, response_type, client_id, access_type and approval_prompt |
| YouTube.ScopesPlain | RedCorners.Video/YouTube/YouTubeHook.cs:33-41 | no scope holds '?', '#', '&' or '=' |
| Tasks.GetProgress | RedCorners.Video/UploadTask.cs:11-16 | -1 without feedback; negative infinity exactly for a zero ContentSize with a negative LastByte |
| Tasks.IsFinished | RedCorners.Video/UploadTask.cs:17-22 | a done task is finished; without feedback, finished exactly when done |
| Tasks.FinishedIffComplete | RedCorners.Video/UploadTask.cs:11-22 | a task that is not done is finished exactly when GetProgress takes its branch returning 1 (exact arithmetic) |
| Tasks.ProgressIsFraction | RedCorners.Video/UploadTask.cs:11-16 | for a non-empty file and LastByte ≥ 0, progress is in [0, 1], and 1 exactly when LastByte ≥ ContentSize |
| Tasks.ProgressMonotone | RedCorners.Video/UploadTask.cs:11-16 | more bytes confirmed never means less progress |
| Tasks.NewTaskUnstarted | RedCorners.Video/UploadTask.cs:23-28 | a new task has 10 MiB chunks and 10 attempts, progress -1, and is not finished |
| Metadata.TitleCleaned | RedCorners.Video/YouTube/YouTubeMetadata.cs:22-23 | the title has no quote, no line feed and is never blank; a title without these is kept |
| Metadata.DescriptionCleaned | RedCorners.Video/YouTube/YouTubeMetadata.cs:24 | same length; quotes and line feeds become spaces, other characters kept |
| Metadata.TagEntryShape | RedCorners.Video/YouTube/YouTubeMetadata.cs:29-30 | an entry is quoted once at each end and holds no quote, no comma and no surrounding white space |
| Metadata.TagsRoundTrip | RedCorners.Video/YouTube/YouTubeMetadata.cs:25-31 | the tags text splits back at its commas into one entry per piece of Tags |
| Metadata.ToJson | RedCorners.Video/YouTube/YouTubeMetadata.cs:20-62 | the method returns Json: the template filled with the cleaned fields, markers replaced by braces, quotes by double quotes |
| Metadata.JsonShape | RedCorners.Video/YouTube/YouTubeMetadata.cs:37-61 | the JSON text is the double-quoted template around each value, each text value with markers turned into braces and quotes into double quotes, number and flag as written |
| Metadata.JsonPlainFields | RedCorners.Video/YouTube/YouTubeMetadata.cs:20-62 | text fields without '~', and a status and licence without quotes, appear as cleaned |
| Metadata.JsonEnds | RedCorners.Video/YouTube/YouTubeMetadata.cs:37-61 | the text starts with '{' and ends with '}' |
| Metadata.JsonClean | RedCorners.Video/YouTube/YouTubeMetadata.cs:61 | no single quote and no marker is left |
| Metadata.JsonBody | RedCorners.Video/YouTube/YouTubeMetadata.cs:68 | the JSON text is '{', this body, '}' |
| Metadata.ToJsonWithId | RedCorners.Video/YouTube/YouTubeMetadata.cs:65-74 | the same object with an "id" member first; quotes in the id become double quotes |
| Metadata.BracedFormatted | RedCorners.Video/YouTube/YouTubeMetadata.cs:61 | the marker passes act piece by piece on the filled template |

## Left out

- Sockets, TLS, certificate handling and the reading loop of `HTTPFetchAsync`: the raw reply is a parameter.
- Concurrency: `Halt()` from another thread is the `haltAfter` parameter; `Task.Run` and `await` are sequential steps.
- SimpleJSON: `JsonEncode`, `JsonMake`, `JsonDecode` and `JSON.Parse` are not modelled. The JSON body text and the `"id"` extraction are parameters.
- OAuth token exchange (`GetAccessTokenAsync`, `RefreshAccessTokenAsync`, `LoadAccessData`, `LoadDisplayNameAsync`, `AuthorizeAsync`, `ReAuthorizeAsync`): refreshes are the scripted `grants`, and authorization is the `Hook` constructor.
- `ApplyVideoMetadataAsync`, `FillCategoriesAsync`, `RequestAsync(string body)`'s JSON parse: they only wrap `RequestAsync` and JSON parsing.
- `ToByteArray`, `ToBase64`, `ComputeHash`, `Trace`, the verbose and endpoint callbacks, and `Debug.WriteLine`: logging and encodings with no bearing on the protocol.
- `Http.Bytes`: UTF-8 encoding is modelled for ASCII text only (one byte per character).
- Floating point: `GetChunksCount` is exact ceiling division, while the source divides doubles; above 2^53 bytes the two could differ. `GetProgress` is an exact real; the float rounding is not modelled.
- Chunks.ChunkSize: `index * size` and `size + startbyte` are `long` products and sums in the source and would wrap above 2^63 - 1; the model's integers are unbounded.
- Chunks.ChunksCount: the `(int)` cast of the ceiling is not modelled; counts beyond 2^31 - 1 would wrap in the source.
- Http.Connection.WriteSliced: the `(int)` casts of the `uint` rate are not modelled; rates of 2^31 or more would turn negative in the source.
- `WebHeaderCollection` is an ordered list of names with their values; merging of repeated names is not modelled.
- `uri.Host` is a parameter of `Fetch`; URL parsing is left out.
- The synchronous `Core.HTTPFetch` overload, which the synchronous hook calls, is not part of this model; it is taken to behave as `HTTPFetchAsync` does.
- Null strings are `Option` where the source tests for null (the Range parse, `GetHeaderValue`, the upload URL, the payload). Elsewhere null strings are not modelled.
- Characters: a Dafny character is a Unicode scalar value, while a .NET `char` is a UTF-16 code unit; the two agree on the characters below U+10000 other than surrogates, and the model's text is read as such characters. `char.IsWhiteSpace` is modelled for characters below U+0100 and the Unicode space separators.
- The `tagsList.Length > 0` test in `ToJson` is always true, because `Split` returns at least one piece; the model drops the test.
- The `"VERIFY FEEDBACK"` messages and `UploadCallback` itself: the feedback handed to the callback is logged in `callbacks`.
- Text.PercentEncode: a character above U+FFFF is one Dafny character, encoded as '%' and its whole hexadecimal code, where the source encodes each of its two UTF-16 code units ("%D83D%DE00" for U+1F600); lone surrogates cannot be represented.
- Http.Upper: `ToUpper()` follows the current culture; the model upper-cases ASCII letters only, so non-ASCII letters (é to É) and culture rules such as the Turkish dotted capital I are not modelled.
- Http.SplitResponse: `IndexOf("\r\n\r\n")` compares with the current culture, which may skip ignorable characters; the model searches ordinally.
- Resumable.ReadFeedback: `StartsWith("Range:")` compares with the current culture; the model compares ordinally.
- Chunks.GetPayload: in the branch that reads the whole rest, the `(int)` cast of the remaining length and the array allocation are not modelled; with 2 GiB or more left, the source fails or wraps.
- Forms.ExpandDictionary: the nested `Dictionary<string, object>` values belong to the caller, and the source stores into them in place, so the caller's dictionaries change and any dictionary shared by two entries shows every store; the model builds new values and leaves its input unchanged.
- Tasks.FinishedIffComplete: `GetProgress` returns a `float`, and above 2^24 bytes a LastByte just short of ContentSize (33554431 of 33554432) rounds to 1.0 while `IsFinished` is false; the lemma holds for the exact ratio only.
