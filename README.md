# Upload progress tracking in NuGetGallery, modelled in Dafny

This project models the part of the NuGetGallery web site that reports how
far a package upload has got. An HTTP module looks at each request. The
request is tracked (`Tracked`) when it is a POST with a multipart/form-data
content type that names a "boundary=", declares at least 4096 bytes, and
comes from an authenticated user whose name is neither null nor empty. A
tracked request first gets an initial record. Then, unless the host has
already started reading the body, the module reads the body in chunks of at
most 4096 bytes. After every chunk it publishes
an immutable progress record (total bytes, bytes read, current file name)
under the user's name. A progress endpoint can then poll that record from
the upload service's cache.

The model has one module per source file, plus four support modules:

- `ProgressDetails` is the progress record (`AsyncFileUploadProgressDetails`).
  It is a datatype over 32-bit integers. Its `Progress` and `BytesRemaining`
  getters are functions that model C# arithmetic exactly: `(long)` widening,
  division truncating toward zero, and unchecked `int` wrap-around. The
  constructor only stores its three arguments and the setters are private,
  so the datatype constructor is the whole of it.
- `ProgressStore` is `FileUploadManager`. It is a class holding a
  `map<string, Details>`, with methods for set, get and remove.
- `UploadService` is `UploadFileService`. It covers:
  - the argument guards, as `Outcome`/`Result` values;
  - the blob name and the cache key;
  - a class whose fields stand for the two collaborators. `files` is the
    file store, `storageRequests` is a ghost log of the calls made to it, and
    `cache` is the cache service.
  - a second ghost log, `published`, which records every `SetProgressDetails`
    call per user. Through it, the upload loop's whole published history can
    be stated, not only the last record the cache keeps.
- `AsyncFileUploadModule` is `FileUploadModule.cs`. It covers:
  - the eligibility test and the boundary extraction, as functions;
  - the loop state `Cursor`, and `Next`, a function for one pass of the loop;
  - `Steps`, a function giving every record the loop publishes from a
    cursor on;
  - `Trace` and `Final`, the cursors the loop passes through and the one it
    stops at;
  - the imperative `ReadChunk`, `ReadStream` and `ReadUploadedFileStream`,
    each proved against those functions.
- `RequestBody` holds the two collaborators the loop calls:
  - `BodyStream`, the request body. It has the bytes still to come and a
    list of caps on how many bytes each read hands over, so a read may
    return fewer bytes than asked for, or 0 when the stream ends early.
  - `FileUploadRequestParser`, the multipart parser. It has its boundary, the
    bytes fed so far, and an uninterpreted naming function `scan`.
- `OrdinalText` is ordinal case-insensitive string comparison (ASCII
  folding).
- `Int32` is the integer widths and C# integer arithmetic.
- `Wrappers` holds `Option`, `Outcome` and `Result`.

`ReadStream` awaits `ReadAsync` (`FileUploadModule.cs:97`) with no handler
around it, so an I/O fault while reading the body propagates out of
`ReadStream`. The model has no stream faults. An early end of stream is a
read that returns 0 bytes, which the loop handles as the code does.

## Model

| member | source | states |
|---|---|---|
| Int32.Wrap | Website/FileAsyncUpload/FileUploadProgressDetails.cs:38 | the `(int)` cast and unchecked `int` results keep values in range and otherwise differ from the exact value by a multiple of 2^32 |
| Int32.TruncDiv | Website/FileAsyncUpload/FileUploadProgressDetails.cs:38 | C# `long` division; on non-negative operands it is the mathematical floor quotient |
| Int32.Min | Website/FileAsyncUpload/FileUploadModule.cs:97 | `Math.Min` is a lower bound of both arguments and equals one of them |
| ProgressDetails.Progress | Website/FileAsyncUpload/FileUploadProgressDetails.cs:34-40 | on a record with 0 <= BytesRead <= TotalBytes and TotalBytes != 0, the percentage is floor(BytesRead * 100 / TotalBytes) (no overflow, thanks to the widening), lies in 0..100, and is 100 when every byte is read |
| ProgressDetails.BytesRemaining | Website/FileAsyncUpload/FileUploadProgressDetails.cs:43-49 | with both fields non-negative it is exactly TotalBytes - BytesRead; on a well-formed record it lies in 0..TotalBytes |
| ProgressDetails.PercentBound | Website/FileAsyncUpload/FileUploadProgressDetails.cs:38 | for 0 <= read <= total and total > 0, read*100/total lies in 0..100 and is 100 when read == total |
| ProgressDetails.RemainingZeroIffComplete | Website/FileAsyncUpload/FileUploadProgressDetails.cs:34-49 | BytesRemaining is 0 exactly when BytesRead == TotalBytes, and then Progress is 100 |
| ProgressDetails.ProgressMonotone | Website/FileAsyncUpload/FileUploadProgressDetails.cs:34-40 | for a fixed total, a record that has read more never shows a lower percentage |
| ProgressStore.FileUploadManager.constructor | Website/FileAsyncUpload/FileUploadManager.cs:7-8 | the dictionary starts empty, so every key reads as absent |
| ProgressStore.FileUploadManager.SetProgressDetails | Website/FileAsyncUpload/FileUploadManager.cs:10-13 | inserts or replaces the key's record (last writer wins); a later Get returns it; every other key keeps its entry |
| ProgressStore.FileUploadManager.GetProgressDetails | Website/FileAsyncUpload/FileUploadManager.cs:15-24 | returns the stored record, or None (null) exactly when the key is absent |
| ProgressStore.FileUploadManager.RemoveProgressDetails | Website/FileAsyncUpload/FileUploadManager.cs:26-30 | the key reads as absent afterwards; an absent key leaves the map unchanged and raises nothing; other keys are untouched |
| UploadService.IntText | Website/Services/UploadFileService.cs:21 | the invariant-culture text of the user key: non-empty, starting with '-' exactly for negative keys (its injectivity is proved by `IntTextInjective`, used by `BuildFileNameInjective`) |
| UploadService.IntTextInjective | Website/Services/UploadFileService.cs:21 | distinct user keys are formatted as distinct texts |
| UploadService.BuildFileName | Website/Services/UploadFileService.cs:19-22 | the blob name ends with the package extension |
| UploadService.BuildFileNameInjective | Website/Services/UploadFileService.cs:19-22 | distinct user keys give distinct blob names |
| UploadService.CacheKey | Website/Services/UploadFileService.cs:76-79 | the cache key is "upload:" followed by the user key, and nothing else |
| UploadService.CacheKeyInjective | Website/Services/UploadFileService.cs:76-79 | distinct users never share a cache key |
| UploadService.CheckUserKey | Website/Services/UploadFileService.cs:26-27 | fails exactly when userKey < 1, with an ArgumentException naming `userKey` |
| UploadService.CheckSaveArguments | Website/Services/UploadFileService.cs:48-51 | the user key is checked first; with a valid key it fails exactly on a null stream, with an ArgumentNullException naming `packageFileStream` |
| UploadService.UploadFileService.constructor | Website/Services/UploadFileService.cs:13-17 | the service starts from the given storage and cache contents, with empty logs |
| UploadService.UploadFileService.DeleteUploadFile | Website/Services/UploadFileService.cs:24-32 | a bad key is rejected before any storage call; otherwise exactly one DeleteFile of the user's blob is issued and that blob is gone |
| UploadService.UploadFileService.GetUploadFile | Website/Services/UploadFileService.cs:34-42 | a bad key is rejected before any storage call; otherwise exactly one GetFile of the user's blob is issued and its contents (or null) are returned |
| UploadService.UploadFileService.SaveUploadFile | Website/Services/UploadFileService.cs:44-56 | both guards run, in order, before any storage call; otherwise exactly one SaveFile is issued and the user's blob holds the stream |
| UploadService.UploadFileService.GetProgressDetails | Website/Services/UploadFileService.cs:58-62 | answers the record cached under "upload:" + user key, or null |
| UploadService.UploadFileService.RemoveProgressDetails | Website/Services/UploadFileService.cs:64-68 | the user's progress reads as absent afterwards and every other user's progress is unchanged |
| UploadService.UploadFileService.SetProgressDetails | Website/Services/UploadFileService.cs:70-74 | a later Get for the user returns the record; every other user's progress is unchanged; the record is appended to the user's published history |
| RequestBody.ReadLength | Website/FileAsyncUpload/FileUploadModule.cs:97 | a read returns at most the count asked for and at most the bytes left |
| RequestBody.BodyStream.ReadAsync | Website/FileAsyncUpload/FileUploadModule.cs:97 | copies the next bytes of the body to the front of the buffer and returns how many, at most `count` |
| RequestBody.FileUploadRequestParser.ParseNext | Website/FileAsyncUpload/FileUploadModule.cs:106-107 | the parser has now been fed exactly the first `count` buffer bytes in addition; its `CurrentFileName` (line 107) is then `scan` of the boundary and every byte fed so far |
| OrdinalText.EqualsIgnoreCase | Website/FileAsyncUpload/FileUploadModule.cs:132 | `Equals(..., OrdinalIgnoreCase)`: same length and equal character by character after ASCII upper-casing |
| OrdinalText.StartsWithIgnoreCase | Website/FileAsyncUpload/FileUploadModule.cs:139 | `StartsWith(..., OrdinalIgnoreCase)`: the prefix is no longer than the string and equals its first characters ignoring case |
| OrdinalText.IndexOfIgnoreCase | Website/FileAsyncUpload/FileUploadModule.cs:60 | the first case-insensitive occurrence of the pattern, or -1 exactly when there is none |
| AsyncFileUploadModule.IsAsyncUploadRequest | Website/FileAsyncUpload/FileUploadModule.cs:129-156 | eligible exactly when all four clauses hold (POST ignoring case, multipart/form-data prefix ignoring case, a "boundary=", ContentLength >= 4096) |
| AsyncFileUploadModule.Boundary | Website/FileAsyncUpload/FileUploadModule.cs:59-61 | "--" followed by everything after the first case-insensitive "boundary=" |
| AsyncFileUploadModule.Tracked | Website/FileAsyncUpload/FileUploadModule.cs:42-56 | the guard chain of `ReadUploadedFileStream`: the request is eligible, the user is authenticated, and the user name is neither null nor empty |
| AsyncFileUploadModule.Next | Website/FileAsyncUpload/FileUploadModule.cs:95-117 | one pass (`PassStep`) takes at most min(BytesRemaining, 4096) bytes off the front of the stream and feeds exactly those to the parser; it keeps the total and strictly increases BytesRead without passing the total; a zero-byte read sets BytesRead to TotalBytes and keeps the file name; a non-empty read advances BytesRead by its length and takes the parser's current name |
| AsyncFileUploadModule.Steps | Website/FileAsyncUpload/FileUploadModule.cs:95-124 | the loop terminates; every published record keeps the total and has read more than the start, never more than the total; something is published exactly when bytes remain; the last record has read the whole total |
| AsyncFileUploadModule.StepsIncrease | Website/FileAsyncUpload/FileUploadModule.cs:95-118 | successive published BytesRead values strictly increase |
| AsyncFileUploadModule.Trace | Website/FileAsyncUpload/FileUploadModule.cs:95-124 | the cursors the loop passes through, one per pass, each with a well-formed record |
| AsyncFileUploadModule.TraceSteps | Website/FileAsyncUpload/FileUploadModule.cs:117-118 | the records of those cursors are exactly the records the loop publishes, in order |
| AsyncFileUploadModule.TracePasses | Website/FileAsyncUpload/FileUploadModule.cs:95-108 | every pass is a `PassStep` from the cursor before it; the parser is always fed a prefix of the body; only the last pass may read nothing, so a record keeps the previous file name only when it is the last one and its read was empty, and every other record is named by the parser after every byte read so far |
| AsyncFileUploadModule.TraceChunks | Website/FileAsyncUpload/FileUploadModule.cs:92-100 | every record the loop passes through but the last has read between 1 and 4096 bytes more than the one before it (its records are those published, by `TraceSteps`) |
| AsyncFileUploadModule.Final | Website/FileAsyncUpload/FileUploadModule.cs:95-124 | where the loop stops: the parser has been fed a prefix of the body of at most BytesRemaining bytes, the stream holds the rest, and the record has read the whole total |
| AsyncFileUploadModule.FinalLast | Website/FileAsyncUpload/FileUploadModule.cs:95-124 | the loop stops at the last cursor it passes through, or where it started when no bytes remain |
| AsyncFileUploadModule.StepsPercent | Website/FileAsyncUpload/FileUploadModule.cs:95-118 | published percentages lie in 0..100, never decrease, and end at 100 |
| AsyncFileUploadModule.UncappedRead | Website/FileAsyncUpload/FileUploadModule.cs:97-100 | when every read returns all that was asked for and is left (no per-read cap), a pass reads min(BytesRemaining, 4096, bytes left) bytes, and a zero-byte read completes the record |
| AsyncFileUploadModule.UncappedSteps | Website/FileAsyncUpload/FileUploadModule.cs:95-118 | against a stream that fills every request, the published BytesRead values are exactly `UncappedSchedule`, the loop's byte counting with the bytes themselves and the parser abstracted away |
| AsyncFileUploadModule.FullBodySchedule | Website/FileAsyncUpload/FileUploadModule.cs:92-100 | when the body holds every declared byte, the k-th value of that schedule is min(total, start + 4096 * (k + 1)); every value before the last is below the total and the last is the total |
| AsyncFileUploadModule.FullReadsOfTenThousandBytes | Website/FileAsyncUpload/FileUploadModule.cs:92-100 | when every read returns all that was asked for and is left (no per-read cap), a full 10000-byte body is published as 4096, 8192, then 10000 bytes read |
| AsyncFileUploadModule.EarlyEndOfTenThousandBytes | Website/FileAsyncUpload/FileUploadModule.cs:95-100 | when every read returns all that was asked for and is left (no per-read cap), a body that ends after 5000 of 10000 declared bytes is published as 4096, 5000, then 10000 |
| AsyncFileUploadModule.PublishedProgress | Website/FileAsyncUpload/FileUploadModule.cs:42-82 | an untracked request publishes nothing; a tracked one publishes the initial record {ContentLength, 0, ""} first, and only that record when the body is already being read; every record has the declared total (at least 4096), is well formed, and BytesRead strictly increases; when the module reads the body, the last record has read the whole total |
| AsyncFileUploadModule.ReadChunk | Website/FileAsyncUpload/FileUploadModule.cs:96-118 | one pass of the loop does what `Next` describes and publishes the new record to the service |
| AsyncFileUploadModule.ReadStream | Website/FileAsyncUpload/FileUploadModule.cs:84-127 | returns 0; the user's published history is extended by exactly `Steps` of the starting state; the cache ends with the last of those records; nothing else in the cache changes; the stream and the parser end in the state `Final` gives, so the parser has been fed a prefix of the body of at most BytesRemaining bytes and the stream holds the rest |
| AsyncFileUploadModule.ReadUploadedFileStream | Website/FileAsyncUpload/FileUploadModule.cs:40-82 | returns 0; an ineligible, unauthenticated or nameless request publishes nothing and leaves the body unread; a tracked request appends exactly `Published` to the user's history and leaves its last record in the cache; a body the host is already reading is left untouched; otherwise the module consumes a prefix of the body of at most ContentLength bytes and leaves the rest |

## Left out

- Asynchrony and threading: `ReadAsync` awaits and `ToApm` (TaskExtensions.cs, which adapts a Task to the begin/end pattern) are modelled as ordinary sequential calls. So are `BeginPostAuthorizeRequest`, `EndPostAuthorizeRequest`'s `Wait()` and the concurrent dictionary. Two uploads running at once are not modelled.
- Host glue: `Init`, `AddOnPostAuthorizeRequestAsync`, the Ninject lookup, `Dispose`, `GetBufferedInputStream`, the `HttpContext.Current` restoration (FileUploadModule.cs:110-115) and the DEBUG-only `Thread.Sleep` (FileUploadModule.cs:120-123). They are runtime plumbing with no effect on the published records.
- `FileUploadRequestParser` is not part of this model. Its multipart grammar and its use of `request.ContentEncoding` are replaced by the uninterpreted function `scan` of the boundary and the bytes fed so far.
- Stream faults: an exception thrown by `ReadAsync` is not modelled, since the code does not catch it.
- The cache's one-day expiry and the `ICacheService`/`IFileStorageService` implementations. The collaborators are maps; the storage calls are logged.
- The application constants (`Constants.cs` is not part of this model). The upload folder is taken to be "uploads", the file-name template "{0}{1}", and the package extension ".nupkg".
- `IntText` models `int.ToString` in the invariant culture as plain decimal digits with a leading '-'.
- Null strings: a C# `string` may be null, a Dafny `string` may not. So two behaviours are not modelled. `ConcurrentDictionary` throws `ArgumentNullException` on a null key (FileUploadManager.cs:12,18,29). `"upload:" + null` is `"upload:"` (UploadFileService.cs:78), so in C# a null user key and the empty one share a cache key. `CacheKeyInjective` therefore holds only for non-null keys. The module never passes a null or empty user name (FileUploadModule.cs:52-56).
- Character folding beyond ASCII: `OrdinalIgnoreCase` is modelled as folding 'a'..'z' only.
- JSON serialisation (`ScriptIgnore`), `RouteNames.cs`, the `IUploadFileService` interface (its signatures are those of `UploadFileService`), and the file-system storage tests.
- ProgressDetails.Progress: requires TotalBytes != 0. The getter divides without a guard and throws there, and every record the module publishes has a total of at least 4096. Its contract is stated for well-formed records only; for others it states nothing beyond the wrapped 32-bit result type.
- Int32.TruncDiv: the contract states the quotient for non-negative operands only. That is the only case the progress record reaches on a well-formed record.
- AsyncFileUploadModule.ReadStream: requires a well-formed starting record. Its only caller passes {ContentLength, 0, ""} with ContentLength >= 4096.
- The reused 4096-byte buffer is an `array` that `ReadAsync` writes and `ParseNext` reads. What the model states is what the parser was fed, not the buffer's leftover bytes.
