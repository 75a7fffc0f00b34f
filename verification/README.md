# speedemon segment downloader — a Dafny model

speedemon downloads one file over HTTP in several byte ranges at once. Each
range is fetched by a segment fetcher (`downloader_thread`) into its own
partial file, the *checkpoint*, named `{output}/{file_name}.part{index}_{total}`.
The fetcher resumes from whatever an earlier run left in that checkpoint,
asks for one chunk of the segment per request, and counts failed requests
against a retry budget. As written, a request's Range header names the bytes
from the cursor to `min(cursor + 15 MiB, end)` inclusive, so it covers up to
15 MiB + 1 bytes; the model's corrected request stops one byte earlier (see
"## Findings"). When every segment has finished, `merge_files` concatenates
the checkpoints in index order into `{output}/{file_name}` and deletes them.
Before any of this, `check_server_compatibility` sends a HEAD request and
decides from its headers whether a segmented download is possible, and
`validate_url` rejects links without an `http://` or `https://` scheme.

The model keeps that logic and replaces everything around it:

- The network is a *script*: one `Response` per request, in the order the
  requests are made. Each response is `Delivered(body)`, `SendFailed` or
  `BodyFailed`.
- The HEAD exchange becomes its outcome, a `Result<HeadResponse>` holding the
  resolved path and the two header values.
- The file system is a `map<string, seq<byte>>` from full path to content.
- Machine integers are unbounded `nat`s.

Modules:

- `Types`: `byte`, `Option`, `Result` and `Flatten`.
- `Decimal`: the decimal rendering `format!` uses for the numbers in paths and
  in the Range header, with its parser as inverse.
- `PartFiles`: the checkpoint and output path format that the fetcher and the
  merger share, and why these names never collide.
- `Validation`: `validate_url`, the header decision of
  `check_server_compatibility`, and the file name taken from the URL path.
- `Merge`: `merge_files`.
- `Fetch`: `downloader_thread`. It comes as a recursive reference run (`Run`)
  and as the imperative loop (`FetchLoop`, `DownloaderThread`), which is
  proved to end where the reference run ends.
- `FetchProperties`: whole-run facts. These cover a source that always fails,
  a range that is already complete, zero retries, an empty body, and an
  honest server together with resuming.

A few behaviours of the source worth knowing, all modelled as written:

- The probe only checks that an Accept-Ranges header is present; it never
  reads the value.
- An empty file name is returned silently and not reported.
- The merge checks neither the parts' total length nor their number.
- The fetch returns an error whenever the retry counter equals the budget.
  This includes a zero budget on a range that is already complete.

The loop condition and the summary line, which expects `end - start` bytes,
read the segment as `[start, end)`. The Range header
as written, however, names `end` itself as its last byte. The model keeps
that request as `Fetch.ChunkRangeAsWritten` and shows what it does to
resumed downloads; the loop model asks for `Fetch.ChunkRange`, whose last
byte is `min(cursor + 15 MiB, end) - 1`.

## Model

The path builders `PartFiles.OutputPath` and `PartFiles.PartPath`, and the
merge loop `Merge.MergeFrom` with its step `Merge.MergeStep`, carry no
contract of their own: the lemmas in the rows below that name them state
what they compute.

| member | source | states |
|---|---|---|
| Validation.ValidateUrl | src/utils.rs:5-15 | the link is accepted iff it begins with `http://` or `https://`; the empty link gets "The link is empty" (checked first), every other rejected link gets "The link is not valid" |
| Validation.StartsWithIsPrefix | src/utils.rs:10 | the character-by-character `starts_with` test holds iff the scheme is a prefix of the link |
| Validation.Split | src/utils.rs:22 | splitting on `/` yields at least one piece (so `last().unwrap()` cannot fail), no piece contains `/`, and joining the pieces with `/` gives back the path |
| Validation.FileNameOf | src/utils.rs:22 | the derived name is the part of the resolved path after its last `/`: a `/`-free suffix of the path, preceded by `/` when shorter than the path; empty when the path ends in `/` |
| Validation.CheckServerCompatibility | src/utils.rs:17-36 | a transport error is reported as "Error: …"; a missing Content-Length gives the content-length error whatever Accept-Ranges says; Content-Length without Accept-Ranges gives the range error; the result is Ok exactly when both headers are present, and then carries the length and the derived name |
| Validation.AcceptRangesValueIgnored | src/utils.rs:26-28 | any Accept-Ranges value, `none` included, leads to the same decision |
| Decimal.Digits | src/cli.rs:68 | a number is rendered as a non-empty string of digits without leading zeros, as `format!` writes an index or count |
| Decimal.ParseDigitsRoundTrip | src/cli.rs:68 | reading back the rendered digits gives the number, so rendering is unambiguous |
| PartFiles.PartPathInjective | src/utils.rs:41-44 | two checkpoint names are equal only for the same index and the same total, so each segment has its own checkpoint |
| PartFiles.PartPathIsNotOutput | src/utils.rs:39-44 | no checkpoint name is the final file's name |
| Merge.MergeFiles | src/utils.rs:38-56 | the output is created empty first; the merge succeeds iff parts 0..threads-1 all exist, and then the output is their concatenation in ascending index order and every one of them is deleted; a missing part stops the merge at the first missing index, with the earlier parts already appended and deleted; no file other than the output and those parts changes |
| Merge.MergeStepParts | src/utils.rs:41-53 | one iteration appends the part's bytes to the output, deletes the part and leaves the later parts as they were |
| Merge.MergeFromSucceeds | src/utils.rs:40-54 | the loop from any index succeeds iff every remaining part exists, and then appends them in order and removes them |
| Merge.MergeFromAbortsAtFirstGap | src/utils.rs:41-45 | when the loop stops on a missing part, that index is in range, its part is absent, and every part before it was present |
| Merge.MergeFromAbortsRemoved | src/utils.rs:46-53 | when the loop stops on a missing part, every part before it has been deleted |
| Merge.MergeFromAborts | src/utils.rs:41-53 | when the loop stops on a missing part, the output holds its old bytes followed by the parts before the missing one, in order |
| Merge.MergeFromFrame | src/utils.rs:40-54 | the loop touches only the output file and the parts it covers |
| Merge.CheckpointsReassemble | src/utils.rs:41-44 | whatever bytes the fetchers leave under the checkpoint names for a download in N segments, the merge with N threads finds them all, produces their concatenation in segment order and leaves no checkpoint behind |
| Merge.HelloWorldMerge | src/utils.rs:79-93 | parts "Hello" and "World" merge into "HelloWorld", and afterwards the output is the only file left |
| Fetch.ChunkRangeAsWritten | src/cli.rs:86-91 | the request as written starts at the cursor and its inclusive last byte is `min(cursor + 15 MiB, end)`: `end` itself can be requested, and a request spans up to one chunk plus one byte |
| Fetch.ChunkRange | src/cli.rs:82-91 | the corrected request: starts at the cursor, asks for at most one chunk of bytes, none at or past `end`, and ends either at the chunk boundary or just before `end` |
| Fetch.RangeHeader | src/cli.rs:85-91 | the `bytes=first-last` header value a server reads back as exactly the requested range |
| Fetch.Resume | src/cli.rs:63-81 | the cursor starts at `start` plus the checkpoint's length and the byte count at that length, and the file holds what the checkpoint held; with no checkpoint the file starts empty at `start`; the retry counter starts at zero |
| Fetch.Step | src/cli.rs:95-120 | a received body is appended and advances the cursor and the byte count by exactly its length; a send or body failure adds exactly one to the counter and leaves cursor and file unchanged |
| Fetch.Run | src/cli.rs:82-122 | the reference run of the loop against a script makes at most one request per outcome; what it computes is stated by the Run lemmas below and tied to the loop by FetchLoop |
| Fetch.Verdict | src/cli.rs:129-132 | the result is the download error exactly when the counter equals the budget, whatever the cursor, and Ok otherwise |
| Fetch.FetchLoop | src/cli.rs:82-122 | the imperative loop, given enough outcomes, ends in the same state and makes the same requests in the same order as the reference run |
| Fetch.DownloaderThread | src/cli.rs:45-133 | the result is "Error: download failed" iff the counter equals the budget, otherwise Ok; the counter never exceeds the budget; on exit the cursor reached `end` or the budget is spent; the checkpoint holds its old content followed by every received body in order, the cursor has advanced by exactly their length, and the counter equals the number of failures; every request is the chunk at its own first byte, the first at the resumed cursor, and each next one where the previous response left the cursor, so a retry repeats the same range; no other file changes |
| Fetch.RunAccounts | src/cli.rs:96-99 | after any run, file, cursor and byte count grew by exactly the received bytes and the counter by the number of failures |
| Fetch.RunRequests | src/cli.rs:82-91 | every request of a run is exactly the chunk starting at its first byte, which lies below `end`; the first starts at the initial cursor, and each next one starts where the previous response left the cursor |
| Fetch.RunTriesBounded | src/cli.rs:82 | the counter never passes the retry budget |
| Fetch.RunFinishes | src/cli.rs:82 | with non-empty bodies, a script of Budget outcomes is enough for the loop to stop on its own condition |
| Fetch.WriteAll | src/cli.rs:99 | an empty write leaves the handle alone; a non-empty one appends exactly the bytes, and fails exactly when the handle is not writable |
| Fetch.OpenAsWritten | src/cli.rs:69-80 | the checkpoint as the source opens it: an existing one read-only with its bytes, a missing one created empty and writable |
| Fetch.OpenForAppend | src/cli.rs:69-80 | the checkpoint as it should be opened: writable and holding the existing bytes, or empty when there were none |
| Fetch.ResumedWriteFails | src/cli.rs:69-75 | as written, the first non-empty chunk received on a resumed checkpoint cannot be written |
| Fetch.AppendedWriteSucceeds | src/cli.rs:69-75 | with the checkpoint opened for appending, every write appends its bytes after the existing ones |
| FetchProperties.FailingRun | src/cli.rs:104-120 | against failing responses the loop asks for the same range once per remaining retry and changes only the counter, which ends at the budget |
| FetchProperties.FailingSourceExhaustsRetries | src/cli.rs:159-177 | with a source that always fails and a range left to fetch, exactly `retries` requests are made, nothing is appended, and the result is the download error |
| FetchProperties.AlreadyComplete | src/cli.rs:129-132 | when the checkpoint already covers the range no request is made, and the result is an error exactly when the budget is zero |
| FetchProperties.ZeroRetriesFail | src/cli.rs:129-130 | with a zero budget no request is made and the result is an error, whatever the range |
| FetchProperties.EmptyBodyChangesNothing | src/cli.rs:95-99 | an empty successful body leaves the state as it was while the loop condition still holds, so the source repeats that request forever |
| FetchProperties.HonestStep | src/cli.rs:95-99 | one honest reply keeps the partial file equal to the resource from `start` to the cursor and never moves the cursor past `end` |
| FetchProperties.HonestRunContent | src/cli.rs:82-99 | against a server that returns exactly the requested bytes, the partial file stays the resource's bytes from `start` to the cursor, and a cursor that moves stops at `end` at the latest |
| FetchProperties.ResumeContinuesResource | src/cli.rs:63-99 | resuming from any checkpoint that holds a prefix of the resource from `start`, an honest server leaves the file equal to the resource from `start` to the final cursor |
| FetchProperties.CompletedFetchIsSegment | src/cli.rs:63-132 | a fetch resumed from any prefix of the segment that reports success against an honest server ends with the cursor at `end` and holds exactly the resource's bytes of `[start, end)` |
| FetchProperties.ResumeMatchesUninterrupted | src/cli.rs:63-132 | a resumed fetch and one started afresh that both report success leave byte-identical partial files |
| FetchProperties.AsWrittenFetchOverruns | src/cli.rs:63-99 | with the request as written, a fresh fetch of a segment `[0, end)` no longer than one chunk asks for `bytes=0-end`; one honest reply is written to the new checkpoint and the loop stops with an Ok result and `end + 1` bytes stored |
| FetchProperties.AsWrittenResumeDiffers | src/cli.rs:82-91 | with the request as written, `end = 15 MiB + 1` and one honest reply each, the fresh fetch stops holding `end` bytes and a fetch resumed from a 1-byte checkpoint, taken as opened for appending, stops holding `end + 1`, both reporting success |

## Findings

| source | as written | input that shows it | evidently intended | confidence | as-written member | corrected member |
|---|---|---|---|---|---|---|
| src/cli.rs:69 | an existing checkpoint is opened with `File::open`, which is read-only, and later written with `write_all(...).unwrap()` | an existing checkpoint holding 3 bytes, `start = 0`, `end = 10`, first response delivers 1 byte: the write fails and the `unwrap` panics | open the checkpoint for appending so that resumed bytes follow the persisted ones | high (not executed) | Fetch.ResumedWriteFails | Fetch.AppendedWriteSucceeds |
| src/cli.rs:82-91 | the loop runs while `current_bytes < end`, treating `end` as exclusive, but the Range header's inclusive last byte is `min(current_bytes + buffer_size, end)`, so `end` itself is requested whenever a chunk is cut by `end` | `start = 0`, `end = 10`, no checkpoint, a resource of at least 11 bytes and an honest server: the one request is `bytes=0-10`, the reply is written to the new checkpoint, the loop stops with the cursor at 11, and the result is Ok with 11 bytes stored where 10 were expected | last byte `min(current_bytes + buffer_size, end) - 1`, so every fetch of the segment holds exactly `[start, end)`, matching the `end - start` the source reports as expected | medium (not executed) | FetchProperties.AsWrittenFetchOverruns | FetchProperties.CompletedFetchIsSegment |

`Fetch.Resume`, and through it the whole fetch model, takes its starting file
from `Fetch.OpenForAppend`, the corrected open. `Fetch.Run`, `Fetch.FetchLoop`
and `Fetch.DownloaderThread` issue the corrected `Fetch.ChunkRange`.

## Left out

- Fetch.DownloaderThread: requires every successful body to be non-empty and the script to hold at least `SegmentLength(start, end) + retries` outcomes. On an empty body the source never terminates (`FetchProperties.EmptyBodyChangesNothing`), and a finite script must supply one outcome per request.
- Fetch.Run: it also stops when the script runs out. That is a model artifact; under the preconditions of `DownloaderThread` it never happens (`Fetch.RunFinishes`).
- Fetch.DownloaderThread: `current_bytes`, `end`, `retries` and the other counters are modelled as unbounded `nat`s, without `u64`/`u32` wrap-around. `cursor + 15 MiB` overflows only near 2^64.
- HTTP client construction, the per-request timeout, and sending the HEAD and GET requests (src/cli.rs:58-61, src/cli.rs:83-95, src/utils.rs:18-20): these are network calls. The model replaces them with the outcome script and the `HeadResponse` record.
- Validation.CheckServerCompatibility: takes Content-Length as an already-parsed `nat`. The source's `to_str().unwrap().parse().unwrap()` panics on a non-numeric value, and that panic is not modelled.
- Progress accounting under `Arc<Mutex<f64>>` (src/cli.rs:100-102): floating point and shared state, and purely observational.
- All `println!` output, including the summary line whose `end - start` would underflow when `end < start`.
- The `Args` struct and its clap/validator attributes (src/cli.rs:9-43), and src/main.rs: argument parsing and declarative validation with no logic of their own.
- Range partitioning and the orchestrator that spawns the fetchers and calls the merge: the code for these is not part of this model.
- Merge.MergeFiles: directories are not modelled, so a failing `File::create` is not modelled either. A missing part, which the source turns into a panic at `unwrap`, is modelled as the `Aborted` outcome carrying the files as the panic leaves them.
- Fetch.ChunkRange: defined only for a cursor below `end`, the only case in which the loop asks. It reads `end` as exclusive; if the range partitioner, which is not part of this model, meant `end` to be inclusive, the correction would instead be the loop condition `current_bytes <= end`, which this model does not cover.
