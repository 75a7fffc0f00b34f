/** One segment fetcher (`downloader_thread`) with the HTTP client and the
    file handle taken out. The network is a script of outcomes, one per
    request in the order the requests are made; the partial file is a byte
    sequence kept in the tree of files under its checkpoint name. */
module Fetch {
  import opened Types
  import opened Decimal
  import opened PartFiles

  /** `buffer_size`: the most bytes a single request asks for. */
  const ChunkSize: nat := 15 * 1024 * 1024

  const DownloadFailed := "Error: download failed"

  /** A byte range as written in an HTTP Range header: both ends included. */
  datatype ByteRange = ByteRange(first: nat, last: nat)

  /** What one request produced: the response body, or a failure either in
      sending the request or in reading its body. */
  datatype Response =
    | Delivered(body: seq<byte>)
    | SendFailed(reason: string)
    | BodyFailed(reason: string)

  /** The loop variables: `current_bytes`, `downloaded_bytes`, `try_count` and
      the content of the partial file. */
  datatype FetchState = FetchState(cursor: nat, downloaded: nat, tries: nat, file: seq<byte>)

  /** The range requested from `cursor` as the source writes it: its last
      byte is `min(cursor + buffer_size, end)`, and the Range header includes
      its last byte, so `end` itself is asked for although the loop treats
      `end` as the first byte past the segment. */
  function ChunkRangeAsWritten(cursor: nat, end: nat): (r: ByteRange)
    ensures r.first == cursor
    ensures r.last <= end && r.last <= cursor + ChunkSize
    ensures r.last == end || r.last == cursor + ChunkSize
    ensures cursor < end ==> r.first < r.last
  {
    ByteRange(cursor, if cursor + ChunkSize < end then cursor + ChunkSize else end)
  }

  /** The range requested from `cursor` with `end` read as exclusive, as the
      loop condition reads it: at most one chunk of bytes, none at or past
      `end`. The loop only asks while the cursor is below `end`. */
  function ChunkRange(cursor: nat, end: nat): (r: ByteRange)
    requires cursor < end
    ensures r.first == cursor <= r.last < end
    ensures r.last - r.first < ChunkSize
    ensures r.last + 1 == end || r.last + 1 == cursor + ChunkSize
  {
    ByteRange(cursor, (if cursor + ChunkSize < end then cursor + ChunkSize else end) - 1)
  }

  /** The value of the Range header for `r`; a server reads back exactly `r`. */
  function RangeHeader(r: ByteRange): (h: string)
    ensures ParseRangeHeader(h) == Some(r)
  {
    RangeHeaderRoundTrip(r);
    "bytes=" + Digits(r.first) + "-" + Digits(r.last)
  }

  /** Position of the first `c` in `s`. */
  function IndexOf(s: string, c: char): (r: Option<nat>)
    ensures r.Some? ==> r.value < |s| && s[r.value] == c && c !in s[..r.value]
    ensures r.None? ==> c !in s
  {
    if |s| == 0 then None
    else if s[0] == c then Some(0)
    else
      var rest := IndexOf(s[1..], c);
      if rest.None? then None
      else assert s[..rest.value + 1] == [s[0]] + s[1..][..rest.value]; Some(rest.value + 1)
  }

  /** How a server reads a Range header of the form `bytes=first-last`. */
  function ParseRangeHeader(h: string): Option<ByteRange>
  {
    if |h| < 6 || h[..6] != "bytes=" then None
    else
      var spec := h[6..];
      match IndexOf(spec, '-')
      case None => None
      case Some(i) =>
        match (ParseDigits(spec[..i]), ParseDigits(spec[i + 1..]))
        case (Some(first), Some(last)) => Some(ByteRange(first, last))
        case _ => None
  }

  /** The header the fetcher sends names exactly the range it computed. */
  lemma RangeHeaderRoundTrip(r: ByteRange)
    ensures ParseRangeHeader("bytes=" + Digits(r.first) + "-" + Digits(r.last)) == Some(r)
  {
    var h := "bytes=" + Digits(r.first) + "-" + Digits(r.last);
    var a, b := Digits(r.first), Digits(r.last);
    var spec := h[6..];
    assert spec == a + "-" + b;
    assert '-' !in a;
    assert spec[..|a|] == a;
    assert IndexOf(spec, '-') == Some(|a|);
    assert spec[|a| + 1..] == b;
    ParseDigitsRoundTrip(r.first);
    ParseDigitsRoundTrip(r.last);
  }

  /** The partial file as opened for resuming. */
  datatype PartHandle = PartHandle(content: seq<byte>, writable: bool)

  /** The open step as written: an existing partial file is opened with
      `File::open`, which is read-only; a missing one is created writable
      and empty. */
  function OpenAsWritten(existing: Option<seq<byte>>): (h: PartHandle)
    ensures h.writable <==> existing.None?
    ensures existing.Some? ==> h.content == existing.value
    ensures existing.None? ==> h.content == []
  {
    match existing
    case Some(content) => PartHandle(content, false)
    case None => PartHandle([], true)
  }

  /** The open step as intended: the existing bytes are kept and new ones
      can be appended, whether or not the file existed. */
  function OpenForAppend(existing: Option<seq<byte>>): (h: PartHandle)
    ensures h.writable
    ensures existing.Some? ==> h.content == existing.value
    ensures existing.None? ==> h.content == []
  {
    PartHandle(if existing.Some? then existing.value else [], true)
  }

  /** `write_all`: an empty buffer is written without touching the file; a
      non-empty one is appended, or fails on a handle not open for writing. */
  function WriteAll(h: PartHandle, bytes: seq<byte>): (r: Result<PartHandle>)
    ensures r.Err? <==> |bytes| > 0 && !h.writable
    ensures r.Ok? ==> r.value.writable == h.writable && r.value.content == h.content + bytes
  {
    if |bytes| == 0 then Ok(h)
    else if !h.writable then Err("Bad file descriptor")
    else Ok(h.(content := h.content + bytes))
  }

  /** As written, resuming fails on the first chunk received: the write goes
      to a read-only handle and the source's `unwrap` panics. */
  lemma ResumedWriteFails(content: seq<byte>, body: seq<byte>)
    requires |body| > 0
    ensures WriteAll(OpenAsWritten(Some(content)), body).Err?
  {
  }

  /** With the intended open, every received chunk lands after the bytes
      already on disk. */
  lemma AppendedWriteSucceeds(existing: Option<seq<byte>>, body: seq<byte>)
    ensures var h := OpenForAppend(existing);
      WriteAll(h, body) == Ok(PartHandle(h.content + body, true))
  {
  }

  /** The partial file's content, if the checkpoint exists. */
  function Checkpoint(fs: FileSystem, path: string): Option<seq<byte>>
  {
    if path in fs then Some(fs[path]) else None
  }

  /** The resume step: the cursor and the byte count start past whatever the
      checkpoint already holds. */
  function Resume(start: nat, existing: Option<seq<byte>>): (s: FetchState)
    ensures s.tries == 0
    ensures s.cursor == start + |s.file| && s.downloaded == |s.file|
    ensures s.file == OpenForAppend(existing).content
  {
    var file := OpenForAppend(existing).content;
    FetchState(start + |file|, |file|, 0, file)
  }

  /** The loop condition. */
  predicate Running(s: FetchState, end: nat, retries: nat)
  {
    s.cursor < end && s.tries < retries
  }

  /** Bytes a response adds to the partial file. */
  function BodyOf(resp: Response): seq<byte>
  {
    if resp.Delivered? then resp.body else []
  }

  /** One iteration of the loop given the outcome of its request. */
  function Step(s: FetchState, resp: Response): (r: FetchState)
    ensures r.file == s.file + BodyOf(resp)
    ensures r.cursor - s.cursor == r.downloaded - s.downloaded == |BodyOf(resp)|
    ensures resp.Delivered? ==> r.tries == s.tries
    ensures !resp.Delivered? ==> r.tries == s.tries + 1 && r.cursor == s.cursor && r.file == s.file
  {
    match resp
    case Delivered(body) => FetchState(s.cursor + |body|, s.downloaded + |body|, s.tries, s.file + body)
    case _ => s.(tries := s.tries + 1)
  }

  /** The function's result once the loop has stopped: a failure exactly
      when the retry counter reached the budget, whatever the cursor. */
  function Verdict(s: FetchState, retries: nat): (r: Result<()>)
    ensures r.Err? <==> s.tries == retries
    ensures r.Err? ==> r.error == DownloadFailed
  {
    if s.tries == retries then Err(DownloadFailed) else Ok(())
  }

  /** Final loop state and the ranges requested on the way. */
  datatype Progress = Progress(state: FetchState, requests: seq<ByteRange>)

  /** The loop run against a script of outcomes: the reference the imperative
      version is checked against. It also stops if the script runs out. */
  function Run(s: FetchState, script: seq<Response>, end: nat, retries: nat): (r: Progress)
    ensures |r.requests| <= |script|
    decreases |script|
  {
    if !Running(s, end, retries) || |script| == 0 then Progress(s, [])
    else
      var rest := Run(Step(s, script[0]), script[1..], end, retries);
      Progress(rest.state, [ChunkRange(s.cursor, end)] + rest.requests)
  }

  /** The bytes the successful responses among `script` carried, in order. */
  function Received(script: seq<Response>): seq<byte>
  {
    if |script| == 0 then [] else BodyOf(script[0]) + Received(script[1..])
  }

  /** How many responses among `script` were failures. */
  function Failures(script: seq<Response>): nat
  {
    if |script| == 0 then 0 else (if script[0].Delivered? then 0 else 1) + Failures(script[1..])
  }

  /** Every successful response carries at least one byte. */
  predicate NonEmptyBodies(script: seq<Response>)
  {
    forall i :: 0 <= i < |script| ==> (script[i].Delivered? ==> |script[i].body| > 0)
  }

  /** An upper bound on the iterations left: each one either advances the
      cursor by at least a byte or spends a retry. */
  function Budget(s: FetchState, end: nat, retries: nat): nat
  {
    (if s.cursor < end then end - s.cursor else 0) + (if s.tries < retries then retries - s.tries else 0)
  }

  /** Bytes of the segment `[start, end)`, zero if the bounds are inverted. */
  function SegmentLength(start: nat, end: nat): nat
  {
    if start < end then end - start else 0
  }

  /** A request as the loop issues it: the chunk that starts at its first
      byte, which lies below `end`. */
  predicate WellFormedRequest(r: ByteRange, end: nat)
  {
    r.first < end && r == ChunkRange(r.first, end)
  }

  /** The state after the loop is the state before it, plus the bodies of the
      responses consumed, plus one retry per failure among them. */
  lemma {:induction false} RunAccounts(s: FetchState, script: seq<Response>, end: nat, retries: nat)
    ensures var r := Run(s, script, end, retries);
      && r.state.file == s.file + Received(script[..|r.requests|])
      && r.state.cursor == s.cursor + |Received(script[..|r.requests|])|
      && r.state.downloaded == s.downloaded + |Received(script[..|r.requests|])|
      && r.state.tries == s.tries + Failures(script[..|r.requests|])
    decreases |script|
  {
    var r := Run(s, script, end, retries);
    if Running(s, end, retries) && |script| > 0 {
      RunAccounts(Step(s, script[0]), script[1..], end, retries);
      assert script[..|r.requests|][1..] == script[1..][..|r.requests| - 1];
    }
  }

  /** Every request made lies within the segment and within one chunk; the
      first starts at the initial cursor, and each later one starts where the
      previous response left the cursor, so a failed chunk is asked for again. */
  lemma {:induction false} RunRequests(s: FetchState, script: seq<Response>, end: nat, retries: nat)
    ensures var r := Run(s, script, end, retries);
      && (forall i :: 0 <= i < |r.requests| ==> WellFormedRequest(r.requests[i], end))
      && (|r.requests| > 0 ==> r.requests[0].first == s.cursor)
      && (forall i :: 0 <= i < |r.requests| - 1 ==>
            r.requests[i + 1].first == r.requests[i].first + |BodyOf(script[i])|)
    decreases |script|
  {
    if Running(s, end, retries) && |script| > 0 {
      RunRequests(Step(s, script[0]), script[1..], end, retries);
      var rest := Run(Step(s, script[0]), script[1..], end, retries);
      assert forall i :: 1 <= i < |rest.requests| + 1 ==> script[i] == script[1..][i - 1];
    }
  }

  /** The retry counter never passes the budget. */
  lemma {:induction false} RunTriesBounded(s: FetchState, script: seq<Response>, end: nat, retries: nat)
    requires s.tries <= retries
    ensures Run(s, script, end, retries).state.tries <= retries
    decreases |script|
  {
    if Running(s, end, retries) && |script| > 0 {
      RunTriesBounded(Step(s, script[0]), script[1..], end, retries);
    }
  }

  /** With non-empty bodies and at least `Budget` outcomes available, the loop
      stops on its own condition rather than by running out of script. */
  lemma {:induction false} RunFinishes(s: FetchState, script: seq<Response>, end: nat, retries: nat)
    requires NonEmptyBodies(script)
    requires |script| >= Budget(s, end, retries)
    ensures !Running(Run(s, script, end, retries).state, end, retries)
    decreases |script|
  {
    if Running(s, end, retries) {
      assert |script| > 0;
      assert Budget(Step(s, script[0]), end, retries) < Budget(s, end, retries);
      RunFinishes(Step(s, script[0]), script[1..], end, retries);
    }
  }

  /** A running loop with an outcome available makes one request and steps. */
  lemma RunUnfold(s: FetchState, script: seq<Response>, end: nat, retries: nat)
    requires Running(s, end, retries) && |script| > 0
    ensures var tail := Run(Step(s, script[0]), script[1..], end, retries);
      Run(s, script, end, retries) == Progress(tail.state, [ChunkRange(s.cursor, end)] + tail.requests)
  {
  }

  /** A step with a non-empty body or a failure uses up part of the budget. */
  lemma StepShrinksBudget(s: FetchState, resp: Response, end: nat, retries: nat)
    requires Running(s, end, retries)
    requires resp.Delivered? ==> |resp.body| > 0
    ensures Budget(Step(s, resp), end, retries) < Budget(s, end, retries)
  {
  }

  /** One turn of the loop: from outcome `k` on, the run makes the request
      for the current cursor and continues from the stepped state. */
  lemma LoopTurn(s: FetchState, k: nat, script: seq<Response>, end: nat, retries: nat)
    requires Running(s, end, retries) && k < |script|
    ensures var tail := Run(Step(s, script[k]), script[k + 1..], end, retries);
      Run(s, script[k..], end, retries) == Progress(tail.state, [ChunkRange(s.cursor, end)] + tail.requests)
  {
    var rest := script[k..];
    assert rest[0] == script[k] && rest[1..] == script[k + 1..];
    RunUnfold(s, rest, end, retries);
  }

  /** Everything the loop's outcome promises, read off the reference run. */
  lemma RunSummary(init: FetchState, script: seq<Response>, end: nat, retries: nat)
    requires init.tries <= retries
    ensures var r := Run(init, script, end, retries);
      && r.state.tries <= retries
      && r.state.file == init.file + Received(script[..|r.requests|])
      && r.state.cursor == init.cursor + |Received(script[..|r.requests|])|
      && r.state.downloaded == init.downloaded + |Received(script[..|r.requests|])|
      && r.state.tries == init.tries + Failures(script[..|r.requests|])
      && (forall i :: 0 <= i < |r.requests| ==> WellFormedRequest(r.requests[i], end))
      && (|r.requests| > 0 ==> r.requests[0].first == init.cursor)
      && (forall i :: 0 <= i < |r.requests| - 1 ==>
            r.requests[i + 1].first == r.requests[i].first + |BodyOf(script[i])|)
  {
    RunAccounts(init, script, end, retries);
    RunRequests(init, script, end, retries);
    RunTriesBounded(init, script, end, retries);
  }

  /** The `while` loop of `downloader_thread`, from the resumed state: it
      ends in the state, after the requests, of the reference run. Enough
      outcomes are available that the loop never asks past the script's end;
      that it then stops on its own condition is `RunFinishes`. */
  method FetchLoop(init: FetchState, end: nat, retries: nat, script: seq<Response>)
    returns (final: FetchState, requests: seq<ByteRange>)
    requires NonEmptyBodies(script)
    requires |script| >= Budget(init, end, retries)
    ensures Run(init, script, end, retries) == Progress(final, requests)
  {
    var s := init;
    var k := 0;
    requests := [];
    while s.cursor < end && s.tries < retries
      invariant k <= |script| && |requests| == k
      invariant k + Budget(s, end, retries) <= Budget(init, end, retries)
      invariant Run(init, script, end, retries) == Progress(Run(s, script[k..], end, retries).state, requests + Run(s, script[k..], end, retries).requests)
      decreases |script| - k
    {
      LoopTurn(s, k, script, end, retries);
      StepShrinksBudget(s, script[k], end, retries);
      ghost var tail := Run(Step(s, script[k]), script[k + 1..], end, retries);
      assert requests + ([ChunkRange(s.cursor, end)] + tail.requests)
          == (requests + [ChunkRange(s.cursor, end)]) + tail.requests;
      requests := requests + [ChunkRange(s.cursor, end)];
      s := Step(s, script[k]);
      k := k + 1;
    }
    final := s;
  }

  /** `downloader_thread` over the tree of files `fs`, with the network
      replaced by `script`. The result is an error exactly when the retry
      budget was used up; otherwise the loop stopped because the cursor
      reached `end`. The checkpoint ends up holding what it held before
      followed by every received body in order, the cursor having advanced by
      exactly their total length; the retry counter counts all failures, not
      just consecutive ones. Every request stays within one chunk and within
      the segment, the first starts at the resumed cursor, and each retry asks
      again from the same cursor. No file
      other than the checkpoint changes. */
  method DownloaderThread(output: string, fileName: string, index: nat, total: nat,
                          start: nat, end: nat, retries: nat,
                          fs: FileSystem, script: seq<Response>)
    returns (result: Result<()>, fs': FileSystem, final: FetchState, requests: seq<ByteRange>)
    requires NonEmptyBodies(script)
    requires |script| >= SegmentLength(start, end) + retries
    ensures result.Err? <==> final.tries == retries
    ensures result.Err? ==> result.error == DownloadFailed
    ensures final.tries <= retries
    ensures final.cursor >= end || final.tries == retries
    ensures |requests| <= |script|
    ensures var init := Resume(start, Checkpoint(fs, PartPath(output, fileName, index, total)));
      && Run(init, script, end, retries) == Progress(final, requests)
      && final.file == init.file + Received(script[..|requests|])
      && final.cursor == init.cursor + |Received(script[..|requests|])|
      && final.downloaded == init.downloaded + |Received(script[..|requests|])|
      && final.tries == Failures(script[..|requests|])
      && (|requests| > 0 ==> requests[0].first == init.cursor)
    ensures forall i :: 0 <= i < |requests| ==> WellFormedRequest(requests[i], end)
    ensures forall i :: 0 <= i < |requests| - 1 ==>
      requests[i + 1].first == requests[i].first + |BodyOf(script[i])|
    ensures PartPath(output, fileName, index, total) in fs'
    ensures fs'[PartPath(output, fileName, index, total)] == final.file
    ensures forall p :: p != PartPath(output, fileName, index, total) ==> SameEntry(fs, fs', p)
  {
    var path := PartPath(output, fileName, index, total);
    var init := Resume(start, Checkpoint(fs, path));
    final, requests := FetchLoop(init, end, retries, script);
    RunFinishes(init, script, end, retries);
    RunSummary(init, script, end, retries);
    fs' := fs[path := final.file];
    result := Verdict(final, retries);
  }
}
