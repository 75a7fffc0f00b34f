/** Properties of the segment fetcher that relate whole runs: a source that
    always fails, a range with nothing left to fetch, a server that answers
    every range honestly (which is what makes a resumed fetch continue the
    same bytes), and the empty body on which the source loops forever. */
module FetchProperties {
  import opened Types
  import opened Fetch

  /** Every outcome in the script is a failure. */
  predicate AllFail(script: seq<Response>)
  {
    forall i :: 0 <= i < |script| ==> !script[i].Delivered?
  }

  /** Against a failing source the loop asks for the same range once per
      remaining retry and changes nothing but the counter. */
  lemma {:induction false} FailingRun(s: FetchState, script: seq<Response>, end: nat, retries: nat)
    requires AllFail(script)
    requires s.cursor < end && s.tries <= retries
    requires |script| >= retries - s.tries
    ensures var r := Run(s, script, end, retries);
      && r.state == s.(tries := retries)
      && |r.requests| == retries - s.tries
      && (forall i :: 0 <= i < |r.requests| ==> r.requests[i] == ChunkRange(s.cursor, end))
    decreases |script|
  {
    if s.tries < retries {
      assert !script[0].Delivered?;
      FailingRun(Step(s, script[0]), script[1..], end, retries);
    }
  }

  /** The unit test's scenario: with a source that always fails and a range
      still to fetch, exactly `retries` requests are made, the partial file
      keeps exactly what it held, and the result is the download error. */
  lemma FailingSourceExhaustsRetries(start: nat, end: nat, retries: nat, existing: Option<seq<byte>>,
                                     script: seq<Response>)
    requires AllFail(script) && |script| >= retries
    requires Resume(start, existing).cursor < end
    ensures var init := Resume(start, existing);
      var r := Run(init, script, end, retries);
      && |r.requests| == retries
      && r.state.file == init.file
      && r.state.cursor == init.cursor
      && Verdict(r.state, retries) == Err(DownloadFailed)
  {
    FailingRun(Resume(start, existing), script, end, retries);
  }

  /** When the checkpoint already covers the range no request is made, and the
      result is still an error when the retry budget is zero: the final check
      compares the untouched counter with the budget. */
  lemma AlreadyComplete(start: nat, end: nat, retries: nat, existing: Option<seq<byte>>, script: seq<Response>)
    requires Resume(start, existing).cursor >= end
    ensures var r := Run(Resume(start, existing), script, end, retries);
      && r.requests == []
      && r.state == Resume(start, existing)
      && (Verdict(r.state, retries).Err? <==> retries == 0)
  {
  }

  /** With a zero retry budget the loop never runs and the result is an error,
      whatever the range. */
  lemma ZeroRetriesFail(start: nat, end: nat, existing: Option<seq<byte>>, script: seq<Response>)
    ensures var r := Run(Resume(start, existing), script, end, 0);
      r.requests == [] && Verdict(r.state, 0) == Err(DownloadFailed)
  {
  }

  /** A successful empty body leaves the loop state exactly as it was, so the
      loop condition still holds and the same request is made again. */
  lemma EmptyBodyChangesNothing(s: FetchState, end: nat, retries: nat)
    requires Running(s, end, retries)
    ensures Step(s, Delivered([])) == s
    ensures Running(Step(s, Delivered([])), end, retries)
  {
  }

  /** An honest server returns exactly the requested bytes of the resource
      `res`, cut short only where the resource ends. */
  predicate HonestReply(res: seq<byte>, req: ByteRange, resp: Response)
  {
    resp.Delivered? ==>
      && req.first <= req.last
      && req.first <= |res|
      && resp.body == res[req.first .. if req.last + 1 < |res| then req.last + 1 else |res|]
  }

  /** Every reply the run receives is honest for the request it answers. */
  predicate HonestScript(res: seq<byte>, s: FetchState, script: seq<Response>, end: nat, retries: nat)
    decreases |script|
  {
    || !Running(s, end, retries)
    || |script| == 0
    || (&& HonestReply(res, ChunkRange(s.cursor, end), script[0])
        && HonestScript(res, Step(s, script[0]), script[1..], end, retries))
  }

  /** One honest reply keeps the partial file equal to the resource from
      `start` to the cursor, and never moves the cursor past `end`. */
  lemma HonestStep(res: seq<byte>, start: nat, s: FetchState, resp: Response, end: nat)
    requires start <= s.cursor <= |res| && s.file == res[start .. s.cursor]
    requires s.cursor < end && HonestReply(res, ChunkRange(s.cursor, end), resp)
    ensures var s' := Step(s, resp);
      && s.cursor <= s'.cursor <= |res|
      && s'.file == res[start .. s'.cursor]
      && s'.cursor <= end
  {
    if resp.Delivered? {
      var req := ChunkRange(s.cursor, end);
      assert req.first == s.cursor && req.last < end;
      var hi := if req.last + 1 < |res| then req.last + 1 else |res|;
      assert start <= s.cursor <= hi <= |res| && hi <= end;
      assert resp.body == res[s.cursor .. hi];
      assert res[start .. s.cursor] + res[s.cursor .. hi] == res[start .. hi];
      assert Step(s, resp) == FetchState(hi, s.downloaded + |resp.body|, s.tries, res[start .. hi]);
    }
  }

  /** If the partial file holds the resource's bytes from `start` up to the
      cursor, an honest run keeps it so: the file is always exactly the
      resource from `start` to the cursor, and a cursor that moves stops at
      `end` at the latest. */
  lemma {:induction false} HonestRunContent(res: seq<byte>, start: nat, s: FetchState, script: seq<Response>,
                                            end: nat, retries: nat)
    requires start <= s.cursor <= |res| && s.file == res[start .. s.cursor]
    requires HonestScript(res, s, script, end, retries)
    ensures var f := Run(s, script, end, retries).state;
      && s.cursor <= f.cursor <= |res|
      && f.file == res[start .. f.cursor]
      && (f.cursor == s.cursor || f.cursor <= end)
    decreases |script|
  {
    if Running(s, end, retries) && |script| > 0 {
      HonestStep(res, start, s, script[0], end);
      HonestRunContent(res, start, Step(s, script[0]), script[1..], end, retries);
    }
  }

  /** Resuming against an honest server continues the same bytes: whatever
      prefix of the resource from `start` an earlier run left in the
      checkpoint, the file afterwards is the resource from `start` to the
      final cursor. */
  lemma ResumeContinuesResource(res: seq<byte>, start: nat, end: nat, retries: nat,
                                existing: Option<seq<byte>>, script: seq<Response>)
    requires start <= |res|
    requires existing.Some? ==>
      start + |existing.value| <= |res| && existing.value == res[start .. start + |existing.value|]
    requires HonestScript(res, Resume(start, existing), script, end, retries)
    ensures var f := Run(Resume(start, existing), script, end, retries).state;
      && start <= f.cursor <= |res|
      && f.file == res[start .. f.cursor]
  {
    HonestRunContent(res, start, Resume(start, existing), script, end, retries);
  }

  /** A fetch of the segment `[start, end)` resumed from a checkpoint that
      holds a prefix of it, against an honest server, with every body
      non-empty and enough outcomes for the loop to stop on its own. */
  predicate HonestFetch(res: seq<byte>, start: nat, end: nat, retries: nat,
                        existing: Option<seq<byte>>, script: seq<Response>)
  {
    && start <= end && start <= |res|
    && (existing.Some? ==>
          && start + |existing.value| <= end && start + |existing.value| <= |res|
          && existing.value == res[start .. start + |existing.value|])
    && NonEmptyBodies(script) && |script| >= SegmentLength(start, end) + retries
    && HonestScript(res, Resume(start, existing), script, end, retries)
  }

  /** A fetch that reports success holds exactly the segment: the resource's
      bytes from `start` up to, not including, `end`, wherever it resumed. */
  lemma CompletedFetchIsSegment(res: seq<byte>, start: nat, end: nat, retries: nat,
                                existing: Option<seq<byte>>, script: seq<Response>)
    requires HonestFetch(res, start, end, retries, existing, script)
    ensures var f := Run(Resume(start, existing), script, end, retries).state;
      Verdict(f, retries).Ok? ==> end <= |res| && f.cursor == end && f.file == res[start .. end]
  {
    var init := Resume(start, existing);
    assert Budget(init, end, retries) <= SegmentLength(start, end) + retries;
    RunFinishes(init, script, end, retries);
    RunTriesBounded(init, script, end, retries);
    HonestRunContent(res, start, init, script, end, retries);
  }

  /** Resuming is invisible in the result: a fetch resumed from any prefix of
      the segment and one started afresh, both reporting success, leave
      byte-identical partial files. */
  lemma ResumeMatchesUninterrupted(res: seq<byte>, start: nat, end: nat, retries: nat,
                                   existing: Option<seq<byte>>, scratch: seq<Response>, resumed: seq<Response>)
    requires HonestFetch(res, start, end, retries, None, scratch)
    requires HonestFetch(res, start, end, retries, existing, resumed)
    ensures var f := Run(Resume(start, None), scratch, end, retries).state;
      var g := Run(Resume(start, existing), resumed, end, retries).state;
      Verdict(f, retries).Ok? && Verdict(g, retries).Ok? ==> f.file == g.file
  {
    CompletedFetchIsSegment(res, start, end, retries, None, scratch);
    CompletedFetchIsSegment(res, start, end, retries, existing, resumed);
  }

  /** As written, a fresh fetch of a segment no longer than one chunk asks
      for `end` itself: the Range header includes its last byte. One honest
      reply, written to the newly created checkpoint, takes the cursor to
      `end + 1`; the loop stops, the result is Ok, and the checkpoint holds
      one byte more than the `end - start` the source expects. */
  lemma AsWrittenFetchOverruns(res: seq<byte>, end: nat)
    requires 0 < end <= ChunkSize && end < |res|
    ensures var s := Resume(0, None);
      var q := ChunkRangeAsWritten(s.cursor, end);
      var f := Step(s, Delivered(res[0 .. end + 1]));
      && q == ByteRange(0, end)
      && HonestReply(res, q, Delivered(res[0 .. end + 1]))
      && WriteAll(OpenAsWritten(None), res[0 .. end + 1]) == Ok(PartHandle(f.file, true))
      && !Running(f, end, 1) && Verdict(f, 1) == Ok(())
      && f.cursor == end + 1 && f.file == res[..end + 1]
  {
  }

  /** As written, the outcome also depends on where a fetch resumed. With
      `end = buffer_size + 1`, the first request of a fetch started afresh is
      cut by the chunk and ends exactly at `end`; the request of a fetch
      resumed one byte in is cut by `end`, which the Range header includes,
      and ends one byte further. Both loops stop after one honest reply and
      both report success, yet the partial files differ in length. The
      resumed half takes the checkpoint as opened for appending: with the
      read-only open as written, its first write fails instead
      (`Fetch.ResumedWriteFails`). */
  lemma AsWrittenResumeDiffers(res: seq<byte>)
    requires |res| >= ChunkSize + 2
    ensures var end := ChunkSize + 1;
      var scratch := Resume(0, None);
      var resumed := Resume(0, Some(res[..1]));
      var f := Step(scratch, Delivered(res[0 .. end]));
      var g := Step(resumed, Delivered(res[1 .. end + 1]));
      && HonestReply(res, ChunkRangeAsWritten(scratch.cursor, end), Delivered(res[0 .. end]))
      && HonestReply(res, ChunkRangeAsWritten(resumed.cursor, end), Delivered(res[1 .. end + 1]))
      && !Running(f, end, 1) && Verdict(f, 1) == Ok(())
      && !Running(g, end, 1) && Verdict(g, 1) == Ok(())
      && f.file == res[..end] && g.file == res[..end + 1]
  {
  }
}
