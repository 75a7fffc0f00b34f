/** Reassembly (`merge_files`): the final file is created (or truncated), then
    for every segment index in ascending order the checkpoint is read,
    appended to the final file and deleted. A missing checkpoint makes the
    source panic at an `unwrap`; the model reports it as `Aborted`, carrying
    the tree as the panic leaves it. */
module Merge {
  import opened Types
  import opened PartFiles

  datatype MergeOutcome =
    | Merged(fs: FileSystem)
    | Aborted(missing: nat, fs: FileSystem)

  /** `p` is the checkpoint of one of the segments `lo .. threads - 1`. */
  predicate IsPartFrom(output: string, fileName: string, threads: nat, lo: nat, p: string)
  {
    exists j :: lo <= j < threads && p == PartPath(output, fileName, j, threads)
  }

  /** The checkpoints of segments `lo .. hi - 1` all exist. */
  predicate PartsPresent(fs: FileSystem, output: string, fileName: string, threads: nat, lo: nat, hi: nat)
  {
    forall j :: lo <= j < hi ==> PartPath(output, fileName, j, threads) in fs
  }

  /** The checkpoints of segments `lo .. hi - 1` are all gone. */
  predicate PartsAbsent(fs: FileSystem, output: string, fileName: string, threads: nat, lo: nat, hi: nat)
  {
    forall j :: lo <= j < hi ==> PartPath(output, fileName, j, threads) !in fs
  }

  /** Contents of the checkpoints `lo .. hi - 1`, in ascending index order. */
  function Joined(fs: FileSystem, output: string, fileName: string, threads: nat, lo: nat, hi: nat): seq<byte>
    requires PartsPresent(fs, output, fileName, threads, lo, hi)
    decreases hi - lo
  {
    if lo >= hi then [] else fs[PartPath(output, fileName, lo, threads)] + Joined(fs, output, fileName, threads, lo + 1, hi)
  }

  /** Joined reads only the checkpoints it covers. */
  lemma {:induction false} JoinedFrame(fs: FileSystem, fs': FileSystem, output: string, fileName: string, threads: nat, lo: nat, hi: nat)
    requires PartsPresent(fs, output, fileName, threads, lo, hi)
    requires forall j :: lo <= j < hi ==> SameEntry(fs, fs', PartPath(output, fileName, j, threads))
    ensures PartsPresent(fs', output, fileName, threads, lo, hi)
    ensures Joined(fs', output, fileName, threads, lo, hi) == Joined(fs, output, fileName, threads, lo, hi)
    decreases hi - lo
  {
    if lo < hi {
      assert SameEntry(fs, fs', PartPath(output, fileName, lo, threads));
      JoinedFrame(fs, fs', output, fileName, threads, lo + 1, hi);
    }
  }

  /** The tree after one iteration of the loop: checkpoint `lo` appended to
      the final file and removed. */
  function MergeStep(fs: FileSystem, output: string, fileName: string, threads: nat, lo: nat): FileSystem
    requires OutputPath(output, fileName) in fs && PartPath(output, fileName, lo, threads) in fs
  {
    var out := OutputPath(output, fileName);
    var part := PartPath(output, fileName, lo, threads);
    fs[out := fs[out] + fs[part]] - {part}
  }

  /** The loop of `merge_files` from index `lo` on, with the final file already open. */
  function MergeFrom(fs: FileSystem, output: string, fileName: string, threads: nat, lo: nat): MergeOutcome
    requires OutputPath(output, fileName) in fs
    decreases threads - lo
  {
    if lo >= threads then Merged(fs)
    else if PartPath(output, fileName, lo, threads) !in fs then Aborted(lo, fs)
    else
      PartPathIsNotOutput(output, fileName, lo, threads);
      MergeFrom(MergeStep(fs, output, fileName, threads, lo), output, fileName, threads, lo + 1)
  }

  /** One iteration appends checkpoint `lo` to the final file, removes it,
      and leaves the later checkpoints alone. */
  lemma MergeStepParts(fs: FileSystem, output: string, fileName: string, threads: nat, lo: nat)
    requires lo < threads
    requires OutputPath(output, fileName) in fs && PartPath(output, fileName, lo, threads) in fs
    ensures OutputPath(output, fileName) in MergeStep(fs, output, fileName, threads, lo)
    ensures PartPath(output, fileName, lo, threads) !in MergeStep(fs, output, fileName, threads, lo)
    ensures MergeStep(fs, output, fileName, threads, lo)[OutputPath(output, fileName)]
         == fs[OutputPath(output, fileName)] + fs[PartPath(output, fileName, lo, threads)]
    ensures forall j :: lo < j < threads ==>
      SameEntry(fs, MergeStep(fs, output, fileName, threads, lo), PartPath(output, fileName, j, threads))
    ensures !IsPartFrom(output, fileName, threads, lo + 1, PartPath(output, fileName, lo, threads))
  {
    var fs' := MergeStep(fs, output, fileName, threads, lo);
    var part := PartPath(output, fileName, lo, threads);
    PartPathIsNotOutput(output, fileName, lo, threads);
    forall j | lo < j < threads
      ensures SameEntry(fs, fs', PartPath(output, fileName, j, threads))
    {
      PartPathIsNotOutput(output, fileName, j, threads);
      if PartPath(output, fileName, j, threads) == part {
        PartPathInjective(output, fileName, j, threads, lo, threads);
      }
    }
  }

  /** One iteration touches only the final file and checkpoint `lo`. */
  lemma MergeStepOthers(fs: FileSystem, output: string, fileName: string, threads: nat, lo: nat)
    requires lo < threads
    requires OutputPath(output, fileName) in fs && PartPath(output, fileName, lo, threads) in fs
    ensures forall p :: p != OutputPath(output, fileName) && !IsPartFrom(output, fileName, threads, lo, p) ==>
      SameEntry(fs, MergeStep(fs, output, fileName, threads, lo), p)
  {
    assert IsPartFrom(output, fileName, threads, lo, PartPath(output, fileName, lo, threads));
  }

  /** The loop from `lo` touches only the final file and the checkpoints it covers. */
  lemma {:induction false} MergeFromFrame(fs: FileSystem, output: string, fileName: string, threads: nat, lo: nat)
    requires OutputPath(output, fileName) in fs
    ensures OutputPath(output, fileName) in MergeFrom(fs, output, fileName, threads, lo).fs
    ensures forall p :: p != OutputPath(output, fileName) && !IsPartFrom(output, fileName, threads, lo, p) ==>
      SameEntry(fs, MergeFrom(fs, output, fileName, threads, lo).fs, p)
    decreases threads - lo
  {
    if lo < threads && PartPath(output, fileName, lo, threads) in fs {
      var fs' := MergeStep(fs, output, fileName, threads, lo);
      MergeStepParts(fs, output, fileName, threads, lo);
      MergeStepOthers(fs, output, fileName, threads, lo);
      MergeFromFrame(fs', output, fileName, threads, lo + 1);
      assert forall p :: !IsPartFrom(output, fileName, threads, lo, p) ==> !IsPartFrom(output, fileName, threads, lo + 1, p);
    }
  }

  /** The loop from `lo` succeeds exactly when every remaining checkpoint
      exists; it then appends them to the final file in ascending index order
      and deletes them. */
  lemma {:induction false} MergeFromSucceeds(fs: FileSystem, output: string, fileName: string, threads: nat, lo: nat)
    requires OutputPath(output, fileName) in fs
    ensures var r := MergeFrom(fs, output, fileName, threads, lo);
      && (r.Merged? <==> PartsPresent(fs, output, fileName, threads, lo, threads))
      && (r.Merged? ==>
        && PartsAbsent(r.fs, output, fileName, threads, lo, threads)
        && OutputPath(output, fileName) in r.fs
        && r.fs[OutputPath(output, fileName)]
           == fs[OutputPath(output, fileName)] + Joined(fs, output, fileName, threads, lo, threads))
    decreases threads - lo
  {
    MergeFromFrame(fs, output, fileName, threads, lo);
    if lo < threads && PartPath(output, fileName, lo, threads) in fs {
      var fs' := MergeStep(fs, output, fileName, threads, lo);
      MergeStepParts(fs, output, fileName, threads, lo);
      MergeFromSucceeds(fs', output, fileName, threads, lo + 1);
      MergeFromFrame(fs', output, fileName, threads, lo + 1);
      if PartsPresent(fs, output, fileName, threads, lo + 1, threads) {
        JoinedFrame(fs, fs', output, fileName, threads, lo + 1, threads);
      } else {
        var j :| lo + 1 <= j < threads && PartPath(output, fileName, j, threads) !in fs;
        assert SameEntry(fs, fs', PartPath(output, fileName, j, threads));
      }
    }
  }

  /** The frame of the loop, at one path. */
  lemma MergeFromFrameAt(fs: FileSystem, output: string, fileName: string, threads: nat, lo: nat, p: string)
    requires OutputPath(output, fileName) in fs
    requires p != OutputPath(output, fileName) && !IsPartFrom(output, fileName, threads, lo, p)
    ensures SameEntry(fs, MergeFrom(fs, output, fileName, threads, lo).fs, p)
  {
    MergeFromFrame(fs, output, fileName, threads, lo);
  }

  /** When a checkpoint is missing the loop stops at the first missing one. */
  lemma {:induction false} MergeFromAbortsAtFirstGap(fs: FileSystem, output: string, fileName: string, threads: nat, lo: nat)
    requires OutputPath(output, fileName) in fs
    ensures var r := MergeFrom(fs, output, fileName, threads, lo);
      r.Aborted? ==>
        && lo <= r.missing < threads
        && PartPath(output, fileName, r.missing, threads) !in fs
        && PartsPresent(fs, output, fileName, threads, lo, r.missing)
    decreases threads - lo
  {
    var part := PartPath(output, fileName, lo, threads);
    if lo < threads && part in fs {
      var fs' := MergeStep(fs, output, fileName, threads, lo);
      MergeStepParts(fs, output, fileName, threads, lo);
      MergeFromAbortsAtFirstGap(fs', output, fileName, threads, lo + 1);
      var r := MergeFrom(fs', output, fileName, threads, lo + 1);
      assert MergeFrom(fs, output, fileName, threads, lo) == r;
      if r.Aborted? {
        assert SameEntry(fs, fs', PartPath(output, fileName, r.missing, threads));
      }
    }
  }

  /** When the loop stops on a missing checkpoint, the ones before it have
      already been deleted. */
  lemma {:induction false} MergeFromAbortsRemoved(fs: FileSystem, output: string, fileName: string, threads: nat, lo: nat)
    requires OutputPath(output, fileName) in fs
    ensures var r := MergeFrom(fs, output, fileName, threads, lo);
      r.Aborted? ==> PartsAbsent(r.fs, output, fileName, threads, lo, r.missing)
    decreases threads - lo
  {
    var part := PartPath(output, fileName, lo, threads);
    if lo < threads && part in fs {
      var fs' := MergeStep(fs, output, fileName, threads, lo);
      MergeStepParts(fs, output, fileName, threads, lo);
      MergeFromAbortsRemoved(fs', output, fileName, threads, lo + 1);
      MergeFromFrameAt(fs', output, fileName, threads, lo + 1, part);
      assert MergeFrom(fs, output, fileName, threads, lo) == MergeFrom(fs', output, fileName, threads, lo + 1);
    }
  }

  /** When the loop stops on a missing checkpoint, the ones before it have
      already been appended to the final file, in order. */
  lemma {:induction false} MergeFromAborts(fs: FileSystem, output: string, fileName: string, threads: nat, lo: nat)
    requires OutputPath(output, fileName) in fs
    ensures var r := MergeFrom(fs, output, fileName, threads, lo);
      r.Aborted? ==>
        && PartsPresent(fs, output, fileName, threads, lo, r.missing)
        && OutputPath(output, fileName) in r.fs
        && r.fs[OutputPath(output, fileName)]
           == fs[OutputPath(output, fileName)] + Joined(fs, output, fileName, threads, lo, r.missing)
    decreases threads - lo
  {
    var out := OutputPath(output, fileName);
    var part := PartPath(output, fileName, lo, threads);
    MergeFromAbortsAtFirstGap(fs, output, fileName, threads, lo);
    if lo < threads && part !in fs {
      assert Joined(fs, output, fileName, threads, lo, lo) == [];
    } else if lo < threads {
      var fs' := MergeStep(fs, output, fileName, threads, lo);
      MergeStepParts(fs, output, fileName, threads, lo);
      MergeFromAborts(fs', output, fileName, threads, lo + 1);
      var r := MergeFrom(fs', output, fileName, threads, lo + 1);
      assert MergeFrom(fs, output, fileName, threads, lo) == r;
      if r.Aborted? {
        var m := r.missing;
        assert lo < m;
        JoinedFrame(fs, fs', output, fileName, threads, lo + 1, m);
        var rest := Joined(fs, output, fileName, threads, lo + 1, m);
        assert Joined(fs, output, fileName, threads, lo, m) == fs[part] + rest;
        assert r.fs[out] == fs'[out] + rest;
        assert fs'[out] == fs[out] + fs[part];
      }
    }
  }

  /** Truncating the final file leaves every checkpoint as it was. */
  lemma TruncateKeepsParts(fs: FileSystem, output: string, fileName: string, threads: nat)
    ensures forall j :: 0 <= j < threads ==>
      SameEntry(fs, fs[OutputPath(output, fileName) := []], PartPath(output, fileName, j, threads))
  {
    forall j | 0 <= j < threads
      ensures SameEntry(fs, fs[OutputPath(output, fileName) := []], PartPath(output, fileName, j, threads))
    {
      PartPathIsNotOutput(output, fileName, j, threads);
    }
  }

  /** `merge_files(output, file_name, threads)`. The final file is created
      empty first, so what it held before is discarded. On success it holds
      checkpoints 0 .. threads - 1 concatenated in ascending index order and
      those checkpoints are gone; the first missing checkpoint aborts the
      merge with the earlier ones already consumed. No other file changes. */
  function MergeFiles(fs: FileSystem, output: string, fileName: string, threads: nat): (r: MergeOutcome)
    ensures r.Merged? <==> PartsPresent(fs, output, fileName, threads, 0, threads)
    ensures r.Merged? ==>
      && PartsAbsent(r.fs, output, fileName, threads, 0, threads)
      && OutputPath(output, fileName) in r.fs
      && r.fs[OutputPath(output, fileName)] == Joined(fs, output, fileName, threads, 0, threads)
    ensures r.Aborted? ==>
      && r.missing < threads
      && PartPath(output, fileName, r.missing, threads) !in fs
      && PartsPresent(fs, output, fileName, threads, 0, r.missing)
      && PartsAbsent(r.fs, output, fileName, threads, 0, r.missing)
      && OutputPath(output, fileName) in r.fs
      && r.fs[OutputPath(output, fileName)] == Joined(fs, output, fileName, threads, 0, r.missing)
    ensures forall p :: p != OutputPath(output, fileName) && !IsPartFrom(output, fileName, threads, 0, p) ==>
      SameEntry(fs, r.fs, p)
  {
    var created := fs[OutputPath(output, fileName) := []];
    TruncateKeepsParts(fs, output, fileName, threads);
    MergeFromFrame(created, output, fileName, threads, 0);
    MergeFromSucceeds(created, output, fileName, threads, 0);
    MergeFromAbortsAtFirstGap(created, output, fileName, threads, 0);
    MergeFromAbortsRemoved(created, output, fileName, threads, 0);
    MergeFromAborts(created, output, fileName, threads, 0);
    var r := MergeFrom(created, output, fileName, threads, 0);
    if r.Merged? then
      JoinedFrame(created, fs, output, fileName, threads, 0, threads);
      r
    else
      JoinedFrame(created, fs, output, fileName, threads, 0, r.missing);
      r
  }

  /** The tree after the fetchers of a `|files|`-segment download have left
      segment `i`'s bytes `files[i]` in its checkpoint, for i < k. */
  function StoreParts(fs: FileSystem, output: string, fileName: string, files: seq<seq<byte>>, k: nat): FileSystem
    requires k <= |files|
  {
    if k == 0 then fs
    else StoreParts(fs, output, fileName, files, k - 1)[PartPath(output, fileName, k - 1, |files|) := files[k - 1]]
  }

  lemma {:induction false} StorePartsContents(fs: FileSystem, output: string, fileName: string, files: seq<seq<byte>>, k: nat)
    requires k <= |files|
    ensures forall j :: 0 <= j < k ==>
      PartPath(output, fileName, j, |files|) in StoreParts(fs, output, fileName, files, k) &&
      StoreParts(fs, output, fileName, files, k)[PartPath(output, fileName, j, |files|)] == files[j]
  {
    if k > 0 {
      StorePartsContents(fs, output, fileName, files, k - 1);
      forall j | 0 <= j < k - 1
        ensures PartPath(output, fileName, j, |files|) != PartPath(output, fileName, k - 1, |files|)
      {
        if PartPath(output, fileName, j, |files|) == PartPath(output, fileName, k - 1, |files|) {
          PartPathInjective(output, fileName, j, |files|, k - 1, |files|);
        }
      }
    }
  }

  lemma {:induction false} JoinedStored(fs: FileSystem, output: string, fileName: string, files: seq<seq<byte>>, lo: nat)
    requires lo <= |files|
    requires forall j :: 0 <= j < |files| ==>
      PartPath(output, fileName, j, |files|) in fs && fs[PartPath(output, fileName, j, |files|)] == files[j]
    ensures PartsPresent(fs, output, fileName, |files|, lo, |files|)
    ensures Joined(fs, output, fileName, |files|, lo, |files|) == Flatten(files[lo..])
    decreases |files| - lo
  {
    if lo < |files| {
      JoinedStored(fs, output, fileName, files, lo + 1);
      assert files[lo..][1..] == files[lo + 1..];
    }
  }

  /** The fetchers and the merger agree on checkpoint names: whatever bytes
      the segments left in their checkpoints, the merge finds all of them and
      the final file is their concatenation in segment order. */
  lemma CheckpointsReassemble(fs: FileSystem, output: string, fileName: string, files: seq<seq<byte>>)
    ensures var r := MergeFiles(StoreParts(fs, output, fileName, files, |files|), output, fileName, |files|);
      && r.Merged?
      && r.fs[OutputPath(output, fileName)] == Flatten(files)
      && PartsAbsent(r.fs, output, fileName, |files|, 0, |files|)
  {
    var stored := StoreParts(fs, output, fileName, files, |files|);
    StorePartsContents(fs, output, fileName, files, |files|);
    JoinedStored(stored, output, fileName, files, 0);
    assert files[0..] == files;
  }

  /** The unit test's scenario: parts "Hello" and "World" merge into "HelloWorld". */
  lemma HelloWorldMerge()
    ensures var hello: seq<byte> := [72, 101, 108, 108, 111];
      var world: seq<byte> := [87, 111, 114, 108, 100];
      var fs := map[PartPath("tests", "test.txt", 0, 2) := hello, PartPath("tests", "test.txt", 1, 2) := world];
      var r := MergeFiles(fs, "tests", "test.txt", 2);
      && r.Merged?
      && r.fs[OutputPath("tests", "test.txt")] == hello + world
      && r.fs.Keys == {OutputPath("tests", "test.txt")}
  {
    var hello: seq<byte> := [72, 101, 108, 108, 111];
    var world: seq<byte> := [87, 111, 114, 108, 100];
    var p0, p1 := PartPath("tests", "test.txt", 0, 2), PartPath("tests", "test.txt", 1, 2);
    var fs := map[p0 := hello, p1 := world];
    if p0 == p1 {
      PartPathInjective("tests", "test.txt", 0, 2, 1, 2);
    }
    assert PartsPresent(fs, "tests", "test.txt", 2, 0, 2);
    var r := MergeFiles(fs, "tests", "test.txt", 2);
    assert Joined(fs, "tests", "test.txt", 2, 0, 2) == hello + world;
  }
}
