/** File naming shared by the segment fetcher and the reassembler: the final
    file is `{output}/{file_name}` and the checkpoint of segment `index` out of
    `total` is `{output}/{file_name}.part{index}_{total}`. Both sides build the
    name through the same function, so they agree by construction; the lemmas
    show that the names never collide. */
module PartFiles {
  import opened Types
  import opened Decimal

  /** The directory tree, flattened to a map from full path to file content. */
  type FileSystem = map<string, seq<byte>>

  /** `p` holds the same content, or is equally absent, in both trees. */
  predicate SameEntry(fs: FileSystem, fs': FileSystem, p: string)
  {
    (p in fs <==> p in fs') && (p in fs ==> fs'[p] == fs[p])
  }

  /** Where the reassembled file is written. */
  function OutputPath(output: string, fileName: string): string
  {
    output + "/" + fileName
  }

  /** Where segment `index` of `total` keeps its downloaded bytes. */
  function PartPath(output: string, fileName: string, index: nat, total: nat): string
  {
    OutputPath(output, fileName) + ".part" + Digits(index) + "_" + Digits(total)
  }

  /** A checkpoint never overwrites or is overwritten by the final file. */
  lemma PartPathIsNotOutput(output: string, fileName: string, index: nat, total: nat)
    ensures PartPath(output, fileName, index, total) != OutputPath(output, fileName)
  {
    assert |PartPath(output, fileName, index, total)| > |OutputPath(output, fileName)|;
  }

  /** In "{x}_{y}" with x made of digits, the first underscore sits right after x. */
  lemma FirstUnderscore(x: string, y: string)
    requires AllDigits(x)
    ensures (x + "_" + y)[|x|] == '_'
    ensures forall k :: 0 <= k < |x| ==> (x + "_" + y)[k] != '_'
  {
    forall k | 0 <= k < |x|
      ensures (x + "_" + y)[k] != '_'
    {
      assert (x + "_" + y)[k] == x[k];
    }
  }

  /** Digit strings contain no underscore, so "{x}_{y}" determines x and y. */
  lemma UnderscoreSplit(x: string, y: string, x': string, y': string)
    requires AllDigits(x) && AllDigits(x')
    requires x + "_" + y == x' + "_" + y'
    ensures x == x' && y == y'
  {
    var a, b := x + "_" + y, x' + "_" + y';
    FirstUnderscore(x, y);
    FirstUnderscore(x', y');
    assert |x| == |x'|;
    assert x == a[..|x|] && x' == b[..|x'|];
    assert y == a[|x| + 1..] && y' == b[|x'| + 1..];
  }

  /** Distinct segments (or distinct segment counts) use distinct checkpoints. */
  lemma PartPathInjective(output: string, fileName: string, i: nat, t: nat, j: nat, u: nat)
    requires PartPath(output, fileName, i, t) == PartPath(output, fileName, j, u)
    ensures i == j && t == u
  {
    var k := |OutputPath(output, fileName)| + 5;
    assert PartPath(output, fileName, i, t)[k..] == Digits(i) + "_" + Digits(t);
    assert PartPath(output, fileName, j, u)[k..] == Digits(j) + "_" + Digits(u);
    assert PartPath(output, fileName, i, t)[k..] == PartPath(output, fileName, j, u)[k..];
    UnderscoreSplit(Digits(i), Digits(t), Digits(j), Digits(u));
    DigitsInjective(i, j);
    DigitsInjective(t, u);
  }
}
