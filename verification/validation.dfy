/** The pure decisions of the capability probe and of link validation: the
    prefix check on the link, the header decision on the HEAD response, and the
    derivation of the file name from the resolved URL path. The HTTP exchange
    itself is replaced by its outcome, a `Result<HeadResponse>`. */
module Validation {
  import opened Types

  const EmptyLink := "The link is empty"
  const InvalidLink := "The link is not valid"
  const MissingContentLength := "The server did not return the content length"
  const RangesUnsupported := "The server does not support range requests"

  /** Character-by-character prefix test, as `str::starts_with` performs it. */
  function StartsWith(s: string, prefix: string): bool
  {
    |prefix| == 0 || (|s| > 0 && s[0] == prefix[0] && StartsWith(s[1..], prefix[1..]))
  }

  /** The character scan agrees with Dafny's sequence-prefix relation. */
  lemma {:induction false} StartsWithIsPrefix(s: string, prefix: string)
    ensures StartsWith(s, prefix) <==> prefix <= s
  {
    if |prefix| > 0 && |s| > 0 && s[0] == prefix[0] {
      StartsWithIsPrefix(s[1..], prefix[1..]);
      assert prefix <= s <==> prefix[1..] <= s[1..];
    }
  }

  /** `validate_url`: an empty link and a link with neither scheme prefix are
      rejected with distinct messages; emptiness is tested first. */
  function ValidateUrl(url: string): (r: Result<()>)
    ensures r.Ok? <==> ("http://" <= url || "https://" <= url)
    ensures |url| == 0 ==> r == Err(EmptyLink)
    ensures |url| > 0 && r.Err? ==> r == Err(InvalidLink)
  {
    StartsWithIsPrefix(url, "http://");
    StartsWithIsPrefix(url, "https://");
    if |url| == 0 then Err(EmptyLink)
    else if !StartsWith(url, "http://") && !StartsWith(url, "https://") then Err(InvalidLink)
    else Ok(())
  }

  /** Pieces glued back with the separator between consecutive pieces. */
  function Join(parts: seq<string>, sep: char): string
  {
    if |parts| == 0 then ""
    else if |parts| == 1 then parts[0]
    else parts[0] + [sep] + Join(parts[1..], sep)
  }

  /** `str::split` on a one-character separator: the pieces between
      separators, including the empty ones at either end. */
  function Split(s: string, sep: char): (parts: seq<string>)
    ensures |parts| >= 1
    ensures forall i :: 0 <= i < |parts| ==> sep !in parts[i]
    ensures Join(parts, sep) == s
    decreases |s|
  {
    if |s| == 0 then [""]
    else
      var rest := Split(s[1..], sep);
      if s[0] == sep then
        assert s == [sep] + s[1..];
        [""] + rest
      else
        var parts := [[s[0]] + rest[0]] + rest[1..];
        assert Join(parts, sep) == [s[0]] + Join(rest, sep) by {
          if |rest| > 1 {
            assert parts[1..] == rest[1..];
          }
        }
        assert s == [s[0]] + s[1..];
        parts
  }

  /** The joined string ends with the last piece, preceded by a separator when
      there is more than one piece. */
  lemma {:induction false} JoinEndsWithLast(parts: seq<string>, sep: char)
    requires |parts| >= 1
    ensures |parts[|parts| - 1]| <= |Join(parts, sep)|
    ensures Join(parts, sep)[|Join(parts, sep)| - |parts[|parts| - 1]|..] == parts[|parts| - 1]
    ensures |parts| > 1 ==>
      |parts[|parts| - 1]| < |Join(parts, sep)| &&
      Join(parts, sep)[|Join(parts, sep)| - |parts[|parts| - 1]| - 1] == sep
  {
    if |parts| > 1 {
      JoinEndsWithLast(parts[1..], sep);
      var tail := Join(parts[1..], sep);
      var whole := Join(parts, sep);
      assert whole == parts[0] + [sep] + tail;
      assert parts[1..][|parts[1..]| - 1] == parts[|parts| - 1];
      var last := parts[|parts| - 1];
      assert whole[|whole| - |last|..] == tail[|tail| - |last|..];
      if |parts| > 2 {
        assert whole[|whole| - |last| - 1] == tail[|tail| - |last| - 1];
      } else {
        assert tail == last;
      }
    }
  }

  /** The file name the probe derives: the last `/`-separated piece of the
      resolved path. Splitting always yields a piece, so the source's `unwrap`
      cannot fail; the name is empty exactly when the path ends in `/` or is
      empty. */
  function FileNameOf(path: string): (name: string)
    ensures '/' !in name
    ensures |name| <= |path| && path[|path| - |name|..] == name
    ensures |name| < |path| ==> path[|path| - |name| - 1] == '/'
  {
    var parts := Split(path, '/');
    JoinEndsWithLast(parts, '/');
    parts[|parts| - 1]
  }

  /** What the HEAD request returned, headers already looked up: the resolved
      URL path, the Content-Length value as a number, and the raw
      Accept-Ranges value. */
  datatype HeadResponse = HeadResponse(path: string, contentLength: Option<nat>, acceptRanges: Option<string>)

  /** `check_server_compatibility`: a transport error is reported as is; then
      a missing Content-Length wins over everything else, then a missing
      Accept-Ranges; otherwise the length and derived name are returned. */
  function CheckServerCompatibility(head: Result<HeadResponse>): (r: Result<(nat, string)>)
    ensures head.Err? ==> r == Err("Error: " + head.error)
    ensures head.Ok? ==> (r.Ok? <==> head.value.contentLength.Some? && head.value.acceptRanges.Some?)
    ensures head.Ok? && head.value.contentLength.None? ==> r == Err(MissingContentLength)
    ensures head.Ok? && head.value.contentLength.Some? && head.value.acceptRanges.None? ==>
      r == Err(RangesUnsupported)
    ensures r.Ok? ==> r.value.0 == head.value.contentLength.value && r.value.1 == FileNameOf(head.value.path)
  {
    match head
    case Err(e) => Err("Error: " + e)
    case Ok(response) =>
      var fileName := FileNameOf(response.path);
      match response.contentLength
      case Some(length) =>
        (match response.acceptRanges
         case Some(_) => Ok((length, fileName))
         case None => Err(RangesUnsupported))
      case None => Err(MissingContentLength)
  }

  /** Only the presence of Accept-Ranges matters: "none" is accepted like "bytes". */
  lemma AcceptRangesValueIgnored(path: string, length: Option<nat>, a: string, b: string)
    ensures CheckServerCompatibility(Ok(HeadResponse(path, length, Some(a))))
         == CheckServerCompatibility(Ok(HeadResponse(path, length, Some(b))))
  {
  }
}
