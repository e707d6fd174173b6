/**
 * Captured process output: chunks appended within a byte limit, and the path list read from a
 * NUL-terminated listing that may have been cut. One character stands for one byte.
 */
module ProcessOutput {
  import opened Text

  function Concat(chunks: seq<string>): string {
    if chunks == [] then "" else Concat(chunks[..|chunks| - 1]) + chunks[|chunks| - 1]
  }

  function Clamp(limit: int): nat { if limit < 0 then 0 else limit }

  /** The first `limit` bytes. */
  function Kept(all: string, limit: int): string {
    if |all| <= Clamp(limit) then all else all[..Clamp(limit)]
  }

  /** Bytes were lost, or an empty chunk came when the limit had been reached. */
  predicate Flagged(chunks: seq<string>, limit: int) {
    |Concat(chunks)| > Clamp(limit) || EmptyAtLimit(chunks, limit)
  }

  datatype Appended = Appended(next: string, nextBytes: nat, truncated: bool)

  function AppendChunkWithinLimit(target: string, currentBytes: nat, chunk: string, maxBytes: int): Appended {
    var remaining := maxBytes - currentBytes;
    if remaining <= 0 then Appended(target, currentBytes, true)
    else if |chunk| <= remaining then Appended(target + chunk, currentBytes + |chunk|, false)
    else Appended(target + chunk[..remaining], currentBytes + remaining, true)
  }

  /** runProcess in "truncate" mode, as far as one output stream is concerned. */
  class Stream {
    const maxBufferBytes: int
    var text: string
    var bytes: nat
    var truncated: bool
    ghost var chunks: seq<string>

    ghost predicate Valid()
      reads this
    {
      text == Kept(Concat(chunks), maxBufferBytes) && bytes == |text|
      && (truncated <==> Flagged(chunks, maxBufferBytes))
    }

    constructor (maxBufferBytes: int)
      ensures Valid() && chunks == [] && this.maxBufferBytes == maxBufferBytes
    {
      this.maxBufferBytes := maxBufferBytes;
      text, bytes, truncated, chunks := "", 0, false, [];
    }

    method OnData(chunk: string)
      requires Valid()
      modifies this
      ensures Valid() && chunks == old(chunks) + [chunk]
    {
      hide Flagged, Concat;
      FlaggedMore(chunks, chunk, maxBufferBytes);
      var appended := AppendChunkWithinLimit(text, bytes, chunk, maxBufferBytes);
      text := appended.next;
      bytes := appended.nextBytes;
      truncated := truncated || appended.truncated;
      chunks := chunks + [chunk];
    }
  }

  /** Some empty chunk came when the limit had been reached. */
  predicate EmptyAtLimit(chunks: seq<string>, limit: int) {
    exists i | 0 <= i < |chunks| :: chunks[i] == "" && |Concat(chunks[..i])| >= limit
  }

  lemma ConcatMore(chunks: seq<string>, chunk: string)
    ensures Concat(chunks + [chunk]) == Concat(chunks) + chunk
  {
    assert (chunks + [chunk])[..|chunks|] == chunks;
  }

  lemma EmptyAtLimitMore(chunks: seq<string>, chunk: string, limit: int)
    ensures EmptyAtLimit(chunks + [chunk], limit) <==>
      EmptyAtLimit(chunks, limit) || (chunk == "" && |Concat(chunks)| >= limit)
  {
    hide Concat;
    var more := chunks + [chunk];
    assert more[..|chunks|] == chunks && more[|chunks|] == chunk;
    assert forall i | 0 <= i < |chunks| :: more[..i] == chunks[..i] && more[i] == chunks[i];
    if i :| 0 <= i < |chunks| && chunks[i] == "" && |Concat(chunks[..i])| >= limit {
      assert more[i] == "" && |Concat(more[..i])| >= limit;
    }
    if i :| 0 <= i < |more| && more[i] == "" && |Concat(more[..i])| >= limit {
      assert i < |chunks| ==> chunks[i] == "" && |Concat(chunks[..i])| >= limit;
    }
  }

  lemma FlaggedMore(chunks: seq<string>, chunk: string, limit: int)
    ensures Concat(chunks + [chunk]) == Concat(chunks) + chunk
    ensures Flagged(chunks + [chunk], limit) <==>
      Flagged(chunks, limit) || |Concat(chunks)| + |chunk| > Clamp(limit) || (chunk == "" && |Concat(chunks)| >= limit)
  {
    hide Concat, EmptyAtLimit;
    ConcatMore(chunks, chunk);
    EmptyAtLimitMore(chunks, chunk, limit);
  }

  /**
   * The flag tells loss from no loss exactly when bytes were lost or every empty chunk came before
   * the limit had been reached; so it does for non-empty chunks.
   */
  lemma FlagIsLossExactly(chunks: seq<string>, limit: int)
    ensures (Flagged(chunks, limit) <==> Kept(Concat(chunks), limit) != Concat(chunks)) <==>
      || |Concat(chunks)| > Clamp(limit)
      || forall i | 0 <= i < |chunks| && chunks[i] == "" :: |Concat(chunks[..i])| < limit
    ensures "" !in chunks ==> (Flagged(chunks, limit) <==> Kept(Concat(chunks), limit) != Concat(chunks))
  {
    assert |Concat(chunks)| > Clamp(limit) ==> |Kept(Concat(chunks), limit)| == Clamp(limit);
  }

  /** An empty chunk when nothing may be kept: flagged, though nothing is lost. */
  lemma FlaggedWithoutLoss()
    ensures Flagged([""], 0) && Kept(Concat([""]), 0) == Concat([""])
  {
    assert [""][..0] == [] && [""][0] == "" && Concat([""]) == Concat([]) + "";
  }

  // ----- Path listings ------------------------------------------------------------------

  function NonEmpty(parts: seq<string>): seq<string> {
    if parts == [] then []
    else (if parts[0] == "" then [] else [parts[0]]) + NonEmpty(parts[1..])
  }

  function SplitNullSeparatedPaths(input: string, truncated: bool): seq<string> {
    var parts := Split(input, "\0");
    NonEmpty(if truncated && parts[|parts| - 1] != "" then parts[..|parts| - 1] else parts)
  }

  /** What git prints with -z. */
  function Listing(paths: seq<string>): string {
    if paths == [] then "" else paths[0] + "\0" + Listing(paths[1..])
  }

  predicate ListedPaths(paths: seq<string>) {
    forall p | p in paths :: p != "" && '\0' !in p
  }

  /** The paths whose terminator lies within the first k bytes of the listing. */
  function Terminated(paths: seq<string>, k: nat): (n: nat)
    ensures n <= |paths|
  {
    if paths == [] || k <= |paths[0]| then 0 else 1 + Terminated(paths[1..], k - |paths[0]| - 1)
  }

  /** The bytes behind the last terminator. */
  lemma {:induction false} SplitCut(paths: seq<string>, k: nat) returns (tail: string)
    requires ListedPaths(paths) && k <= |Listing(paths)|
    ensures Split(Listing(paths)[..k], "\0") == paths[..Terminated(paths, k)] + [tail]
    ensures k == |Listing(paths)| ==> tail == "" && Terminated(paths, k) == |paths|
    decreases |paths|
  {
    if paths == [] {
      tail := "";
      assert Listing(paths)[..k] == "";
    } else {
      var first, rest := paths[0], Listing(paths[1..]);
      assert first in paths && forall p | p in paths[1..] :: p in paths;
      hide Split;
      if k <= |first| {
        tail := first[..k];
        assert Listing(paths)[..k] == tail;
        assert '\0' !in tail;
        CharStartsNowhere('\0', tail, "");
        SplitNone(tail, "\0");
      } else {
        var j := k - |first| - 1;
        assert Listing(paths)[..k] == first + "\0" + rest[..j];
        tail := SplitCut(paths[1..], j);
        CharStartsNowhere('\0', first, "\0" + rest[..j]);
        SplitFirst(first, rest[..j], "\0");
        var n := Terminated(paths[1..], j);
        assert [first] + (paths[1..][..n] + [tail]) == paths[..n + 1] + [tail];
      }
    }
  }

  lemma {:induction false} NonEmptyOf(paths: seq<string>, more: seq<string>)
    requires forall p | p in paths :: p != ""
    ensures NonEmpty(paths + more) == paths + NonEmpty(more)
  {
    if paths == [] {
      assert paths + more == more;
    } else {
      assert (paths + more)[1..] == paths[1..] + more;
      assert forall p | p in paths[1..] :: p in paths;
      assert paths[0] in paths;
      NonEmptyOf(paths[1..], more);
      assert paths == [paths[0]] + paths[1..];
    }
  }

  /**
   * A listing cut anywhere and split with the truncation flag gives exactly the paths that are
   * wholly there; an uncut listing gives all of them, whatever the flag.
   */
  lemma CutListing(paths: seq<string>, k: nat, truncated: bool)
    requires ListedPaths(paths) && k <= |Listing(paths)| && (k < |Listing(paths)| ==> truncated)
    ensures SplitNullSeparatedPaths(Listing(paths)[..k], truncated) == paths[..Terminated(paths, k)]
    ensures k == |Listing(paths)| ==> Terminated(paths, k) == |paths|
  {
    var tail := SplitCut(paths, k);
    var whole := paths[..Terminated(paths, k)];
    assert forall p | p in whole :: p in paths;
    NonEmptyOf(whole, []);
    NonEmptyOf(whole, [""]);
    assert (whole + [tail])[..|whole|] == whole && whole + [] == whole;
    assert NonEmpty([""]) == [] + NonEmpty([""][1..]);
  }

  /** End to end: the paths read from a captured listing are a prefix, and all of them unless bytes were lost. */
  lemma CapturedListing(paths: seq<string>, chunks: seq<string>, limit: int)
    requires ListedPaths(paths) && Concat(chunks) == Listing(paths)
    ensures var read := SplitNullSeparatedPaths(Kept(Concat(chunks), limit), Flagged(chunks, limit));
      read <= paths && (!Flagged(chunks, limit) ==> read == paths)
  {
    var all := Listing(paths);
    var k := |Kept(all, limit)|;
    assert all[..k] == Kept(all, limit);
    CutListing(paths, k, Flagged(chunks, limit));
  }
}
