/** Streaming search for the version marker in a staged candidate image: each chunk is searched on its
    own and together with the carried end of the chunks before it. */
module MarkerScan {
  import opened Common
  import opened Bits
  import opened Slices

  const MAX_MARKER: nat := 128

  predicate Occurs(needle: seq<Byte>, hay: seq<Byte>) {
    exists i :: 0 <= i <= |hay| - |needle| && OccursAt(needle, hay, i)
  }

  predicate OccursAt(needle: seq<Byte>, hay: seq<Byte>, i: nat)
    requires i + |needle| <= |hay|
  {
    hay[i..i + |needle|] == needle
  }

  function First(s: seq<Byte>, n: nat): seq<Byte> {
    s[..Min(n, |s|)]
  }

  function Last(s: seq<Byte>, n: nat): seq<Byte> {
    s[|s| - Min(n, |s|)..]
  }

  lemma OccursInPart(m: seq<Byte>, whole: seq<Byte>, from: nat, part: seq<Byte>)
    requires from + |part| <= |whole| && part == whole[from..from + |part|] && Occurs(m, part)
    ensures Occurs(m, whole)
  {
    var i :| 0 <= i <= |part| - |m| && OccursAt(m, part, i);
    SliceOfSlice(whole, from, from + |part|, i, i + |m|);
    assert OccursAt(m, whole, from + i);
  }

  lemma OccursAtInPart(m: seq<Byte>, whole: seq<Byte>, from: nat, part: seq<Byte>, i: nat)
    requires from + |part| <= |whole| && part == whole[from..from + |part|]
    requires from <= i && i + |m| <= from + |part| && OccursAt(m, whole, i)
    ensures Occurs(m, part)
  {
    SliceOfSlice(whole, from, from + |part|, i - from, i - from + |m|);
    assert OccursAt(m, part, i - from);
  }

  /** An occurrence in a concatenation lies in one part, or across the seam within reach of it. */
  lemma OccursAcross(m: seq<Byte>, a: seq<Byte>, b: seq<Byte>)
    requires |m| > 0
    ensures Occurs(m, a + b) <==> Occurs(m, a) || Occurs(m, b) || Occurs(m, Last(a, |m| - 1) + First(b, |m| - 1))
  {
    hide Occurs, OccursAt, Last, First;
    var k := |m| - 1;
    var seam := Last(a, k) + First(b, k);
    var shift := |a| - Min(k, |a|);
    SeamIsPart(a, b, k);
    if Occurs(m, a) {
      OccursInPart(m, a + b, 0, a);
    } else if Occurs(m, b) {
      OccursInPart(m, a + b, |a|, b);
    } else if Occurs(m, seam) {
      OccursInPart(m, a + b, shift, seam);
    } else if Occurs(m, a + b) {
      var i := Occurrence(m, a + b);
      if i + |m| <= |a| {
        OccursAtInPart(m, a + b, 0, a, i);
      } else if i >= |a| {
        OccursAtInPart(m, a + b, |a|, b, i);
      } else {
        SeamReaches(a, b, k, i);
        OccursAtInPart(m, a + b, shift, seam, i);
      }
    }
  }

  lemma SeamIsPart(a: seq<Byte>, b: seq<Byte>, k: nat)
    ensures var seam, shift := Last(a, k) + First(b, k), |a| - Min(k, |a|);
            && shift + |seam| <= |a + b| && seam == (a + b)[shift..shift + |seam|]
            && a == (a + b)[0..|a|] && b == (a + b)[|a|..|a| + |b|]
  {}

  lemma SeamReaches(a: seq<Byte>, b: seq<Byte>, k: nat, i: nat)
    requires i < |a| < i + k + 1 <= |a + b|
    ensures var seam, shift := Last(a, k) + First(b, k), |a| - Min(k, |a|);
            shift <= i && i + k + 1 <= shift + |seam|
  {}

  lemma Occurrence(m: seq<Byte>, s: seq<Byte>) returns (i: nat)
    requires Occurs(m, s)
    ensures i + |m| <= |s| && OccursAt(m, s, i)
  {
    var j :| 0 <= j <= |s| - |m| && OccursAt(m, s, j);
    i := j;
  }

  /** Only the last `k` bytes matter for the next seam, and they can be kept chunk by chunk. */
  lemma LastOfConcat(a: seq<Byte>, b: seq<Byte>, k: nat)
    ensures |b| >= k ==> Last(a + b, k) == Last(b, k)
    ensures |b| < k ==> Last(a + b, k) == Last(Last(a, k) + b, k)
  {}

  method MemContains(hay: seq<Byte>, needle: seq<Byte>) returns (found: bool)
    ensures found <==> Occurs(needle, hay)
  {
    if |needle| == 0 {
      assert OccursAt(needle, hay, 0);
      return true;
    }
    if |hay| < |needle| {
      return false;
    }
    var i := 0;
    while i + |needle| <= |hay|
      invariant forall j :: 0 <= j < i && j + |needle| <= |hay| ==> !OccursAt(needle, hay, j)
    {
      if hay[i..i + |needle|] == needle {
        assert OccursAt(needle, hay, i);
        return true;
      }
      i := i + 1;
    }
    return false;
  }

  /** The carried tail after one more chunk. */
  method KeepTail(tail: array<Byte>, tailLen: nat, buf: seq<Byte>, markerLen: nat) returns (newLen: nat)
    requires tail.Length == MAX_MARKER && 0 < markerLen <= MAX_MARKER && tailLen < markerLen
    modifies tail
    ensures newLen < markerLen && newLen <= tail.Length
    ensures tail[..newLen] == Last(old(tail[..tailLen]) + buf, markerLen - 1)
  {
    newLen := tailLen;
    ghost var carried := tail[..tailLen];
    if markerLen > 1 {
      var keep := Min(markerLen - 1, MAX_MARKER);
      if |buf| >= keep {
        LastOfConcat(carried, buf, keep);
        Copy(tail, 0, buf[|buf| - keep..]);
        newLen := keep;
      } else {
        var merged := new Byte[MAX_MARKER * 2];
        var mergedLen := tailLen + |buf|;
        Copy(merged, 0, tail[..tailLen]);
        Copy(merged, tailLen, buf);
        assert merged[..mergedLen] == carried + buf;
        if mergedLen > keep {
          Copy(tail, 0, merged[mergedLen - keep..mergedLen]);
          newLen := keep;
        } else {
          Copy(tail, 0, merged[..mergedLen]);
          newLen := mergedLen;
        }
      }
    }
  }

  /** Looks for the marker in a chunk, and across the seam to the carried tail. */
  method SearchChunk(overlap: array<Byte>, tail: array<Byte>, tailLen: nat, buf: seq<Byte>, marker: seq<Byte>,
                     ghost before: seq<Byte>) returns (found: bool)
    requires overlap.Length == MAX_MARKER * 2 && tail.Length == MAX_MARKER && overlap != tail
    requires 0 < |marker| <= MAX_MARKER && tailLen <= tail.Length
    requires tail[..tailLen] == Last(before, |marker| - 1)
    requires !Occurs(marker, before)
    modifies overlap
    ensures found <==> Occurs(marker, before + buf)
  {
    OccursAcross(marker, before, buf);
    found := MemContains(buf, marker);
    if !found && tailLen > 0 {
      var headLen := Min(|marker| - 1, |buf|);
      Copy(overlap, 0, tail[..tailLen]);
      Copy(overlap, tailLen, buf[..headLen]);
      assert overlap[..tailLen + headLen] == overlap[..tailLen] + overlap[tailLen..tailLen + headLen];
      found := MemContains(overlap[..tailLen + headLen], marker);
    }
  }

  /** Scans the first `size` bytes of the candidate. Any read may fail or come back short. The digest is
      taken over the same bytes. */
  method ScanCandidate(file: seq<Byte>, size: nat, marker: seq<Byte>, chunk: nat, sha: seq<Byte> -> string, quiet: bool)
    returns (rc: int, found: bool, digest: string)
    requires chunk > 0
    ensures rc <= 0
    ensures rc in {0, EINVAL, EIO} && (rc == EINVAL <==> |marker| == 0 || |marker| > MAX_MARKER)
    ensures rc == 0 ==> size <= |file| && digest == sha(file[..size]) && (found <==> Occurs(marker, file[..size]))
    ensures quiet && 0 < |marker| <= MAX_MARKER && size <= |file| ==> rc == 0
  {
    hide Occurs, Last;
    found, digest := false, "";
    if |marker| == 0 || |marker| > MAX_MARKER {
      return EINVAL, found, digest;
    }
    var overlap := new Byte[MAX_MARKER * 2];
    var tail := new Byte[MAX_MARKER];
    var tailLen: nat := 0;
    var hashed: seq<Byte> := [];
    var off: nat := 0;
    EmptyPrefix(marker, file);
    while off < size
      invariant off <= size && off <= |file| && hashed == file[..off]
      invariant tailLen < |marker| && tailLen <= tail.Length && tail[..tailLen] == Last(file[..off], |marker| - 1)
      invariant found <==> Occurs(marker, file[..off])
    {
      var want := Min(chunk, size - off);
      var failed: bool := *;
      if (failed && !quiet) || off + want > |file| {
        return EIO, found, digest;
      }
      var buf := file[off..off + want];
      assert file[..off] + buf == file[..off + want];
      hashed := hashed + buf;
      if found {
        assert file[..off] == file[..off + want][0..off];
        OccursInPart(marker, file[..off + want], 0, file[..off]);
      } else {
        found := SearchChunk(overlap, tail, tailLen, buf, marker, file[..off]);
      }
      TailOfPrefix(file, off, want, |marker| - 1);
      tailLen := KeepTail(tail, tailLen, buf, |marker|);
      off := off + want;
    }
    rc, digest := 0, sha(hashed);
  }

  lemma EmptyPrefix(m: seq<Byte>, file: seq<Byte>)
    requires |m| > 0
    ensures !Occurs(m, file[..0]) && Last(file[..0], |m| - 1) == []
  {}

  lemma TailOfPrefix(file: seq<Byte>, off: nat, want: nat, k: nat)
    requires off + want <= |file|
    ensures Last(file[..off + want], k) == Last(Last(file[..off], k) + file[off..off + want], k)
  {
    var a, b := file[..off], file[off..off + want];
    assert file[..off + want] == a + b;
    LastOfConcat(a, b, k);
    LastOfConcat(Last(a, k), b, k);
  }
}
