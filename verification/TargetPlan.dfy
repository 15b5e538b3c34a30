/** The image that a flash run is going to write, and how it differs from what is there. */
module TargetPlan {
  import opened Common
  import opened Bits

  /** The candidate, then whatever the partition holds past its end. */
  function TargetImage(current: seq<Byte>, candidate: seq<Byte>): (t: seq<Byte>)
    requires |candidate| <= |current|
    ensures |t| == |current|
  {
    candidate + current[|candidate|..]
  }

  lemma TargetAt(current: seq<Byte>, candidate: seq<Byte>, i: nat)
    requires |candidate| <= |current| && i < |current|
    ensures TargetImage(current, candidate)[i] == if i < |candidate| then candidate[i] else current[i]
  {}

  /** How many positions hold different bytes. */
  function Differences(a: seq<Byte>, b: seq<Byte>): nat
    requires |a| == |b|
  {
    if a == [] then 0
    else Differences(a[..|a| - 1], b[..|a| - 1]) + (if a[|a| - 1] != b[|a| - 1] then 1 else 0)
  }

  lemma {:induction false} DifferencesCounted(a: seq<Byte>, b: seq<Byte>)
    requires |a| == |b|
    ensures Differences(a, b) == |set i | 0 <= i < |a| && a[i] != b[i]|
  {
    var now := set i | 0 <= i < |a| && a[i] != b[i];
    assert a == [] ==> now == {};
    if a != [] {
      var n := |a| - 1;
      var c, d := a[..n], b[..n];
      DifferencesCounted(c, d);
      var was := set i | 0 <= i < n && c[i] != d[i];
      OneMore(was, now, n, a[n] != b[n]);
    }
  }

  lemma {:induction false} DifferencesZero(a: seq<Byte>, b: seq<Byte>)
    requires |a| == |b|
    ensures Differences(a, b) == 0 <==> a == b
  {
    if a != [] {
      var m := |a| - 1;
      DifferencesZero(a[..m], b[..m]);
      assert a == a[..m] + [a[m]] && b == b[..m] + [b[m]];
    }
  }

  lemma {:induction false} DifferencesConcat(a: seq<Byte>, b: seq<Byte>, c: seq<Byte>, d: seq<Byte>)
    requires |a| == |b| && |c| == |d|
    ensures Differences(a + c, b + d) == Differences(a, b) + Differences(c, d)
    decreases |c|
  {
    if c == [] {
      assert a + c == a && b + d == b;
    } else {
      var m := |c| - 1;
      DifferencesConcat(a, b, c[..m], d[..m]);
      assert (a + c)[..|a + c| - 1] == a + c[..m] && (b + d)[..|b + d| - 1] == b + d[..m];
    }
  }

  /** How many chunks hold a difference. */
  function ChangedChunks(a: seq<Byte>, b: seq<Byte>, chunk: nat): nat
    requires |a| == |b| && chunk > 0
    decreases |a|
  {
    if a == [] then 0
    else
      var n := Min(chunk, |a|);
      (if a[..n] != b[..n] then 1 else 0) + ChangedChunks(a[n..], b[n..], chunk)
  }

  /** The numbers of the chunks that hold a difference, counting from `k`. */
  function ChunkNumbers(a: seq<Byte>, b: seq<Byte>, chunk: nat, k: int): set<int>
    requires |a| == |b| && chunk > 0
  {
    set i | 0 <= i < |a| && a[i] != b[i] :: k + i / chunk
  }

  lemma {:induction false} ChunksCounted(a: seq<Byte>, b: seq<Byte>, chunk: nat, k: int)
    requires |a| == |b| && chunk > 0
    ensures ChangedChunks(a, b, chunk) == |ChunkNumbers(a, b, chunk, k)|
    decreases |a|
  {
    hide ChunkNumbers;
    var n := Min(chunk, |a|);
    if a == [] {
      NoNumbers(a, b, chunk, k);
    } else {
      ChunksCounted(a[n..], b[n..], chunk, k + 1);
      NumbersSplit(a, b, chunk, k, n);
      OneMore(ChunkNumbers(a[n..], b[n..], chunk, k + 1), ChunkNumbers(a, b, chunk, k), k, a[..n] != b[..n]);
    }
  }

  lemma NoNumbers(a: seq<Byte>, b: seq<Byte>, chunk: nat, k: int)
    requires a == b == [] && chunk > 0
    ensures ChunkNumbers(a, b, chunk, k) == {}
  {}

  lemma NumberOf(i: nat, chunk: nat)
    requires chunk > 0
    ensures i < chunk ==> i / chunk == 0
    ensures i >= chunk ==> i / chunk == 1 + (i - chunk) / chunk && (i - chunk) / chunk >= 0
  {
    if i < chunk {
      DivUnique(i, chunk, 0, i);
    } else {
      var q, r := (i - chunk) / chunk, (i - chunk) % chunk;
      assert i == chunk * (1 + q) + r;
      DivUnique(i, chunk, 1 + q, r);
      if q < 0 {
        MultipleSize(chunk, q);
      }
    }
  }

  lemma NumberIn(a: seq<Byte>, b: seq<Byte>, chunk: nat, k: int, i: nat)
    requires |a| == |b| && chunk > 0 && i < |a| && a[i] != b[i]
    ensures k + i / chunk in ChunkNumbers(a, b, chunk, k)
  {}

  lemma NumberFrom(a: seq<Byte>, b: seq<Byte>, chunk: nat, k: int, x: int) returns (i: nat)
    requires |a| == |b| && chunk > 0 && x in ChunkNumbers(a, b, chunk, k)
    ensures i < |a| && a[i] != b[i] && x == k + i / chunk
  {
    var j :| 0 <= j < |a| && a[j] != b[j] && x == k + j / chunk;
    i := j;
  }

  lemma NumbersSplit(a: seq<Byte>, b: seq<Byte>, chunk: nat, k: int, n: nat)
    requires |a| == |b| > 0 && chunk > 0 && n == Min(chunk, |a|)
    ensures var rest := ChunkNumbers(a[n..], b[n..], chunk, k + 1);
            && k !in rest
            && ChunkNumbers(a, b, chunk, k) == if a[..n] != b[..n] then rest + {k} else rest
  {
    hide ChunkNumbers;
    var c, d := a[n..], b[n..];
    var rest, all := ChunkNumbers(c, d, chunk, k + 1), ChunkNumbers(a, b, chunk, k);
    forall x | x in all
      ensures x in rest || (x == k && a[..n] != b[..n])
    {
      var i := NumberFrom(a, b, chunk, k, x);
      NumberOf(i, chunk);
      if i >= n {
        NumberIn(c, d, chunk, k + 1, i - n);
      } else {
        assert a[..n][i] != b[..n][i];
      }
    }
    forall x | x in rest
      ensures x in all && x > k
    {
      var j := NumberFrom(c, d, chunk, k + 1, x);
      NumberOf(n + j, chunk);
      NumberIn(a, b, chunk, k, n + j);
    }
    if a[..n] != b[..n] {
      var i :| 0 <= i < n && a[..n][i] != b[..n][i];
      NumberOf(i, chunk);
      NumberIn(a, b, chunk, k, i);
    }
  }

  datatype Plan = Plan(target: string, current: string, changedBytes: nat, changedChunks: nat)

  /** The inner comparison loop over one chunk. */
  method CompareChunk(target: seq<Byte>, boot: seq<Byte>) returns (changed: nat)
    requires |target| == |boot|
    ensures changed == Differences(target, boot)
  {
    changed := 0;
    for i := 0 to |target|
      invariant changed == Differences(target[..i], boot[..i])
    {
      assert target[..i + 1][..i] == target[..i] && boot[..i + 1][..i] == boot[..i];
      if target[i] != boot[i] {
        changed := changed + 1;
      }
    }
    assert target[..|target|] == target && boot[..|boot|] == boot;
  }

  /** One chunk of the image to write: old bytes with the candidate laid over their front. */
  function Overlaid(chunk: seq<Byte>, candidate: seq<Byte>, off: nat): (c: seq<Byte>)
    ensures |c| == |chunk|
  {
    if off < |candidate| then
      var n := Min(|chunk|, |candidate| - off);
      candidate[off..off + n] + chunk[n..]
    else chunk
  }

  lemma OverlaidIsTarget(image: seq<Byte>, candidate: seq<Byte>, off: nat, want: nat)
    requires |candidate| <= |image| && off + want <= |image|
    ensures Overlaid(image[off..off + want], candidate, off) == TargetImage(image, candidate)[off..off + want]
  {}

  lemma PlanStep(image: seq<Byte>, boot: seq<Byte>, off: nat, chunk: nat, want: nat)
    requires |image| == |boot| && off < |boot| && chunk > 0 && want == Min(chunk, |boot| - off)
    ensures var t, b := image[off..off + want], boot[off..off + want];
            && image[..off] + t == image[..off + want] && boot[..off] + b == boot[..off + want]
            && Differences(image[..off + want], boot[..off + want]) ==
                Differences(image[..off], boot[..off]) + Differences(t, b)
            && ChangedChunks(image[off..], boot[off..], chunk) ==
               (if Differences(t, b) > 0 then 1 else 0) + ChangedChunks(image[off + want..], boot[off + want..], chunk)
  {
    var t, b := image[off..off + want], boot[off..off + want];
    assert image[..off] + t == image[..off + want] && boot[..off] + b == boot[..off + want];
    DifferencesConcat(image[..off], boot[..off], t, b);
    DifferencesZero(t, b);
    assert image[off..][..want] == t && boot[off..][..want] == b;
    assert image[off..][want..] == image[off + want..] && boot[off..][want..] == boot[off + want..];
  }

  method ComputeTargetPlan(boot: seq<Byte>, candidate: seq<Byte>, chunk: nat, sha: seq<Byte> -> string, quiet: bool)
    returns (rc: int, plan: Plan)
    requires chunk > 0 && |candidate| <= |boot|
    ensures (rc == 0 || rc == EIO) && (quiet ==> rc == 0)
    ensures rc == 0 ==> plan == Plan(sha(TargetImage(boot, candidate)), sha(boot),
                                     Differences(TargetImage(boot, candidate), boot),
                                     ChangedChunks(TargetImage(boot, candidate), boot, chunk))
  {
    hide Overlaid, TargetImage, ChangedChunks;
    plan := Plan("", "", 0, 0);
    var current, target: seq<Byte> := [], [];
    var bytes, chunks := 0, 0;
    ghost var image := TargetImage(boot, candidate);
    var off := 0;
    assert image[0..] == image && boot[0..] == boot;
    while off < |boot|
      invariant 0 <= off <= |boot| && current == boot[..off] && target == image[..off]
      invariant bytes == Differences(image[..off], boot[..off])
      invariant chunks + ChangedChunks(image[off..], boot[off..], chunk) == ChangedChunks(image, boot, chunk)
    {
      var want := Min(chunk, |boot| - off);
      var bootFails: bool, candidateFails: bool := *, *;
      if (bootFails || candidateFails) && !quiet {
        return EIO, plan;
      }
      var bootBuf := boot[off..off + want];
      var targetBuf := Overlaid(bootBuf, candidate, off);
      OverlaidIsTarget(boot, candidate, off, want);
      PlanStep(image, boot, off, chunk, want);
      var changed := CompareChunk(targetBuf, bootBuf);
      bytes := bytes + changed;
      if changed > 0 {
        chunks := chunks + 1;
      }
      current, target := current + bootBuf, target + targetBuf;
      off := off + want;
    }
    assert image[..|image|] == image && boot[..|boot|] == boot;
    NoChunks(image[off..], boot[off..], chunk);
    rc, plan := 0, Plan(sha(target), sha(current), bytes, chunks);
  }

  lemma NoChunks(a: seq<Byte>, b: seq<Byte>, chunk: nat)
    requires a == b == [] && chunk > 0
    ensures ChangedChunks(a, b, chunk) == 0
  {}
}
