/** Bounded PCM playback: a file is scanned against a peak cap before it is played with a fixed-point
    gain, chunk by chunk, to a device that may ask for retries. */
module Pcm {
  import opened Common
  import opened Bits

  const PERIOD: nat := 1024       // frames in a chunk
  const SCAN_BYTES: nat := 4096
  const GAIN_UNITY: int := 1000
  const AGAIN_MAX: nat := 2000
  const XRUN_MAX: nat := 8

  // ----- samples, gain and cap

  function Abs(x: int): nat {
    if x < 0 then -x else x
  }

  /** A little-endian signed 16-bit sample. */
  function SampleAt(b: seq<Byte>, i: nat): (s: int)
    requires 2 * i + 1 < |b|
    ensures -0x8000 <= s < 0x8000
  {
    var raw := LoadLe16(b[2 * i..2 * i + 2]);
    if raw >= 0x8000 then raw - 0x1_0000 else raw
  }

  /** The bytes of a sample, low byte first. */
  lemma SampleOfBytes(s: int)
    requires -0x8000 <= s < 0x8000
    ensures SampleAt([s % 256, (s / 256) % 256], 0) == s
  {
    var low, high := s % 256, s / 256;
    assert s == 256 * high + low && -128 <= high < 128;
    assert high % 256 == if high < 0 then high + 256 else high;
    var b: seq<Byte> := [low, high % 256];
    assert b[0..2] == b;
  }

  function Samples(b: seq<Byte>): (s: seq<int>)
    ensures |s| == |b| / 2
  {
    seq(|b| / 2, i requires 0 <= i < |b| / 2 => SampleAt(b, i))
  }

  /** A thousandth, by C division, which rounds toward zero. */
  function Thousandth(a: int): (q: int)
    ensures Abs(q) == Abs(a) / 1000
  {
    if a < 0 then -(-a / 1000) else a / 1000
  }

  function Scaled(x: int, gain: int): int {
    if gain >= GAIN_UNITY then x
    else
      var scaled := Thousandth(x * (if gain < 0 then 0 else gain));
      if scaled > 32767 then 32767 else if scaled < -32768 then -32768 else scaled
  }

  /** A sample under the gain: untouched from unity on, silence without gain, and in between the largest sample
      whose thousandfold does not exceed the product, with the sign kept. */
  lemma ScaledIs(x: int, gain: int)
    requires -0x8000 <= x < 0x8000
    ensures gain >= GAIN_UNITY ==> Scaled(x, gain) == x
    ensures gain <= 0 ==> Scaled(x, gain) == 0
    ensures 0 < gain < GAIN_UNITY && x >= 0 ==> 1000 * Scaled(x, gain) <= x * gain < 1000 * (Scaled(x, gain) + 1)
    ensures 0 < gain < GAIN_UNITY && x <= 0 ==> 1000 * (Scaled(x, gain) - 1) < x * gain <= 1000 * Scaled(x, gain)
  {
    if 0 < gain < GAIN_UNITY {
      if x >= 0 {
        ProductMonotone(0, x, gain);
        ProductMonotone(x, 0x8000, gain);
      } else {
        ProductMonotone(x, 0, gain);
        ProductMonotone(-0x8000, x, gain);
      }
    }
  }

  function ScaledAll(s: seq<int>, gain: int): (t: seq<int>)
    ensures |t| == |s|
  {
    seq(|s|, i requires 0 <= i < |s| => Scaled(s[i], gain))
  }

  function PeakLimit(amplitude: int): (limit: int)
    ensures 0 <= limit <= 32767
  {
    if amplitude < 0 then 0 else if amplitude >= 1000 then 32767 else (32767 * amplitude) / 1000
  }

  /** The largest sample that the given thousandths of full scale allow. */
  lemma PeakLimitGreatest(amplitude: int, m: int)
    ensures 0 <= amplitude <= 1000 ==> (m <= PeakLimit(amplitude) <==> 1000 * m <= 32767 * amplitude)
    ensures amplitude < 0 ==> PeakLimit(amplitude) == PeakLimit(0)
    ensures amplitude > 1000 ==> PeakLimit(amplitude) == PeakLimit(1000)
  {}

  /** What the scan computes from the loudest sample: its magnitude under the gain, rounded up. */
  function ScaledPeak(peak: nat, gain: int): int {
    (peak * gain + 999) / 1000
  }

  predicate Within(s: seq<int>, limit: int) {
    forall i :: 0 <= i < |s| ==> Abs(s[i]) <= limit
  }

  /** Every sample passes the scan's cap. */
  predicate Capped(s: seq<int>, gain: int, limit: int) {
    forall i :: 0 <= i < |s| ==> ScaledPeak(Abs(s[i]), gain) <= limit
  }

  /** That is: the exact product of magnitude and gain is within the limit. */
  lemma CappedExactly(s: seq<int>, gain: int, limit: int)
    ensures Capped(s, gain, limit) <==> forall i :: 0 <= i < |s| ==> Abs(s[i]) * gain <= 1000 * limit
  {
    forall i | 0 <= i < |s|
      ensures ScaledPeak(Abs(s[i]), gain) <= limit <==> Abs(s[i]) * gain <= 1000 * limit
    {}
  }

  lemma ProductMonotone(a: int, b: int, k: int)
    requires a <= b && k >= 0
    ensures a * k <= b * k
  {}

  /** The truncating gain stays below the rounded-up scaled peak. */
  lemma GainBelowPeak(x: int, gain: int, peak: nat)
    requires Abs(x) <= peak && 0 <= gain <= GAIN_UNITY
    ensures Abs(Scaled(x, gain)) <= ScaledPeak(peak, gain)
  {
    ProductMonotone(Abs(x), peak, gain);
    assert Abs(x * gain) == Abs(x) * gain;
    assert Abs(x) * gain / 1000 <= (Abs(x) * gain + 999) / 1000 <= ScaledPeak(peak, gain);
    assert Abs(Thousandth(x * gain)) == Abs(x) * gain / 1000;
  }

  lemma CappedIsWithin(s: seq<int>, gain: int, limit: int)
    requires 0 <= gain <= GAIN_UNITY && Capped(s, gain, limit)
    ensures Within(ScaledAll(s, gain), limit)
  {
    forall i | 0 <= i < |s|
      ensures Abs(ScaledAll(s, gain)[i]) <= limit
    {
      GainBelowPeak(s[i], gain, Abs(s[i]));
    }
  }

  /** Scales a buffer of samples in place. */
  method ApplyGain(buffer: array<int>, gain: int)
    modifies buffer
    ensures buffer[..] == ScaledAll(old(buffer[..]), gain)
  {
    if gain >= GAIN_UNITY {
      return;
    }
    var g := if gain < 0 then 0 else gain;
    for i := 0 to buffer.Length
      invariant forall k :: 0 <= k < i ==> buffer[k] == Scaled(old(buffer[k]), gain)
      invariant forall k :: i <= k < buffer.Length ==> buffer[k] == old(buffer[k])
    {
      var scaled := Thousandth(buffer[i] * g);
      if scaled > 32767 {
        scaled := 32767;
      } else if scaled < -32768 {
        scaled := -32768;
      }
      buffer[i] := scaled;
    }
  }

  // ----- the source file

  function Zeros(n: nat): (z: seq<Byte>)
    ensures |z| == n && forall i :: 0 <= i < n ==> z[i] == 0
  {
    seq(n, i => 0)
  }

  /** An open file. Reads may be short or fail, and may report that they would block, after which the
      source counts as stalled. `quiet` sources do neither. */
  class Source {
    const data: seq<Byte>
    const quiet: bool
    var pos: nat
    var stalled: bool

    ghost predicate Valid()
      reads this
    {
      pos <= |data| && (quiet ==> !stalled)
    }

    constructor (data: seq<Byte>, quiet: bool)
      ensures Valid() && this.data == data && this.quiet == quiet && pos == 0 && !stalled
    {
      this.data, this.quiet, pos, stalled := data, quiet, 0, false;
    }

    /** read(2): None for an error, else the bytes read, none of them only at the end of the file. */
    method Read(want: nat) returns (got: Option<seq<Byte>>)
      requires Valid() && want > 0
      modifies this`pos
      ensures Valid() && old(pos) <= pos <= old(pos) + want
      ensures got.Some? ==> got.value == data[old(pos)..pos] && (pos == old(pos) ==> pos == |data|)
      ensures got.None? ==> pos == old(pos) && !quiet
    {
      var fails: bool := *;
      if fails && !quiet {
        return None;
      }
      var n: int := *;
      var most := Min(want, |data| - pos);
      n := if 1 <= n <= most then n else most;
      got := Some(data[pos..pos + n]);
      pos := pos + n;
    }

    method WouldBlock() returns (b: bool)
      requires Valid()
      modifies this`stalled
      ensures Valid() && stalled == (old(stalled) || b)
    {
      b := *;
      b := b && !quiet;
      stalled := stalled || b;
    }

    /** All of `want` bytes, or an error; a read that would block is filled up with silence. */
    method ReadExact(want: nat) returns (rc: int, bytes: seq<Byte>)
      requires Valid()
      modifies this
      ensures Valid() && (old(stalled) ==> stalled) && rc <= 0
      ensures rc == 0 ==> |bytes| == want
      ensures rc == 0 && !stalled ==> pos == old(pos) + want && bytes == data[old(pos)..pos]
      ensures rc < 0 && quiet ==> old(pos) + want > |data|
      ensures stalled && !old(stalled) ==> rc == 0
    {
      bytes := [];
      while |bytes| < want
        invariant Valid() && stalled == old(stalled) && |bytes| <= want
        invariant pos == old(pos) + |bytes| && bytes == data[old(pos)..pos]
        decreases want - |bytes|
      {
        var got := Read(want - |bytes|);
        if got.None? {
          var again := WouldBlock();
          if again {
            return 0, bytes + Zeros(want - |bytes|);
          }
          return EIO, bytes;
        }
        if got.value == [] {
          return EIO, bytes;
        }
        bytes := bytes + got.value;
      }
      return 0, bytes;
    }

    /** Up to `want` bytes, with silence after the end of the file. */
    method ReadTail(want: nat) returns (rc: int, bytes: seq<Byte>)
      requires Valid()
      modifies this`pos
      ensures Valid() && rc <= 0 && (rc < 0 ==> !quiet)
      ensures rc == 0 ==>
                && pos == Min(old(pos) + want, |data|)
                && bytes == data[old(pos)..pos] + Zeros(want - (pos - old(pos)))
    {
      bytes := [];
      while |bytes| < want
        invariant Valid() && |bytes| <= want
        invariant pos == old(pos) + |bytes| && bytes == data[old(pos)..pos]
        decreases want - |bytes|
      {
        var got := Read(want - |bytes|);
        if got.None? {
          return EIO, bytes;
        }
        if got.value == [] {
          return 0, bytes + Zeros(want - |bytes|);
        }
        bytes := bytes + got.value;
      }
      assert bytes == bytes + Zeros(0);
      return 0, bytes;
    }

    method Rewind() returns (ok: bool)
      requires Valid()
      modifies this`pos
      ensures Valid() && (quiet ==> ok) && (ok ==> pos == 0)
    {
      ok := *;
      ok := ok || quiet;
      if ok {
        pos := 0;
      }
    }
  }

  // ----- validation

  /** `tailMax`: how many bytes of silence may stand in for a missing end of this file. */
  datatype Clip = Clip(frames: nat, channels: nat, amplitude: int, gain: int, tailMax: nat) {
    ghost predicate Valid() {
      frames > 0 && 1 <= channels <= 8
    }

    function FrameBytes(): nat {
      2 * channels
    }

    /** The size of `n` frames in bytes. */
    function Size(n: nat): (bytes: nat)
      ensures bytes % 2 == 0
    {
      assert n * FrameBytes() == 2 * (n * channels);
      n * FrameBytes()
    }

    function Bytes(): (bytes: nat)
      ensures bytes % 2 == 0
    {
      Size(frames)
    }

    function Short(data: seq<Byte>): bool {
      |data| < Bytes()
    }

    /** The part of the file that the scan looks at. */
    function Scanned(data: seq<Byte>): seq<Byte> {
      data[..Min(Bytes(), |data|)]
    }

    predicate SizeAllowed(size: nat)
      requires channels > 0
    {
      size < Bytes() ==>
        && Bytes() - size <= tailMax
        && size % FrameBytes() == 0 && (Bytes() - size) % FrameBytes() == 0
    }

    /** The file may be played. */
    predicate Cleared(data: seq<Byte>)
      requires channels > 0
    {
      && SizeAllowed(|data|)
      && 0 <= gain <= GAIN_UNITY
      && Capped(Samples(Scanned(data)), gain, PeakLimit(amplitude))
    }

    /** What opening the file returns if no read fails: too loud is refused like a path that is not allowed. */
    function Verdict(allowed: bool, data: seq<Byte>): (rc: int)
      requires channels > 0
      ensures rc == 0 <==> allowed && Cleared(data)
    {
      if !allowed then EPERM
      else if !SizeAllowed(|data|) || gain < 0 || gain > GAIN_UNITY then EINVAL
      else if !Cleared(data) then EPERM
      else 0
    }
  }

  lemma SizeAdds(clip: Clip, m: nat, n: nat)
    ensures clip.Size(m + n) == clip.Size(m) + clip.Size(n)
  {
    assert (m + n) * clip.FrameBytes() == m * clip.FrameBytes() + n * clip.FrameBytes();
  }

  lemma SizeMonotone(clip: Clip, m: nat, n: nat)
    requires clip.channels > 0
    ensures m <= n ==> clip.Size(m) <= clip.Size(n)
    ensures m < n ==> clip.Size(m) + 2 <= clip.Size(n)
  {
    if m < n {
      SizeAdds(clip, m, n - m);
      ProductMonotone(1, n - m, clip.FrameBytes());
    }
  }

  method LoudestOf(bytes: seq<Byte>, before: nat) returns (peak: nat)
    ensures peak >= before && Within(Samples(bytes), peak)
    ensures peak == before || exists i :: 0 <= i < |bytes| / 2 && Abs(Samples(bytes)[i]) == peak
  {
    peak := before;
    for i := 0 to |bytes| / 2
      invariant peak >= before && forall k :: 0 <= k < i ==> Abs(Samples(bytes)[k]) <= peak
      invariant peak == before || exists k :: 0 <= k < i && Abs(Samples(bytes)[k]) == peak
    {
      var s := SampleAt(bytes, i);
      assert s == Samples(bytes)[i];
      if Abs(s) > peak {
        peak := Abs(s);
      }
    }
  }

  /** `peak` is the loudest magnitude among the samples, zero when there are none. */
  predicate Loudest(s: seq<int>, peak: nat) {
    Within(s, peak) && (peak == 0 || exists i :: 0 <= i < |s| && Abs(s[i]) == peak)
  }

  lemma LoudestDecides(s: seq<int>, peak: nat, gain: int, limit: int)
    requires Loudest(s, peak) && gain >= 0 && limit >= 0
    ensures ScaledPeak(peak, gain) <= limit <==> Capped(s, gain, limit)
  {
    forall i | 0 <= i < |s|
      ensures ScaledPeak(Abs(s[i]), gain) <= ScaledPeak(peak, gain)
    {
      ProductMonotone(Abs(s[i]), peak, gain);
    }
    assert ScaledPeak(0, gain) == 0;
  }

  lemma SamplesConcat(a: seq<Byte>, b: seq<Byte>)
    requires |a| % 2 == 0
    ensures Samples(a + b) == Samples(a) + Samples(b)
  {
    forall i | 0 <= i < |a + b| / 2
      ensures Samples(a + b)[i] == (Samples(a) + Samples(b))[i]
    {
      if i >= |a| / 2 {
        var k := i - |a| / 2;
        assert (a + b)[2 * i..2 * i + 2] == b[2 * k..2 * k + 2];
      } else {
        assert (a + b)[2 * i..2 * i + 2] == a[2 * i..2 * i + 2];
      }
    }
  }

  lemma LoudestConcat(a: seq<int>, b: seq<int>, p: nat, q: nat)
    requires Loudest(a, p) && q >= p && Within(b, q)
    requires q == p || exists i :: 0 <= i < |b| && Abs(b[i]) == q
    ensures Loudest(a + b, q)
  {
    if q == p {
      if p > 0 {
        var i :| 0 <= i < |a| && Abs(a[i]) == p;
        assert (a + b)[i] == a[i];
      }
    } else {
      var i :| 0 <= i < |b| && Abs(b[i]) == q;
      assert (a + b)[|a| + i] == b[i];
    }
  }

  lemma LoudestOfNone()
    ensures Loudest(Samples([]), 0)
  {}

  /** Scans the first `size` bytes for their loudest sample. */
  method ScanPeak(source: Source, size: nat) returns (rc: int, peak: nat)
    requires source.Valid() && source.pos == 0 && size <= |source.data| && size % 2 == 0
    modifies source
    ensures source.Valid() && (old(source.stalled) ==> source.stalled) && rc <= 0 && (source.quiet ==> rc == 0)
    ensures rc == 0 && !source.stalled ==> Loudest(Samples(source.data[..size]), peak)
  {
    hide Samples, Within;
    rc, peak := 0, 0;
    var done := 0;
    assert source.data[..0] == [];
    LoudestOfNone();
    while done < size
      invariant source.Valid() && (old(source.stalled) ==> source.stalled)
      invariant done <= size && done % 2 == 0
      invariant !source.stalled ==> source.pos == done && Loudest(Samples(source.data[..done]), peak)
    {
      var want := Min(size - done, SCAN_BYTES);
      var bytes: seq<Byte>;
      rc, bytes := source.ReadExact(want);
      if rc < 0 {
        return;
      }
      ghost var before := peak;
      peak := LoudestOf(bytes, peak);
      if !source.stalled {
        SamplesConcat(source.data[..done], bytes);
        LoudestConcat(Samples(source.data[..done]), Samples(bytes), before, peak);
        assert source.data[..done + want] == source.data[..done] + bytes;
      }
      done := done + want;
    }
  }

  /** Opens a file for playing. `silence`: its missing end is to be played as silence. */
  method OpenValidated(clip: Clip, allowed: bool, source: Source) returns (rc: int, silence: bool)
    requires clip.Valid() && source.Valid() && source.pos == 0
    modifies source
    ensures source.Valid() && (old(source.stalled) ==> source.stalled) && rc <= 0
    ensures rc == 0 ==> allowed && source.pos == 0 && silence == clip.Short(source.data)
    ensures rc == 0 && !source.stalled ==> clip.Cleared(source.data)
    ensures source.quiet ==> rc == clip.Verdict(allowed, source.data)
  {
    silence := false;
    if !allowed {
      return EPERM, false;
    }
    var size := |source.data|;
    var validated := clip.Bytes();
    if size < clip.Bytes() {
      var missing := clip.Bytes() - size;
      if missing > clip.tailMax {
        return EINVAL, false;
      }
      if size % clip.FrameBytes() != 0 || missing % clip.FrameBytes() != 0 {
        return EINVAL, false;
      }
      validated := size;
      silence := true;
    }
    if clip.gain < 0 || clip.gain > GAIN_UNITY {
      return EINVAL, silence;
    }
    EvenFrames(validated, clip);
    var peak: nat;
    rc, peak := ScanPeak(source, validated);
    if rc < 0 {
      return;
    }
    if !source.stalled {
      LoudestDecides(Samples(clip.Scanned(source.data)), peak, clip.gain, PeakLimit(clip.amplitude));
    }
    if ScaledPeak(peak, clip.gain) > PeakLimit(clip.amplitude) {
      return EPERM, silence;
    }
    var ok := source.Rewind();
    if !ok {
      return EIO, silence;
    }
  }

  lemma EvenFrames(n: nat, clip: Clip)
    requires clip.channels > 0 && (n % clip.FrameBytes() == 0 || n == clip.Bytes())
    ensures n % 2 == 0
  {
    if n != clip.Bytes() {
      var k := n / clip.FrameBytes();
      assert n == clip.FrameBytes() * k == 2 * (clip.channels * k);
    }
  }
}
