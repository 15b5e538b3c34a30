/** When everything that is played stays within the cap. The scan looks at as many bytes as the clip
    needs, but a retry drops a chunk and reads on, so a longer file can run past what was scanned. */
module PlaybackCap {
  import opened Common
  import opened Bits
  import opened Pcm
  import opened Playback
  import opened PlaybackRuns

  predicate AllWithin(chunks: seq<seq<int>>, limit: int) {
    forall i :: 0 <= i < |chunks| ==> Within(chunks[i], limit)
  }

  /** Everything played from here on is within the clip's cap. */
  predicate Bounded(clip: Clip, data: seq<Byte>, script: Script, p: Progress)
    requires p.Valid(clip)
  {
    AllWithin(Played(clip, data, script, p), PeakLimit(clip.amplitude))
  }

  ghost predicate RetryFree(script: Script) {
    forall k :: script(k) != Again && script(k) != Underrun(true)
  }

  /** How many frames beyond the clip the shortest chunk that runs past its end would need. */
  function Spare(frames: nat): (n: nat)
    requires frames > 0
    ensures n > 0
  {
    var last := frames % PERIOD;
    if last == 0 then PERIOD else if frames < PERIOD then last else Min(last, PERIOD - last)
  }

  /** The file is too short for any chunk beyond the clip's end. */
  predicate NoSpare(clip: Clip, size: nat)
    requires clip.frames > 0
  {
    size < clip.Size(clip.frames + Spare(clip.frames))
  }

  // ----- what was scanned is within the cap

  lemma SliceCapped(clip: Clip, data: seq<Byte>, from: nat, to: nat)
    requires clip.Valid() && clip.Cleared(data)
    requires from <= to <= |clip.Scanned(data)| && from % 2 == 0 && to % 2 == 0
    ensures Capped(Samples(data[from..to]), clip.gain, PeakLimit(clip.amplitude))
  {
    var part, all := data[from..to], clip.Scanned(data);
    forall i | 0 <= i < |Samples(part)|
      ensures Samples(part)[i] == Samples(all)[from / 2 + i]
    {
      assert part[2 * i] == all[2 * (from / 2 + i)];
      assert part[2 * i + 1] == all[2 * (from / 2 + i) + 1];
    }
  }

  lemma SilenceCapped(b: seq<Byte>, k: nat, gain: int, limit: int)
    requires |b| % 2 == 0 && Capped(Samples(b), gain, limit) && limit >= 0
    ensures Capped(Samples(b + Zeros(k)), gain, limit)
  {
    SamplesConcat(b, Zeros(k));
    assert ScaledPeak(0, gain) == 0;
    assert forall i :: 0 <= i < k / 2 ==> Samples(Zeros(k))[i] == 0;
  }

  lemma EvenPos(clip: Clip, data: seq<Byte>, asked: nat)
    requires clip.Valid() && clip.Cleared(data)
    requires |data| <= clip.Bytes() || asked <= clip.frames
    ensures FilePos(clip, data, asked) % 2 == 0
    ensures FilePos(clip, data, asked) <= |clip.Scanned(data)|
  {
    hide Clip.Size;
    SizeMonotone(clip, asked, clip.frames);
    if |data| <= clip.Bytes() {
      EvenFrames(|data|, clip);
    }
  }

  lemma FetchedWithin(clip: Clip, data: seq<Byte>, asked: nat, n: nat)
    requires clip.Valid() && clip.Cleared(data) && Fetched(clip, data, asked, n).Some?
    requires asked + n <= clip.frames || |data| <= clip.Bytes()
    ensures Within(ScaledAll(Samples(Fetched(clip, data, asked, n).value), clip.gain), PeakLimit(clip.amplitude))
  {
    hide Samples, Capped, Within, ScaledAll, FilePos, PeakLimit, Clip.Size, Clip.Scanned, Clip.SizeAllowed;
    var from, to := FilePos(clip, data, asked), FilePos(clip, data, asked + n);
    var limit, want := PeakLimit(clip.amplitude), clip.Size(n);
    FilePosNext(clip, data, asked, n);
    EvenPos(clip, data, asked);
    EvenPos(clip, data, asked + n);
    SliceCapped(clip, data, from, to);
    assert data[from..to] + Zeros(0) == data[from..to];
    SilenceCapped(data[from..to], want - (to - from), clip.gain, limit);
    CappedIsWithin(Samples(Fetched(clip, data, asked, n).value), clip.gain, limit);
  }

  // ----- runs that stay within it

  /** One step: everything from here on is within the cap exactly if what is taken of this chunk and the
      rest are, and for that it is enough that the whole chunk is. */
  lemma BoundedStep(clip: Clip, data: seq<Byte>, script: Script, p: Progress)
    requires p.Valid(clip) && p.done < clip.frames
    ensures var bytes := Fetched(clip, data, p.asked, ChunkFrames(clip, p));
            var w, next := script(p.calls), Answered(clip, p, script(p.calls));
            var limit := PeakLimit(clip.amplitude);
            if bytes.None? then Bounded(clip, data, script, p)
            else
              var chunk := ScaledAll(Samples(bytes.value), clip.gain);
              && (Bounded(clip, data, script, p) <==>
                  AllWithin(Taken(clip, w, chunk), limit) && (next.Some? ==> Bounded(clip, data, script, next.value)))
              && (Within(chunk, limit) ==> AllWithin(Taken(clip, w, chunk), limit))
              && (w.Wrote? && AllWithin(Taken(clip, w, chunk), limit) ==> Within(chunk, limit))
  {
    hide Fetched, Answered, ScaledAll, Samples, Played, Within, Taken;
    PlayedNext(clip, data, script, p);
    var bytes := Fetched(clip, data, p.asked, ChunkFrames(clip, p));
    var next := Answered(clip, p, script(p.calls));
    if bytes.Some? {
      var chunk := ScaledAll(Samples(bytes.value), clip.gain);
      var tail := if next.None? then [] else Played(clip, data, script, next.value);
      var limit := PeakLimit(clip.amplitude);
      AllWithinConcat(Taken(clip, script(p.calls), chunk), tail, limit);
      TakenWithin(clip, script(p.calls), chunk, limit);
    }
  }

  /** What is taken of a chunk within the cap is within the cap. */
  lemma TakenWithin(clip: Clip, w: Write, chunk: seq<int>, limit: int)
    ensures Within(chunk, limit) ==> AllWithin(Taken(clip, w, chunk), limit)
    ensures w.Wrote? && AllWithin(Taken(clip, w, chunk), limit) ==> Within(chunk, limit)
  {
    if w.Wrote? && AllWithin(Taken(clip, w, chunk), limit) {
      assert Taken(clip, w, chunk)[0] == chunk;
    }
  }

  lemma AllWithinConcat(a: seq<seq<int>>, b: seq<seq<int>>, limit: int)
    ensures AllWithin(a + b, limit) <==> AllWithin(a, limit) && AllWithin(b, limit)
  {
    hide Within;
    if AllWithin(a + b, limit) {
      assert forall i :: 0 <= i < |a| ==> (a + b)[i] == a[i];
      assert forall i :: 0 <= i < |b| ==> (a + b)[|a| + i] == b[i];
    }
  }

  /** Without retries, a cleared file is played within the cap. */
  lemma {:induction false} RetryFreeBounded(clip: Clip, data: seq<Byte>, script: Script, p: Progress)
    requires clip.Valid() && clip.Cleared(data) && RetryFree(script)
    requires p.Valid(clip) && p.asked == p.done
    ensures Bounded(clip, data, script, p)
    decreases clip.frames - p.done
  {
    hide Fetched, ScaledAll, Samples, Within, Clip.Cleared;
    if p.done < clip.frames {
      BoundedStep(clip, data, script, p);
      if Fetched(clip, data, p.asked, ChunkFrames(clip, p)).Some? {
        FetchedWithin(clip, data, p.asked, ChunkFrames(clip, p));
      }
      assert script(p.calls) != Again && script(p.calls) != Underrun(true);
      var next := Answered(clip, p, script(p.calls));
      if next.Some? {
        RetryFreeBounded(clip, data, script, next.value);
      }
    }
  }

  /** While nothing beyond the clip's end was read, whole chunks were read, and at most once its last. */
  predicate OnGrid(clip: Clip, p: Progress) {
    && p.asked <= clip.frames
    && ((p.done % PERIOD == 0 && p.asked % PERIOD == 0 && p.done <= p.asked)
        || (p.done == clip.frames - clip.frames % PERIOD && p.asked == clip.frames))
  }

  lemma MultipleBetween(a: nat, b: nat)
    requires a % PERIOD == 0 && a <= b < a + PERIOD
    ensures a == b - b % PERIOD
  {}

  lemma MultipleBeyond(a: nat, b: nat)
    requires a % PERIOD == 0 && a + PERIOD > b
    ensures a >= b - b % PERIOD
  {}

  /** From the grid, a chunk either ends within the clip or needs all of the spare frames. */
  lemma GridReach(clip: Clip, p: Progress)
    requires clip.Valid() && p.Valid(clip) && p.done < clip.frames && OnGrid(clip, p)
    ensures p.asked + ChunkFrames(clip, p) <= clip.frames
        || p.asked + ChunkFrames(clip, p) >= clip.frames + Spare(clip.frames)
  {
    hide Spare;
    SpareAtMost(clip.frames);
    if p.done % PERIOD == 0 && p.asked % PERIOD == 0 {
      if ChunkFrames(clip, p) < PERIOD {
        MultipleBetween(p.done, clip.frames);
        MultipleBetween(p.asked, clip.frames);
      } else if p.asked + PERIOD > clip.frames {
        MultipleBeyond(p.asked, clip.frames);
      }
    }
  }

  lemma SpareAtMost(frames: nat)
    requires frames > 0
    ensures frames % PERIOD > 0 ==> Spare(frames) <= frames % PERIOD
    ensures frames >= PERIOD ==> Spare(frames) <= PERIOD - frames % PERIOD
  {}

  lemma GridNext(clip: Clip, p: Progress, w: Write)
    requires clip.Valid() && p.Valid(clip) && p.done < clip.frames && OnGrid(clip, p)
    requires p.asked + ChunkFrames(clip, p) <= clip.frames
    ensures var next := Answered(clip, p, w); next.Some? && next.value.done < clip.frames ==> OnGrid(clip, next.value)
  {
    if p.done % PERIOD == 0 && p.asked % PERIOD == 0 {
      GridStep(clip.frames, p.done, p.asked);
    }
  }

  lemma GridStep(frames: nat, done: nat, asked: nat)
    requires done % PERIOD == 0 && asked % PERIOD == 0 && done <= asked <= frames && done < frames
    ensures frames - done < PERIOD ==> done == asked == frames - frames % PERIOD
    ensures (done + PERIOD) % PERIOD == 0 && (asked + PERIOD) % PERIOD == 0
  {
    if frames - done < PERIOD {
      MultipleBetween(done, frames);
      MultipleBetween(asked, frames);
    }
  }

  lemma TooShort(clip: Clip, data: seq<Byte>, asked: nat, n: nat)
    requires clip.Valid() && NoSpare(clip, |data|) && !clip.Short(data)
    requires asked + n >= clip.frames + Spare(clip.frames)
    ensures n > 0 ==> Fetched(clip, data, asked, n).None?
  {
    SizeMonotone(clip, clip.frames + Spare(clip.frames), asked + n);
    SizeAdds(clip, asked, n);
    SizeMonotone(clip, 0, n);
  }

  /** With retries too, as long as the file has no spare frames. */
  lemma {:induction false} NoSpareBounded(clip: Clip, data: seq<Byte>, script: Script, p: Progress)
    requires clip.Valid() && clip.Cleared(data) && NoSpare(clip, |data|)
    requires p.Valid(clip) && (p.done < clip.frames && |data| > clip.Bytes() ==> OnGrid(clip, p))
    ensures Bounded(clip, data, script, p)
    decreases clip.frames - p.done, AGAIN_MAX + XRUN_MAX - p.again - p.xruns
  {
    hide Fetched, ScaledAll, Samples, Within, Answered, Clip.Cleared, NoSpare, Spare, OnGrid;
    if p.done < clip.frames {
      var n, w := ChunkFrames(clip, p), script(p.calls);
      BoundedStep(clip, data, script, p);
      if |data| > clip.Bytes() {
        GridReach(clip, p);
        if p.asked + n <= clip.frames {
          GridNext(clip, p, w);
        } else {
          TooShort(clip, data, p.asked, n);
        }
      }
      if Fetched(clip, data, p.asked, n).Some? {
        FetchedWithin(clip, data, p.asked, n);
        if Answered(clip, p, w).Some? {
          AnsweredFurther(clip, p, w);
          NoSpareBounded(clip, data, script, Answered(clip, p, w).value);
        }
      }
    }
  }

  // ----- runs that leave it

  /** At this gain some sample comes out louder than the cap. */
  predicate CanExceed(clip: Clip) {
    Abs(Scaled(-0x8000, clip.gain)) > PeakLimit(clip.amplitude)
  }

  /** Silence for as long as the scan looks, and the loudest samples after that. */
  function LoudAfter(quiet: nat, size: nat): (data: seq<Byte>)
    ensures |data| == size
  {
    seq(size, i => if i < quiet || i % 2 == 0 then 0 else 128)
  }

  lemma LoudIsCleared(clip: Clip, size: nat)
    requires clip.Valid() && 0 <= clip.gain <= GAIN_UNITY && size >= clip.Bytes()
    ensures clip.Cleared(LoudAfter(clip.Bytes(), size))
  {
    var scanned := clip.Scanned(LoudAfter(clip.Bytes(), size));
    forall i | 0 <= i < |scanned| / 2
      ensures Samples(scanned)[i] == 0
    {
      assert scanned[2 * i..2 * i + 2] == [0, 0];
    }
    assert ScaledPeak(0, clip.gain) == 0;
  }

  /** A chunk that ends beyond the clip's end has a loud last sample. */
  lemma LoudChunk(clip: Clip, size: nat, asked: nat, n: nat)
    requires clip.Valid() && CanExceed(clip) && size >= clip.Bytes()
    requires n > 0 && asked + n > clip.frames && clip.Size(asked + n) <= size
    ensures var bytes := Fetched(clip, LoudAfter(clip.Bytes(), size), asked, n);
            bytes.Some? && !Within(ScaledAll(Samples(bytes.value), clip.gain), PeakLimit(clip.amplitude))
  {
    hide Samples, LoudAfter, Clip.Size, Scaled;
    var data := LoudAfter(clip.Bytes(), size);
    var from, to := clip.Size(asked), clip.Size(asked + n);
    BeyondTheEnd(clip, asked, n);
    Readable(clip, data, asked, n, 0);
    FilePosNext(clip, data, asked, n);
    LastSampleLoud(data, clip.Bytes(), from, to);
    var s := Samples(data[from..to]);
    assert ScaledAll(s, clip.gain)[|s| - 1] == Scaled(-0x8000, clip.gain);
  }

  lemma BeyondTheEnd(clip: Clip, asked: nat, n: nat)
    requires clip.Valid() && n > 0 && asked + n > clip.frames
    ensures var from, to := clip.Size(asked), clip.Size(asked + n);
            from % 2 == 0 && to % 2 == 0 && from + 2 <= to && clip.Bytes() + 2 <= to
  {
    hide Clip.Size;
    SizeMonotone(clip, asked, asked + n);
    SizeMonotone(clip, clip.frames, asked + n);
  }

  lemma LastSampleLoud(data: seq<Byte>, quiet: nat, from: nat, to: nat)
    requires data == LoudAfter(quiet, |data|) && from + 2 <= to <= |data| && quiet + 2 <= to
    requires to % 2 == 0 && from % 2 == 0
    ensures var s := Samples(data[from..to]); |s| > 0 && s[|s| - 1] == -0x8000
  {
    var b := data[from..to];
    var i := |b| / 2 - 1;
    assert b[2 * i] == data[to - 2] == 0 && b[2 * i + 1] == data[to - 1] == 128;
  }

  /** As long as whole chunks are written, playing is bounded only if the rest of it is. */
  lemma {:induction false} Advance(clip: Clip, data: seq<Byte>, script: Script, p: Progress, m: nat)
    requires clip.Valid() && p.Valid(clip) && p.done + m * PERIOD <= clip.frames && !clip.Short(data)
    requires clip.Size(p.asked + m * PERIOD) <= |data|
    requires forall k :: p.calls <= k < p.calls + m ==> script(k) == Wrote
    ensures Bounded(clip, data, script, p) ==>
            var q := p.(done := p.done + m * PERIOD, asked := p.asked + m * PERIOD, calls := p.calls + m);
            Bounded(clip, data, script, q)
    decreases m
  {
    hide Bounded, ScaledAll, Samples, Within, Fetched, Clip.Size;
    if m > 0 {
      BoundedStep(clip, data, script, p);
      Readable(clip, data, p.asked, PERIOD, m * PERIOD - PERIOD);
      Advance(clip, data, script, Answered(clip, p, Wrote).value, m - 1);
    }
  }

  lemma Readable(clip: Clip, data: seq<Byte>, asked: nat, n: nat, rest: nat)
    requires clip.Valid() && clip.Size(asked + n + rest) <= |data| && !clip.Short(data)
    ensures Fetched(clip, data, asked, n).Some?
  {
    SizeMonotone(clip, asked + n, asked + n + rest);
    SizeMonotone(clip, asked, asked + n);
    FilePosNext(clip, data, asked, n);
  }

  /** Files of this size can break the cap: one dropped chunk brings the run past what was scanned. */
  lemma SpareBreaks(clip: Clip, size: nat)
    requires clip.Valid() && CanExceed(clip) && !NoSpare(clip, size)
    ensures exists script :: !Bounded(clip, LoudAfter(clip.Bytes(), size), script, START)
  {
    hide Bounded, CanExceed, LoudAfter, Clip.Size;
    var whole, last := clip.frames / PERIOD, clip.frames % PERIOD;
    assert clip.frames == whole * PERIOD + last;
    SizeMonotone(clip, clip.frames, clip.frames + Spare(clip.frames));
    if last == 0 || (clip.frames >= PERIOD && PERIOD - last <= last) {
      DropFirst(clip, size, whole);
    } else {
      DropLast(clip, size, whole, last);
    }
  }

  /** The first chunk is dropped, and the last whole chunk then ends beyond the clip. */
  lemma DropFirst(clip: Clip, size: nat, whole: nat)
    requires clip.Valid() && CanExceed(clip) && whole > 0 && size >= clip.Bytes()
    requires whole * PERIOD <= clip.frames < whole * PERIOD + PERIOD
    requires clip.Size(whole * PERIOD + PERIOD) <= size
    ensures exists script :: !Bounded(clip, LoudAfter(clip.Bytes(), size), script, START)
  {
    hide Bounded, ScaledAll, Samples, Within, Fetched, CanExceed, LoudAfter, Clip.Size;
    var data := LoudAfter(clip.Bytes(), size);
    var script: Script := k => if k == 0 then Again else Wrote;
    Readable(clip, data, 0, PERIOD, whole * PERIOD);
    BoundedStep(clip, data, script, START);
    var p := Progress(0, PERIOD, 1, 0, 1);
    Readable(clip, data, 0, whole * PERIOD, PERIOD);
    SizeMonotone(clip, whole * PERIOD, whole * PERIOD + PERIOD);
    Advance(clip, data, script, p, whole - 1);
    var q := Progress(whole * PERIOD - PERIOD, whole * PERIOD, 1, 0, whole);
    LoudChunk(clip, size, q.asked, PERIOD);
    BoundedStep(clip, data, script, q);
  }

  /** The last, shorter chunk is dropped and read again from beyond the clip's end. */
  lemma DropLast(clip: Clip, size: nat, whole: nat, last: nat)
    requires clip.Valid() && CanExceed(clip) && size >= clip.Bytes()
    requires clip.frames == whole * PERIOD + last && 0 < last < PERIOD
    requires clip.Size(clip.frames + last) <= size
    ensures exists script :: !Bounded(clip, LoudAfter(clip.Bytes(), size), script, START)
  {
    hide Bounded, ScaledAll, Samples, Within, Fetched, CanExceed, LoudAfter, Clip.Size;
    var data := LoudAfter(clip.Bytes(), size);
    var script: Script := k => if k == whole then Again else Wrote;
    SizeMonotone(clip, whole * PERIOD, clip.frames + last);
    Advance(clip, data, script, START, whole);
    var p := Progress(whole * PERIOD, whole * PERIOD, 0, 0, whole);
    Readable(clip, data, p.asked, last, last);
    BoundedStep(clip, data, script, p);
    var q := Progress(whole * PERIOD, clip.frames, 1, 0, whole + 1);
    LoudChunk(clip, size, q.asked, last);
    BoundedStep(clip, data, script, q);
  }

  lemma QuietGain(clip: Clip, s: seq<int>)
    requires 0 <= clip.gain <= GAIN_UNITY && !CanExceed(clip) && Within(s, 0x8000)
    ensures Within(ScaledAll(s, clip.gain), PeakLimit(clip.amplitude))
  {
    forall i | 0 <= i < |s|
      ensures Abs(Scaled(s[i], clip.gain)) <= Abs(Scaled(-0x8000, clip.gain))
    {
      ProductMonotone(Abs(s[i]), 0x8000, clip.gain);
      assert Abs(s[i] * clip.gain) == Abs(s[i]) * clip.gain;
    }
  }

  /** If no sample can exceed the cap at this gain, nothing played does. */
  lemma {:induction false} HarmlessBounded(clip: Clip, data: seq<Byte>, script: Script, p: Progress)
    requires clip.Valid() && 0 <= clip.gain <= GAIN_UNITY && !CanExceed(clip) && p.Valid(clip)
    ensures Bounded(clip, data, script, p)
    decreases clip.frames - p.done, AGAIN_MAX + XRUN_MAX - p.again - p.xruns
  {
    hide Bounded, Fetched, ScaledAll, Answered, CanExceed;
    if p.done < clip.frames {
      var n, w := ChunkFrames(clip, p), script(p.calls);
      BoundedStep(clip, data, script, p);
      var bytes := Fetched(clip, data, p.asked, n);
      if bytes.Some? {
        QuietGain(clip, Samples(bytes.value));
        if Answered(clip, p, w).Some? {
          AnsweredFurther(clip, p, w);
          HarmlessBounded(clip, data, script, Answered(clip, p, w).value);
        }
      }
    } else {
      NothingToBound(clip, data, script, p);
    }
  }

  lemma NothingToBound(clip: Clip, data: seq<Byte>, script: Script, p: Progress)
    requires p.Valid(clip) && p.done == clip.frames
    ensures Bounded(clip, data, script, p)
  {}

  ghost predicate AlwaysBounded(clip: Clip, size: nat)
    requires clip.Valid()
  {
    forall data: seq<Byte>, script: Script ::
      |data| == size && clip.Cleared(data) ==> Bounded(clip, data, script, START)
  }

  /** Exactly when the check before playing keeps every later run within the cap, retries or not: when
      files of that size are too short for a dropped chunk to bring up anything new, or the gain is so
      low that nothing could be too loud, or not a gain the check accepts. */
  lemma CapIsExact(clip: Clip, size: nat)
    requires clip.Valid()
    ensures AlwaysBounded(clip, size) <==>
            !(0 <= clip.gain <= GAIN_UNITY) || NoSpare(clip, size) || !CanExceed(clip)
  {
    hide Bounded, CanExceed, NoSpare, LoudAfter;
    if !(0 <= clip.gain <= GAIN_UNITY) {
    } else if NoSpare(clip, size) || !CanExceed(clip) {
      forall data: seq<Byte>, script: Script | |data| == size && clip.Cleared(data)
        ensures Bounded(clip, data, script, START)
      {
        if NoSpare(clip, size) {
          NoSpareBounded(clip, data, script, START);
        } else {
          HarmlessBounded(clip, data, script, START);
        }
      }
    } else {
      SpareBreaks(clip, size);
      SpareIsLong(clip, size);
      LoudIsCleared(clip, size);
    }
  }

  lemma SpareIsLong(clip: Clip, size: nat)
    requires clip.Valid() && !NoSpare(clip, size)
    ensures size >= clip.Bytes()
  {
    SizeMonotone(clip, clip.frames, clip.frames + Spare(clip.frames));
  }

  /** Validating and playing: what the device takes is within the cap whenever the run had no retries or
      the file no spare frames. */
  method PlayFile(clip: Clip, allowed: bool, source: Source, out: Output) returns (rc: int)
    requires source.Valid() && source.pos == 0 && out.calls == 0 && out.played == []
    modifies source, out
    ensures source.Valid()
    ensures !source.stalled && clip.Valid() && (RetryFree(out.script) || NoSpare(clip, |source.data|)) ==>
              AllWithin(out.played, PeakLimit(clip.amplitude))
    ensures out.played != [] ==> allowed && clip.Valid()
    ensures rc <= 0 && (rc == 0 ==> allowed && clip.Valid()) && (!clip.Valid() ==> rc == EINVAL)
    ensures source.quiet && clip.Valid() && clip.Verdict(allowed, source.data) < 0 ==>
              rc == clip.Verdict(allowed, source.data) && out.played == []
    ensures rc == 0 && !source.stalled ==> clip.Cleared(source.data) && 2 * |Flat(out.played)| == clip.Bytes()
    ensures source.quiet && allowed && clip.Valid() && clip.Cleared(source.data)
            && (forall k :: out.script(k) == Wrote) ==>
              rc == 0 && Flat(out.played) == ScaledAll(Samples(ClipBytes(clip, source.data)), clip.gain)
  {
    hide Played, Finish, Flat, ClipBytes, ScaledAll, Samples, NoSpare, RetryFree, Within, Clip.Cleared;
    if clip.frames == 0 || clip.channels == 0 || clip.channels > 8 {
      return EINVAL;
    }
    var silence: bool;
    rc, silence := OpenValidated(clip, allowed, source);
    if rc < 0 {
      return;
    }
    ghost var cleared := !source.stalled;
    rc := Play(clip, source, silence, out);
    if rc == 0 && !source.stalled {
      Completed(clip, source.data, out.script, START);
      assert clip.Size(0) == 0;
    }
    if forall k :: out.script(k) == Wrote {
      PlaysClip(clip, source.data, out.script);
    }
    if cleared && !source.stalled && (RetryFree(out.script) || NoSpare(clip, |source.data|)) {
      if RetryFree(out.script) {
        RetryFreeBounded(clip, source.data, out.script, START);
      } else {
        NoSpareBounded(clip, source.data, out.script, START);
      }
    }
  }
}
