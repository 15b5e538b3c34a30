/** The playback loop, and when the cap that was checked before holds of what is played. */
module Playback {
  import opened Common
  import opened Bits
  import opened Pcm

  /** What the device answers to a chunk: all of it taken, none of it with or without hope (after an
      underrun it may or may not be prepared again), or only the first `frames` of it. */
  datatype Write = Wrote | Again | Underrun(prepared: bool) | Failed | Short(frames: nat)

  type Script = nat -> Write

  /** `done` frames are played, `asked` frames were asked of the file, and `calls` chunks were offered. */
  datatype Progress = Progress(done: nat, asked: nat, again: nat, xruns: nat, calls: nat) {
    predicate Valid(clip: Clip) {
      done <= clip.frames && again <= AGAIN_MAX && xruns <= XRUN_MAX
    }
  }

  const START := Progress(0, 0, 0, 0, 0)

  function ChunkFrames(clip: Clip, p: Progress): nat
    requires p.Valid(clip)
  {
    Min(clip.frames - p.done, PERIOD)
  }

  /** Where the file stands when `frames` frames were asked of it. */
  function FilePos(clip: Clip, data: seq<Byte>, frames: nat): (n: nat)
    ensures n <= |data|
  {
    Min(clip.Size(frames), |data|)
  }

  /** The next `n` frames after `asked`; a file shorter than the clip is continued with silence. */
  function Fetched(clip: Clip, data: seq<Byte>, asked: nat, n: nat): (r: Option<seq<Byte>>)
    ensures r.Some? ==> |r.value| == clip.Size(n)
  {
    var want := clip.Size(n);
    FilePosNext(clip, data, asked, n);
    var from, to := FilePos(clip, data, asked), FilePos(clip, data, asked + n);
    if clip.Short(data) then Some(data[from..to] + Zeros(want - (to - from)))
    else if to - from < want then None
    else Some(data[from..to])
  }

  /** The progress after the device's answer; None if playback ends with an error. */
  function Answered(clip: Clip, p: Progress, w: Write): (r: Option<Progress>)
    requires p.Valid(clip)
    ensures r.Some? ==> r.value.Valid(clip)
  {
    var n := ChunkFrames(clip, p);
    var q := p.(asked := p.asked + n, calls := p.calls + 1);
    match w
    case Wrote => Some(q.(done := p.done + n))
    case Again => if p.again < AGAIN_MAX then Some(q.(again := p.again + 1)) else None
    case Underrun(prepared) => if p.xruns < XRUN_MAX && prepared then Some(q.(xruns := p.xruns + 1)) else None
    case Failed => None
    case Short(_) => None
  }

  /** The samples of a chunk that the device takes with this answer. */
  function Taken(clip: Clip, w: Write, chunk: seq<int>): seq<seq<int>> {
    match w
    case Wrote => [chunk]
    case Short(frames) => [chunk[..Min(frames * clip.channels, |chunk|)]]
    case _ => []
  }

  /** The chunks of samples that the device takes from here on. */
  function Played(clip: Clip, data: seq<Byte>, script: Script, p: Progress): seq<seq<int>>
    requires p.Valid(clip)
    decreases clip.frames - p.done, AGAIN_MAX + XRUN_MAX - p.again - p.xruns
  {
    if p.done == clip.frames then []
    else
      var bytes := Fetched(clip, data, p.asked, ChunkFrames(clip, p));
      if bytes.None? then []
      else
        var w := script(p.calls);
        var next := Answered(clip, p, w);
        Taken(clip, w, ScaledAll(Samples(bytes.value), clip.gain)) +
        (if next.None? then [] else Played(clip, data, script, next.value))
  }

  /** Where playback ends if it completes; None if it ends with an error. */
  function Finish(clip: Clip, data: seq<Byte>, script: Script, p: Progress): Option<Progress>
    requires p.Valid(clip)
    decreases clip.frames - p.done, AGAIN_MAX + XRUN_MAX - p.again - p.xruns
  {
    if p.done == clip.frames then Some(p)
    else if Fetched(clip, data, p.asked, ChunkFrames(clip, p)).None? then None
    else
      var next := Answered(clip, p, script(p.calls));
      if next.None? then None else Finish(clip, data, script, next.value)
  }

  lemma PlayedNext(clip: Clip, data: seq<Byte>, script: Script, p: Progress)
    requires p.Valid(clip) && p.done < clip.frames
    ensures var bytes := Fetched(clip, data, p.asked, ChunkFrames(clip, p));
            var next := Answered(clip, p, script(p.calls));
            Played(clip, data, script, p) ==
            if bytes.None? then []
            else
              Taken(clip, script(p.calls), ScaledAll(Samples(bytes.value), clip.gain)) +
              (if next.None? then [] else Played(clip, data, script, next.value))
    ensures var next := Answered(clip, p, script(p.calls));
            Finish(clip, data, script, p) ==
            if Fetched(clip, data, p.asked, ChunkFrames(clip, p)).None? || next.None? then None
            else Finish(clip, data, script, next.value)
  {}

  lemma NothingLeft(clip: Clip, data: seq<Byte>, script: Script, p: Progress)
    requires p.Valid(clip) && p.done == clip.frames
    ensures Played(clip, data, script, p) == [] && Finish(clip, data, script, p) == Some(p)
  {}

  lemma AnsweredFurther(clip: Clip, p: Progress, w: Write)
    requires p.Valid(clip) && p.done < clip.frames && Answered(clip, p, w).Some?
    ensures var q := Answered(clip, p, w).value;
            && q.calls == p.calls + 1 && q.asked == p.asked + ChunkFrames(clip, p)
            && (q.done > p.done || (q.done == p.done && q.again + q.xruns > p.again + p.xruns))
  {}

  // ----- the loop

  class Output {
    const script: Script
    var calls: nat
    var played: seq<seq<int>>

    constructor (script: Script)
      ensures this.script == script && calls == 0 && played == []
    {
      this.script, calls, played := script, 0, [];
    }

    method WriteFrames(clip: Clip, samples: seq<int>) returns (w: Write)
      modifies this
      ensures w == script(old(calls)) && calls == old(calls) + 1
      ensures played == old(played) + Taken(clip, w, samples)
    {
      w := script(calls);
      calls := calls + 1;
      played := played + Taken(clip, w, samples);
    }
  }

  lemma FilePosNext(clip: Clip, data: seq<Byte>, asked: nat, n: nat)
    ensures FilePos(clip, data, asked + n) == Min(FilePos(clip, data, asked) + clip.Size(n), |data|)
  {
    SizeAdds(clip, asked, n);
  }

  method Fetch(clip: Clip, source: Source, silence: bool, ghost asked: nat, n: nat) returns (rc: int, bytes: seq<Byte>)
    requires clip.Valid() && source.Valid() && silence == clip.Short(source.data)
    requires !source.stalled ==> source.pos == FilePos(clip, source.data, asked)
    modifies source
    ensures source.Valid() && (old(source.stalled) ==> source.stalled)
    ensures rc >= 0 && !source.stalled ==>
              Fetched(clip, source.data, asked, n) == Some(bytes) && source.pos == FilePos(clip, source.data, asked + n)
    ensures rc <= 0 && (rc < 0 && source.quiet ==> Fetched(clip, source.data, asked, n).None?)
  {
    hide FilePos;
    FilePosNext(clip, source.data, asked, n);
    var want := clip.Size(n);
    if silence {
      rc, bytes := source.ReadTail(want);
    } else {
      rc, bytes := source.ReadExact(want);
    }
  }

  /** Reads the next chunk and applies the gain. */
  method NextChunk(clip: Clip, source: Source, silence: bool, ghost asked: nat, n: nat)
    returns (rc: int, samples: seq<int>)
    requires clip.Valid() && source.Valid() && silence == clip.Short(source.data)
    requires !source.stalled ==> source.pos == FilePos(clip, source.data, asked)
    modifies source
    ensures source.Valid() && (old(source.stalled) ==> source.stalled)
    ensures rc >= 0 && !source.stalled ==>
              && Fetched(clip, source.data, asked, n).Some?
              && samples == ScaledAll(Samples(Fetched(clip, source.data, asked, n).value), clip.gain)
              && source.pos == FilePos(clip, source.data, asked + n)
    ensures rc <= 0 && (rc < 0 && source.quiet ==> Fetched(clip, source.data, asked, n).None?)
  {
    hide FilePos, Fetched, ScaledAll;
    var bytes: seq<Byte>;
    rc, bytes := Fetch(clip, source, silence, asked, n);
    samples := [];
    if rc >= 0 {
      var buffer := new int[|bytes| / 2](i requires 0 <= i < |bytes| / 2 => SampleAt(bytes, i));
      assert buffer[..] == Samples(bytes);
      ApplyGain(buffer, clip.gain);
      samples := buffer[..];
    }
  }

  lemma StartsAtZero(clip: Clip, data: seq<Byte>)
    ensures FilePos(clip, data, 0) == 0
  {}

  /** Plays the clip. What the device has taken is what it is said to take, up to a failed read. */
  method Play(clip: Clip, source: Source, silence: bool, out: Output) returns (rc: int)
    requires clip.Valid() && source.Valid() && source.pos == 0
    requires silence == clip.Short(source.data) && out.calls == 0 && out.played == []
    modifies source, out
    ensures source.Valid() && (old(source.stalled) ==> source.stalled)
    ensures !source.stalled ==> out.played <= Played(clip, source.data, out.script, START)
    ensures source.quiet || (rc >= 0 && !source.stalled) ==> out.played == Played(clip, source.data, out.script, START)
    ensures rc <= 0 && (rc == 0 && !source.stalled ==> Finish(clip, source.data, out.script, START).Some?)
    ensures source.quiet ==> (rc == 0 <==> Finish(clip, source.data, out.script, START).Some?)
  {
    hide FilePos, Fetched, ScaledAll, Samples, Played, Finish, Answered, Taken;
    var p := START;
    StartsAtZero(clip, source.data);
    ghost var all := Played(clip, source.data, out.script, START);
    rc := 0;
    while p.done < clip.frames
      invariant source.Valid() && (old(source.stalled) ==> source.stalled)
      invariant p.Valid(clip) && out.calls == p.calls
      invariant !source.stalled ==> source.pos == FilePos(clip, source.data, p.asked)
      invariant !source.stalled ==> all == out.played + Played(clip, source.data, out.script, p)
      invariant !source.stalled ==>
          Finish(clip, source.data, out.script, p) == Finish(clip, source.data, out.script, START)
      invariant rc == 0
      decreases clip.frames - p.done, AGAIN_MAX + XRUN_MAX - p.again - p.xruns
    {
      var n := ChunkFrames(clip, p);
      var samples: seq<int>;
      PlayedNext(clip, source.data, out.script, p);
      rc, samples := NextChunk(clip, source, silence, p.asked, n);
      if rc < 0 {
        return;
      }
      var w := out.WriteFrames(clip, samples);
      var next := Answered(clip, p, w);
      if next.None? {
        return EIO;
      }
      AnsweredFurther(clip, p, w);
      p := next.value;
    }
    NothingLeft(clip, source.data, out.script, p);
  }
}
