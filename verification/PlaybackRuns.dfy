/** What a whole playback run plays, and when it completes. */
module PlaybackRuns {
  import opened Common
  import opened Bits
  import opened Pcm
  import opened Playback

  // ----- runs that complete

  /** How many of the calls from `from` up to `to` the device answered with `w`. */
  function AnswersIn(script: Script, from: nat, to: nat, w: Write): set<int> {
    set k: nat | from <= k < to && script(k) == w
  }

  lemma AnswersSplit(script: Script, from: nat, to: nat, w: Write)
    requires from < to
    ensures |AnswersIn(script, from, to, w)| ==
            |AnswersIn(script, from + 1, to, w)| + if script(from) == w then 1 else 0
  {
    var was, now := AnswersIn(script, from + 1, to, w), AnswersIn(script, from, to, w);
    assert forall k :: k in now <==> k in was || (k == from && script(from) == w);
    OneMore(was, now, from, script(from) == w);
  }

  lemma NoAnswers(script: Script, from: nat, w: Write)
    ensures AnswersIn(script, from, from, w) == {}
  {}

  /** The samples of all chunks, one after the other. */
  function Flat(chunks: seq<seq<int>>): seq<int> {
    if chunks == [] then [] else chunks[0] + Flat(chunks[1..])
  }

  lemma FlatFirst(chunks: seq<seq<int>>, rest: seq<seq<int>>)
    requires |chunks| <= 1
    ensures Flat(chunks + rest) == (if chunks == [] then [] else chunks[0]) + Flat(rest)
  {
    if chunks == [] {
      assert chunks + rest == rest;
    } else {
      assert (chunks + rest)[1..] == rest;
    }
  }

  /** A run that completes took every frame of the clip and saw no other answers than whole chunks and the
      retries it counts, which stay within their bounds. */
  lemma {:induction false} Completed(clip: Clip, data: seq<Byte>, script: Script, p: Progress)
    requires p.Valid(clip) && clip.Valid() && Finish(clip, data, script, p).Some?
    ensures var q := Finish(clip, data, script, p).value;
            && q.Valid(clip) && q.done == clip.frames && p.calls <= q.calls
            && q.again == p.again + |AnswersIn(script, p.calls, q.calls, Again)|
            && q.xruns == p.xruns + |AnswersIn(script, p.calls, q.calls, Underrun(true))|
            && (forall k :: p.calls <= k < q.calls ==>
                  script(k) == Wrote || script(k) == Again || script(k) == Underrun(true))
            && 2 * |Flat(Played(clip, data, script, p))| == clip.Size(clip.frames) - clip.Size(p.done)
    decreases clip.frames - p.done, AGAIN_MAX + XRUN_MAX - p.again - p.xruns
  {
    hide Fetched, Samples, ScaledAll, Played, Finish, AnswersIn, Flat, Clip.Size;
    if p.done == clip.frames {
      NothingLeft(clip, data, script, p);
      NoAnswers(script, p.calls, Again);
      NoAnswers(script, p.calls, Underrun(true));
      FlatNone();
    } else {
      PlayedNext(clip, data, script, p);
      var n, w := ChunkFrames(clip, p), script(p.calls);
      var chunk := ScaledAll(Samples(Fetched(clip, data, p.asked, n).value), clip.gain);
      var next := Answered(clip, p, w).value;
      AnsweredFurther(clip, p, w);
      Completed(clip, data, script, next);
      var q := Finish(clip, data, script, p).value;
      AnswersSplit(script, p.calls, q.calls, Again);
      AnswersSplit(script, p.calls, q.calls, Underrun(true));
      FlatFirst(Taken(clip, w, chunk), Played(clip, data, script, next));
      SizeAdds(clip, p.done, n);
    }
  }

  lemma FlatNone()
    ensures Flat([]) == []
  {}

  // ----- what an undisturbed run plays

  /** What the clip is to sound like before the gain: the file, cut off or continued with silence. */
  function ClipBytes(clip: Clip, data: seq<Byte>): (b: seq<Byte>)
    ensures |b| == clip.Bytes()
  {
    if clip.Short(data) then data + Zeros(clip.Bytes() - |data|) else data[..clip.Bytes()]
  }

  lemma FetchedIsSlice(clip: Clip, data: seq<Byte>, asked: nat, n: nat)
    requires clip.Valid() && asked + n <= clip.frames
    ensures clip.Size(asked) <= clip.Size(asked + n) <= clip.Bytes()
    ensures Fetched(clip, data, asked, n) == Some(ClipBytes(clip, data)[clip.Size(asked)..clip.Size(asked + n)])
  {
    hide Clip.Size;
    SizeMonotone(clip, asked, asked + n);
    SizeMonotone(clip, asked + n, clip.frames);
    SizeAdds(clip, asked, n);
    FilePosNext(clip, data, asked, n);
    SliceOfPadded(data, clip.Size(asked), clip.Size(asked + n), clip.Bytes());
  }

  lemma SliceOfPadded(data: seq<Byte>, from: nat, to: nat, size: nat)
    requires from <= to <= size
    ensures size <= |data| ==> data[..size][from..to] == data[from..to]
    ensures size > |data| ==>
              var f, t := Min(from, |data|), Min(to, |data|);
              (data + Zeros(size - |data|))[from..to] == data[f..t] + Zeros(to - from - (t - f))
  {}

  lemma ScaledAllConcat(a: seq<int>, b: seq<int>, gain: int)
    ensures ScaledAll(a + b, gain) == ScaledAll(a, gain) + ScaledAll(b, gain)
  {}

  /** What is still to come is the rest of the clip. */
  lemma {:induction false} PlaysRest(clip: Clip, data: seq<Byte>, script: Script, p: Progress)
    requires clip.Valid() && p.Valid(clip) && p.asked == p.done && forall k :: script(k) == Wrote
    ensures Finish(clip, data, script, p).Some? && clip.Size(p.done) <= clip.Bytes()
    ensures Flat(Played(clip, data, script, p)) ==
            ScaledAll(Samples(ClipBytes(clip, data)[clip.Size(p.done)..]), clip.gain)
    decreases clip.frames - p.done
  {
    hide Fetched, Samples, ScaledAll, Played, Finish, Flat, Clip.Size, ClipBytes;
    var all, from := ClipBytes(clip, data), clip.Size(p.done);
    SizeMonotone(clip, p.done, clip.frames);
    if p.done == clip.frames {
      NothingLeft(clip, data, script, p);
      FlatNone();
      NoSamples(clip.gain);
      assert all[from..] == [];
    } else {
      var n := ChunkFrames(clip, p);
      var to := clip.Size(p.done + n);
      PlayedNext(clip, data, script, p);
      FetchedIsSlice(clip, data, p.asked, n);
      var next := Answered(clip, p, Wrote).value;
      PlaysRest(clip, data, script, next);
      var chunk := all[from..to];
      FlatFirst(Taken(clip, Wrote, ScaledAll(Samples(chunk), clip.gain)), Played(clip, data, script, next));
      assert all[from..] == chunk + all[to..];
      SamplesConcat(chunk, all[to..]);
      ScaledAllConcat(Samples(chunk), Samples(all[to..]), clip.gain);
    }
  }

  lemma NoSamples(gain: int)
    ensures ScaledAll(Samples([]), gain) == []
  {}

  /** An undisturbed run completes and plays the whole clip under the gain, once and in order, however it is
      cut into chunks. */
  lemma PlaysClip(clip: Clip, data: seq<Byte>, script: Script)
    requires clip.Valid() && forall k :: script(k) == Wrote
    ensures Finish(clip, data, script, START).Some?
    ensures Flat(Played(clip, data, script, START)) == ScaledAll(Samples(ClipBytes(clip, data)), clip.gain)
  {
    hide Played, Finish, Flat, ClipBytes, ScaledAll, Samples;
    PlaysRest(clip, data, script, START);
    assert ClipBytes(clip, data)[0..] == ClipBytes(clip, data);
    assert clip.Size(0) == 0;
  }
}
