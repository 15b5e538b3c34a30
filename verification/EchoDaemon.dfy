/** The echo daemon: it answers a fixed number of requests and exits 0 only after a clean session. */
module EchoDaemon {
  import opened Common
  import opened Bits
  import opened Frames
  import opened Tty
  import opened DaemonLog

  function Slipped(i: nat): nat {
    if i <= U32_LIMIT then 0 else Shown(i - U32_LIMIT)
  }

  /** Sequence numbers that stand still 2^32 times and are consecutive after that. */
  function Slipping(n: nat): (seen: seq<nat>)
    ensures |seen| == n
  {
    seq(n, i requires i >= 0 => Slipped(i))
  }

  lemma {:induction false} SlippingBreaks(n: nat)
    requires n > 0
    ensures Breaks(Slipping(n)) == if n <= U32_LIMIT then n - 1 else U32_LIMIT
  {
    if n > 1 {
      SlippingBreaks(n - 1);
      var seen := Slipping(n);
      assert seen[..n - 1] == Slipping(n - 1);
      if n - 1 > U32_LIMIT {
        ShownIncrement(n - 2 - U32_LIMIT);
      }
    }
  }

  /** The exit test reads a 32-bit counter, which 2^32 gaps bring back to zero: a counter of zero means
      consecutive sequence numbers exactly for sessions of at most 2^32 intact frames. */
  lemma CounterIsExact(n: nat)
    ensures (forall seen: seq<nat> :: |seen| == n && Shown(Breaks(seen)) == 0 ==> Consecutive(seen)) <==> n <= U32_LIMIT
  {
    if n <= U32_LIMIT {
      forall seen: seq<nat> | |seen| == n && Shown(Breaks(seen)) == 0
        ensures Consecutive(seen)
      {
        BreaksCountGaps(seen);
      }
    } else {
      SlippingBreaks(n);
      BreaksCountGaps(Slipping(n));
      assert Shown(Breaks(Slipping(n))) == 0 && !Consecutive(Slipping(n));
    }
  }

  /** A complete response to `f` stands at position `at` of the output. */
  predicate AnsweredAt(output: seq<Byte>, f: Frame, at: nat) {
    && f.Valid() && at + Length(f) <= |output|
    && output[at..at + Length(f)] == Encode(RESPONSE, Response(f.sequence, f.payload))
  }

  /** The output holds a complete response to each frame, in order and without overlaps. */
  ghost predicate Answers(output: seq<Byte>, frames: seq<Frame>, at: seq<nat>) {
    && |at| == |frames|
    && (forall i :: 0 <= i < |frames| ==> AnsweredAt(output, frames[i], at[i]))
    && (forall i, j :: 0 <= i < j < |frames| ==> at[i] + Length(frames[i]) <= at[j])
  }

  lemma AnsweredLater(output: seq<Byte>, more: seq<Byte>, f: Frame, at: nat)
    requires AnsweredAt(output, f, at) && output <= more
    ensures AnsweredAt(more, f, at)
  {
    hide Encode, Response;
    assert more[at..at + Length(f)] == output[at..at + Length(f)];
  }

  lemma AnswersKept(output: seq<Byte>, more: seq<Byte>, frames: seq<Frame>, at: seq<nat>)
    requires Answers(output, frames, at) && output <= more
    ensures Answers(more, frames, at)
  {
    hide AnsweredAt;
    forall i | 0 <= i < |frames|
      ensures AnsweredAt(more, frames[i], at[i])
    {
      AnsweredLater(output, more, frames[i], at[i]);
    }
  }

  lemma AnswersNext(output: seq<Byte>, frames: seq<Frame>, at: seq<nat>, f: Frame)
    requires Answers(output, frames, at) && f.Valid()
    ensures Answers(output + Encode(RESPONSE, Response(f.sequence, f.payload)), frames + [f], at + [|output|])
  {
    hide Encode, Response;
    var more := output + Encode(RESPONSE, Response(f.sequence, f.payload));
    AnswersKept(output, more, frames, at);
    ResponseLength(f);
    assert more[|output|..|output| + Length(f)] == Encode(RESPONSE, Response(f.sequence, f.payload));
    assert AnsweredAt(more, f, |output|);
    EndsWithin(output, frames, at);
  }

  lemma ResponseLength(f: Frame)
    requires f.Valid()
    ensures |Encode(RESPONSE, Response(f.sequence, f.payload))| == Length(f)
  {}

  lemma EndsWithin(output: seq<Byte>, frames: seq<Frame>, at: seq<nat>)
    requires Answers(output, frames, at)
    ensures forall i :: 0 <= i < |frames| ==> at[i] + Length(frames[i]) <= |output|
  {
    hide Encode, Response;
  }

  /** The requests whose response went out whole, in order. */
  function Echoed(log: Log): (fs: seq<Frame>)
    ensures |fs| <= |Requests(log)|
  {
    if log == [] then []
    else
      var last := log[|log| - 1];
      Echoed(log[..|log| - 1]) + if last.Served? && last.out then [last.frame] else []
  }

  lemma EchoedSnoc(log: Log, e: Event)
    ensures Echoed(log + [e]) == if e.Served? && e.out then Echoed(log) + [e.frame] else Echoed(log)
  {
    assert (log + [e])[..|log|] == log;
  }

  lemma {:induction false} EchoedCounted(log: Log)
    ensures |Echoed(log)| == |Where(log, (e: Event) => e.Served? && e.out)|
  {
    hide Where;
    if log == [] {
      WhereNone(log, (e: Event) => e.Served? && e.out);
    } else {
      EchoedCounted(log[..|log| - 1]);
      WhereLast(log, (e: Event) => e.Served? && e.out);
    }
  }

  class Daemon {
    const line: Line
    const maxRequests: nat
    var handled: nat
    var invalid: nat
    var crcErrors: nat
    var seqErrors: nat
    var ioReopens: nat
    var expected: nat
    var haveSeq: bool

    ghost var log: Log
    ghost var at: seq<nat>    // where in the output the responses of the log stand

    /** The counters are those of the log. */
    ghost predicate Counts()
      reads this
    {
      && handled == |Echoed(log)| <= maxRequests
      && invalid == Shown(BadHeaders(log)) && crcErrors == Shown(BadChecksums(log)) && ioReopens == Shown(Reopens(log))
      && seqErrors == Shown(Gaps(log)) && (haveSeq <==> Requests(log) != [])
      && (haveSeq ==> expected == Inc32(Requests(log)[|Requests(log)| - 1].sequence))
    }

    ghost predicate Valid()
      reads this, line`pos, line`output
    {
      && line.Valid() && 0 < maxRequests < U32_LIMIT && AllPossible(log)
      && Counts() && Answers(line.output, Echoed(log), at)
    }

    constructor (line: Line, maxRequests: nat)
      requires line.Valid() && 0 < maxRequests < U32_LIMIT
      ensures Valid() && this.line == line && this.maxRequests == maxRequests && log == []
    {
      this.line, this.maxRequests := line, maxRequests;
      handled, invalid, crcErrors, seqErrors, ioReopens, expected, haveSeq := 0, 0, 0, 0, 0, 0, false;
      log, at := [], [];
    }

    /** Compares an intact frame's sequence number with the expected one. */
    method Track(sequence: nat, ghost rs: seq<Frame>)
      requires seqErrors == Shown(Breaks(Sequences(rs))) && (haveSeq <==> rs != [])
      requires haveSeq ==> expected == Inc32(rs[|rs| - 1].sequence)
      modifies this`seqErrors, this`expected, this`haveSeq
      ensures seqErrors == Shown(Breaks(Sequences(rs) + [sequence])) && haveSeq && expected == Inc32(sequence)
    {
      hide Inc32, Shown, Breaks;
      BreaksSnoc(Sequences(rs), sequence);
      ShownIncrement(Breaks(Sequences(rs)));
      if haveSeq && sequence != expected {
        seqErrors := Inc32(seqErrors);
      }
      expected := Inc32(sequence);
      haveSeq := true;
    }

    /** An intact request: its sequence number is compared and its payload sent back. It counts as handled only
        if that went out whole. */
    method Answer(f: Frame) returns (ok: bool)
      requires Valid() && handled < maxRequests && f.Valid() && Intact(REQUEST, f)
      modifies this, line`output
      ensures Valid() && log == old(log) + [Served(f, ok)] && (line.quiet ==> ok)
      ensures ok ==> line.output == old(line.output) + Encode(RESPONSE, Response(f.sequence, f.payload))
    {
      hide Encode, Response, Inc32, Shown, Answers, Breaks, Requests, Sequences, BadHeaders, BadChecksums, Reopens;
      hide Echoed, Intact;
      Track(f.sequence, Requests(log));
      ghost var before := line.output;
      ok := Respond(line, f.sequence, f.payload);
      ghost var e := Served(f, ok);
      LogSnoc(log, e);
      EchoedSnoc(log, e);
      SequencesSnoc(Requests(log), f);
      if ok {
        AnswersNext(before, Echoed(log), at, f);
        handled, at := handled + 1, at + [|before|];
      } else {
        AnswersKept(before, line.output, Echoed(log), at);
        ShownIncrement(Reopens(log));
        ioReopens := Inc32(ioReopens);
      }
      log := log + [e];
    }

    /** A turn that answers nothing. */
    method Note(e: Event)
      requires Valid() && !e.Served? && Possible(e)
      modifies this`invalid, this`crcErrors, this`ioReopens, this`log
      ensures Valid() && log == old(log) + [e]
    {
      hide Inc32, Shown, Answers, Breaks, Requests, Sequences, BadHeaders, BadChecksums, Reopens, Echoed, Possible;
      LogSnoc(log, e);
      EchoedSnoc(log, e);
      match e {
        case BadHeader =>
          ShownIncrement(BadHeaders(log));
          invalid := Inc32(invalid);
        case BadChecksum(_) =>
          ShownIncrement(BadChecksums(log));
          crcErrors := Inc32(crcErrors);
        case Reopen =>
          ShownIncrement(Reopens(log));
          ioReopens := Inc32(ioReopens);
        case Served(_, _) =>
      }
      log := log + [e];
    }

    /** One turn of the inner loop; false means the device is closed and opened again. */
    method ServeOne() returns (more: bool)
      requires Valid() && handled < maxRequests
      modifies this, line`pos, line`output
      ensures Valid() && Turn(line.input, old(line.pos), old(log), line.pos, log) && GoesOn(old(log), log, more)
      ensures line.quiet ==> QuietTurn(line.input, old(line.pos), old(log), line.pos, log, more)
      ensures line.quiet ==>
                line.output == old(line.output) +
                  (if log != old(log) && log[|old(log)|].Served?
                   then Encode(RESPONSE, Response(log[|old(log)|].frame.sequence, log[|old(log)|].frame.payload))
                   else [])
    {
      hide Encode, Intact, Response, Answers, Counts, Shows, Span, NextEvent, Turn, QuietTurn, GoesOn;
      ghost var pos, was := line.pos, log;
      var r := ReceiveNext(line);
      ghost var out := true;
      match r {
        case Idle =>
          more := *;
        case Broken =>
          Note(Reopen);
          more := false;
        case Malformed =>
          Note(BadHeader);
          more := false;
        case Corrupt(f) =>
          Note(BadChecksum(f));
          more := true;
        case Request(f) =>
          more := Answer(f);
          out := more;
      }
      TurnBy(line.input, pos, was, line.pos, r, out, more, line.quiet);
    }

    /** The whole program after argument parsing; `turns` bounds the loop turns before a signal or the
        idle timeout ends it. */
    method Run(turns: nat) returns (code: int, ghost places: seq<nat>)
      requires Valid()
      modifies this, line
      ensures Valid()
      ensures Orderly(line.input, old(Since(log, line.pos, line.opens, line.failed)), log, places,
                      line.pos, line.opens, line.failed)
      ensures code == 0 || code == 1
      ensures code == 0 <==> |Echoed(log)| == maxRequests && Shown(BadHeaders(log)) == 0
                             && Shown(BadChecksums(log)) == 0 && Shown(Gaps(log)) == 0
      ensures code == 0 && (|Requests(log)| <= U32_LIMIT || |Requests(log)| == |Echoed(log)|) ==>
                Consecutive(Sequences(Requests(log)))
    {
      hide Answers, Breaks, Consecutive, Orderly, Requests, BadHeaders, BadChecksums, Reopens, Echoed, Counts, GoesOn;
      hide Turn, QuietTurn, AllPossible;
      ghost var since := Since(log, line.pos, line.opens, line.failed);
      places := [];
      OrderlyStart(line.input, since);
      var left := turns;
      while left > 0 && handled < maxRequests
        invariant Valid() && Orderly(line.input, since, log, places, line.pos, line.opens, line.failed)
      {
        left := left - 1;
        OrderlyOpen(line.input, since, log, places, line.pos, line.opens, line.failed);
        var ready := line.Open();
        if !ready {
          Note(Reopen);
          places := places + [line.pos];
          continue;
        }
        while left > 0 && handled < maxRequests
          invariant Valid() && line.opens > 0
          invariant Orderly(line.input, since, log, places, line.pos, line.opens - 1, line.failed)
          invariant Orderly(line.input, since, log, places, line.pos, line.opens, line.failed)
        {
          left := left - 1;
          ghost var pos, was := line.pos, log;
          var more := ServeOne();
          places := OrderlyTurn(line.input, since, was, places, pos, line.opens - 1, line.failed, log, line.pos, more);
          if !more {
            break;
          }
        }
      }
      code := ExitCode();
    }

    method ExitCode() returns (code: int)
      requires Valid()
      ensures code == 0 || code == 1
      ensures code == 0 <==> |Echoed(log)| == maxRequests && Shown(BadHeaders(log)) == 0
                             && Shown(BadChecksums(log)) == 0 && Shown(Gaps(log)) == 0
      ensures code == 0 && (|Requests(log)| <= U32_LIMIT || |Requests(log)| == |Echoed(log)|) ==>
                Consecutive(Sequences(Requests(log)))
    {
      hide Breaks, Consecutive, Requests, BadHeaders, BadChecksums, Reopens, Echoed;
      BreaksCountGaps(Sequences(Requests(log)));
      code := if handled == maxRequests && invalid == 0 && crcErrors == 0 && seqErrors == 0 then 0 else 1;
    }
  }
}
