/** The control daemon: the echo protocol, a status query, a limit on echoes and a verdict that is
    recorded once. What it does is stated over the log of what its loop has seen. */
module ControlDaemon {
  import opened Common
  import opened Bits
  import opened Frames
  import opened Tty
  import opened DaemonLog
  import opened EchoDaemon

  /** "O3 STATUS" */
  const STATUS_QUERY: seq<Byte> := [0x4f, 0x33, 0x20, 0x53, 0x54, 0x41, 0x54, 0x55, 0x53]
  /** "result=echo-limit\n" */
  const ECHO_LIMIT: seq<Byte> :=
    [0x72, 0x65, 0x73, 0x75, 0x6c, 0x74, 0x3d, 0x65, 0x63, 0x68, 0x6f, 0x2d, 0x6c, 0x69, 0x6d, 0x69, 0x74, 0x0a]

  datatype Verdict = Pass | Fail | TimedOut

  /** What a session is given: the echo limit and the status text its n-th status query would read. */
  datatype Setting = Setting(maxRequests: nat, status: nat -> seq<Byte>) {
    ghost predicate Valid() {
      0 < maxRequests < U32_LIMIT && forall q :: 0 < |status(q)| <= MAX_PAYLOAD
    }
  }

  predicate IsEcho(f: Frame) {
    f.payload != STATUS_QUERY
  }

  function Echoes(rs: seq<Frame>): (n: nat)
    ensures n <= |rs|
  {
    if rs == [] then 0 else Echoes(rs[..|rs| - 1]) + if IsEcho(rs[|rs| - 1]) then 1 else 0
  }

  function Queries(rs: seq<Frame>): nat {
    |rs| - Echoes(rs)
  }

  lemma {:induction false} EchoesCounted(rs: seq<Frame>)
    ensures Echoes(rs) == |Where(rs, IsEcho)|
  {
    hide Where, IsEcho;
    if rs == [] {
      WhereNone(rs, IsEcho);
    } else {
      EchoesCounted(rs[..|rs| - 1]);
      WhereLast(rs, IsEcho);
    }
  }

  lemma {:induction false} QueriesCounted(rs: seq<Frame>)
    ensures Queries(rs) == |Where(rs, IsQuery)|
  {
    hide Where, STATUS_QUERY;
    if rs == [] {
      WhereNone(rs, IsQuery);
    } else {
      QueriesCounted(rs[..|rs| - 1]);
      WhereLast(rs, IsQuery);
    }
  }

  predicate IsQuery(f: Frame) {
    f.payload == STATUS_QUERY
  }

  /** Echo requests beyond the limit. */
  function Excess(g: Setting, rs: seq<Frame>): nat {
    if Echoes(rs) <= g.maxRequests then 0 else Echoes(rs) - g.maxRequests
  }

  /** Request `j` is an echo that comes after as many echoes as the limit allows. */
  predicate OverLimit(g: Setting, rs: seq<Frame>, j: int)
    requires 0 <= j < |rs|
  {
    IsEcho(rs[j]) && |Where(rs[..j], IsEcho)| >= g.maxRequests
  }

  lemma {:induction false} ExcessCounted(g: Setting, rs: seq<Frame>)
    ensures Excess(g, rs) == |set j | 0 <= j < |rs| && OverLimit(g, rs, j)|
  {
    hide OverLimit, Echoes;
    var now := set j | 0 <= j < |rs| && OverLimit(g, rs, j);
    assert rs == [] ==> now == {};
    if rs == [] {
      NoEchoes();
    } else {
      var n, front := |rs| - 1, rs[..|rs| - 1];
      ExcessCounted(g, front);
      assert rs == front + [rs[n]];
      OverLimitBefore(g, front, rs[n]);
      EchoesSnoc(front, rs[n]);
      var was := set j | 0 <= j < n && OverLimit(g, front, j);
      OneMore(was, now, n, OverLimit(g, rs, n));
    }
  }

  lemma NoEchoes()
    ensures Echoes([]) == 0
  {}

  lemma OverLimitBefore(g: Setting, rs: seq<Frame>, f: Frame)
    ensures forall j :: 0 <= j < |rs| ==> OverLimit(g, rs + [f], j) == OverLimit(g, rs, j)
    ensures OverLimit(g, rs + [f], |rs|) <==> IsEcho(f) && Echoes(rs) >= g.maxRequests
  {
    hide IsEcho, Where, Echoes;
    var more := rs + [f];
    forall j | 0 <= j < |rs|
      ensures OverLimit(g, more, j) == OverLimit(g, rs, j)
    {
      assert more[..j] == rs[..j];
    }
    EchoesCounted(rs);
    assert more[..|rs|] == rs;
  }

  // ----- the responses

  /** The body for a request that comes after `earlier` ones: status text for queries, the payload itself
      for as many echoes as the limit allows, and a notice for the others. */
  function BodyFor(g: Setting, earlier: seq<Frame>, f: Frame): (body: seq<Byte>)
    ensures g.Valid() && |f.payload| <= MAX_PAYLOAD ==> |body| <= MAX_PAYLOAD
  {
    if !IsEcho(f) then g.status(Queries(earlier))
    else if Echoes(earlier) < g.maxRequests then f.payload
    else ECHO_LIMIT
  }

  /** What the response to request `j` is to say: the status text of that query, counting from the first; the
      request's own payload if fewer echoes than the limit came before it; the notice otherwise. */
  predicate Answering(g: Setting, rs: seq<Frame>, j: nat, body: seq<Byte>)
    requires j < |rs|
  {
    if rs[j].payload == STATUS_QUERY then body == g.status(|Where(rs[..j], (f: Frame) => f.payload == STATUS_QUERY)|)
    else if |Where(rs[..j], (f: Frame) => f.payload != STATUS_QUERY)| < g.maxRequests then body == rs[j].payload
    else body == ECHO_LIMIT
  }

  lemma BodyAnswers(g: Setting, rs: seq<Frame>, j: nat)
    requires j < |rs|
    ensures Answering(g, rs, j, BodyFor(g, rs[..j], rs[j]))
  {
    hide STATUS_QUERY, ECHO_LIMIT, Echoes, Queries, Where;
    EchoesCounted(rs[..j]);
    QueriesCounted(rs[..j]);
    WhereSame(rs[..j], IsEcho, (f: Frame) => f.payload != STATUS_QUERY);
    WhereSame(rs[..j], IsQuery, (f: Frame) => f.payload == STATUS_QUERY);
  }

  ghost function Reply(g: Setting, earlier: seq<Frame>, f: Frame): (r: Frame)
    requires g.Valid() && f.Valid()
    ensures r.Valid() && r.sequence == f.sequence && r.payload == BodyFor(g, earlier, f)
  {
    Response(f.sequence, BodyFor(g, earlier, f))
  }

  /** The responses that went out whole, in order. */
  ghost function Replies(g: Setting, log: Log): (rs: seq<Frame>)
    requires g.Valid() && AllPossible(log)
    ensures AllValid(rs)
  {
    if log == [] then []
    else
      var front, last := log[..|log| - 1], log[|log| - 1];
      assert Possible(last);
      Replies(g, front) + if last.Served? && last.out then [Reply(g, Requests(front), last.frame)] else []
  }

  /** A response as it goes out. */
  ghost function Wire(r: Frame): seq<Byte>
    requires r.Valid()
  {
    Encode(RESPONSE, Response(r.sequence, r.payload))
  }

  ghost function Sent(rs: seq<Frame>): seq<Byte>
    requires AllValid(rs)
  {
    if rs == [] then []
    else
      assert rs[|rs| - 1].Valid();
      Sent(rs[..|rs| - 1]) + Wire(rs[|rs| - 1])
  }

  // ----- the verdict

  /** A response went out, and by then the echo limit had been reached. */
  predicate Decides(g: Setting, log: Log, k: nat) {
    k < |log| && log[k].Served? && log[k].out && Echoes(Requests(log[..k + 1])) >= g.maxRequests
  }

  /** The first such event. */
  function Decision(g: Setting, log: Log): (d: Option<nat>)
    ensures d.Some? ==> d.value < |log|
  {
    if log == [] then None
    else
      var before := Decision(g, log[..|log| - 1]);
      if before.Some? then before else if Decides(g, log, |log| - 1) then Some(|log| - 1) else None
  }

  /** All three 32-bit error counters show zero. */
  predicate ShowsClean(g: Setting, log: Log) {
    && Shown(BadHeaders(log) + Excess(g, Requests(log))) == 0
    && Shown(BadChecksums(log)) == 0 && Shown(Gaps(log)) == 0
  }

  /** There was no malformed, corrupt, out-of-sequence or over-limit frame. */
  predicate Faultless(g: Setting, log: Log) {
    && BadHeaders(log) == 0 && Excess(g, Requests(log)) == 0 && BadChecksums(log) == 0
    && Consecutive(Sequences(Requests(log)))
  }

  /** The verdict for a log that ends with the deciding event. */
  function Judgement(g: Setting, log: Log): Verdict {
    if ShowsClean(g, log) then Pass else Fail
  }

  /** What is recorded. */
  function Recorded(g: Setting, log: Log): (v: seq<Verdict>)
    ensures |v| <= 1
  {
    var d := Decision(g, log);
    if d.None? then [] else [Judgement(g, log[..d.value + 1])]
  }

  /** The counts that are recorded with a verdict. */
  datatype Report = Report(handled: nat, invalid: nat, crcErrors: nat, seqErrors: nat, ioReopens: nat)

  function ReportOf(g: Setting, log: Log): Report {
    Report(Min(Echoes(Requests(log)), g.maxRequests), Shown(BadHeaders(log) + Excess(g, Requests(log))),
           Shown(BadChecksums(log)), Shown(Gaps(log)), Shown(Reopens(log)))
  }

  function Reported(g: Setting, log: Log): (v: seq<Report>)
    ensures |v| <= 1
  {
    var d := Decision(g, log);
    if d.None? then [] else [ReportOf(g, log[..d.value + 1])]
  }

  // ----- one event more

  lemma EchoesSnoc(rs: seq<Frame>, f: Frame)
    ensures Echoes(rs + [f]) == Echoes(rs) + if IsEcho(f) then 1 else 0
    ensures Sequences(rs + [f]) == Sequences(rs) + [f.sequence]
  {
    assert (rs + [f])[..|rs|] == rs;
  }

  lemma RepliesSnoc(g: Setting, log: Log, e: Event)
    requires g.Valid() && AllPossible(log) && Possible(e)
    ensures AllPossible(log + [e])
    ensures Replies(g, log + [e]) ==
            if e.Served? && e.out then Replies(g, log) + [Reply(g, Requests(log), e.frame)] else Replies(g, log)
  {
    hide Possible, Reply, Requests;
    assert (log + [e])[..|log|] == log;
  }

  lemma DecisionSnoc(g: Setting, log: Log, e: Event)
    ensures Decision(g, log).Some? ==> Recorded(g, log + [e]) == Recorded(g, log) && Decision(g, log + [e]).Some?
                                       && Reported(g, log + [e]) == Reported(g, log)
    ensures Decision(g, log).None? ==> Recorded(g, log) == [] && Reported(g, log) == []
    ensures Decision(g, log).None? ==>
              var now := e.Served? && e.out && Echoes(Requests(log + [e])) >= g.maxRequests;
              && Decision(g, log + [e]).Some? == now
              && Recorded(g, log + [e]) == (if now then [Judgement(g, log + [e])] else [])
              && Reported(g, log + [e]) == (if now then [ReportOf(g, log + [e])] else [])
  {
    hide Judgement, Requests, ReportOf;
    var more := log + [e];
    assert more[..|log|] == log && more[..|log| + 1] == more;
    var d := Decision(g, log);
    if d.Some? {
      assert more[..d.value + 1] == log[..d.value + 1];
    }
  }

  // ----- the daemon

  class Daemon {
    const line: Line
    const setting: Setting
    var handled: nat
    var queries: nat
    var invalid: nat
    var crcErrors: nat
    var seqErrors: nat
    var ioReopens: nat
    var expected: nat
    var haveSeq: bool
    var recorded: bool
    var verdicts: seq<Verdict>
    var reports: seq<Report>

    ghost var log: Log
    ghost var at: seq<nat>    // where in the output the responses of the log stand

    /** The counters that change before a response is sent, for the requests so far. */
    ghost predicate Counts(rs: seq<Frame>, badHeaders: nat)
      reads this`handled, this`queries, this`invalid, this`seqErrors, this`haveSeq, this`expected
    {
      && handled == Min(Echoes(rs), setting.maxRequests) && queries == Queries(rs)
      && invalid == Shown(badHeaders + Excess(setting, rs)) && seqErrors == Shown(Breaks(Sequences(rs)))
      && haveSeq == (rs != []) && (haveSeq ==> expected == Inc32(rs[|rs| - 1].sequence))
    }

    /** The counters and the output are those of the log. */
    ghost predicate Tallied()
      reads this`handled, this`queries, this`invalid, this`seqErrors, this`haveSeq, this`expected
      reads this`crcErrors, this`ioReopens, this`log, this`at, line`pos, line`output
    {
      && line.Valid() && setting.Valid() && AllPossible(log)
      && Counts(Requests(log), BadHeaders(log))
      && crcErrors == Shown(BadChecksums(log)) && ioReopens == Shown(Reopens(log))
      && Answers(line.output, Replies(setting, log), at)
    }

    ghost predicate Valid()
      reads this, line`pos, line`output
    {
      && Tallied() && recorded == Decision(setting, log).Some?
      && verdicts == Recorded(setting, log) && reports == Reported(setting, log)
    }

    constructor (line: Line, setting: Setting)
      requires line.Valid() && setting.Valid()
      ensures Valid() && log == [] && this.line == line && this.setting == setting
    {
      this.line, this.setting := line, setting;
      handled, queries, invalid, crcErrors, seqErrors, ioReopens := 0, 0, 0, 0, 0, 0;
      expected, haveSeq, recorded, verdicts, reports := 0, false, false, [], [];
      log, at := [], [];
    }

    /** Sequence tracking and the choice of the response body, with the counters that go with it. */
    method Count(f: Frame, ghost rs: seq<Frame>, ghost badHeaders: nat) returns (body: seq<Byte>)
      requires setting.Valid() && f.Valid() && Counts(rs, badHeaders)
      modifies this`handled, this`queries, this`invalid, this`seqErrors, this`haveSeq, this`expected
      ensures Counts(rs + [f], badHeaders) && body == BodyFor(setting, rs, f)
    {
      hide Inc32, Shown, Breaks, Echoes, Sequences;
      EchoesSnoc(rs, f);
      Track(f.sequence, rs);
      if f.payload == STATUS_QUERY {
        body := setting.status(queries);
        queries := queries + 1;
      } else if handled < setting.maxRequests {
        body := f.payload;
        handled := handled + 1;
      } else {
        body := ECHO_LIMIT;
        ShownIncrement(badHeaders + Excess(setting, rs));
        invalid := Inc32(invalid);
      }
    }

    method Track(sequence: nat, ghost rs: seq<Frame>)
      requires seqErrors == Shown(Breaks(Sequences(rs))) && haveSeq == (rs != [])
      requires haveSeq ==> expected == Inc32(rs[|rs| - 1].sequence)
      modifies this`seqErrors, this`haveSeq, this`expected
      ensures seqErrors == Shown(Breaks(Sequences(rs) + [sequence])) && haveSeq && expected == Inc32(sequence)
    {
      hide Inc32, Shown, Breaks;
      BreaksSnoc(Sequences(rs), sequence);
      ShownIncrement(Breaks(Sequences(rs)));
      if haveSeq && sequence != expected {
        seqErrors := Inc32(seqErrors);
      }
      expected := Inc32(sequence);
      haveSeq := true;
    }

    /** A turn that sends nothing. */
    method Note(e: Event)
      requires Valid() && !e.Served? && Possible(e)
      modifies this`invalid, this`crcErrors, this`ioReopens, this`log
      ensures Valid() && log == old(log) + [e] && verdicts == old(verdicts)
    {
      hide Inc32, Shown, Breaks, Echoes, Sequences, Requests, BadHeaders, BadChecksums, Reopens;
      hide Replies, Answers, Decision, Recorded, Reported, Possible;
      LogSnoc(log, e);
      RepliesSnoc(setting, log, e);
      DecisionSnoc(setting, log, e);
      match e {
        case BadHeader =>
          ShownIncrement(BadHeaders(log) + Excess(setting, Requests(log)));
          invalid := Inc32(invalid);
        case BadChecksum(_) =>
          ShownIncrement(BadChecksums(log));
          crcErrors := Inc32(crcErrors);
        case Reopen =>
          ShownIncrement(Reopens(log));
          ioReopens := Inc32(ioReopens);
        case Served(_, _) =>
      }
      log := log + [e];
    }

    /** An intact request: counted, answered, logged with whether the answer went out, and judged if it
        did. A lost answer stays counted. */
    method Answer(f: Frame) returns (ok: bool)
      requires Valid() && f.Valid() && Intact(REQUEST, f)
      modifies this, line`output
      ensures Valid() && log == old(log) + [Served(f, ok)] && (line.quiet ==> ok)
      ensures old(verdicts) <= verdicts && (old(recorded) ==> recorded)
      ensures ok ==> line.output == old(line.output) +
                     Encode(RESPONSE, Response(f.sequence, BodyFor(setting, Requests(old(log)), f)))
    {
      hide Encode, Response, Reply, BodyFor, Inc32, Shown, Breaks, Echoes, Sequences, Requests, BadHeaders;
      hide BadChecksums, Reopens, Replies, Answers, Decision, Recorded, Reported, Intact;
      ghost var front, sent := log, line.output;
      var body := Count(f, Requests(log), BadHeaders(log));
      ok := Respond(line, f.sequence, body);
      LogSnoc(log, Served(f, ok));
      RepliesSnoc(setting, log, Served(f, ok));
      DecisionSnoc(setting, log, Served(f, ok));
      if ok {
        AnswersNext(sent, Replies(setting, log), at, Reply(setting, Requests(log), f));
        at := at + [|sent|];
      } else {
        AnswersKept(sent, line.output, Replies(setting, log), at);
        ShownIncrement(Reopens(log));
        ioReopens := Inc32(ioReopens);
      }
      log := log + [Served(f, ok)];
      if ok {
        Judge(front);
      }
    }

    /** After an answer that went out: the verdict, unless there is one. */
    method Judge(ghost front: Log)
      requires Tallied() && |log| == |front| + 1 && log[..|front|] == front && log[|front|].Served? && log[|front|].out
      requires recorded == Decision(setting, front).Some?
      requires verdicts == Recorded(setting, front) && reports == Reported(setting, front)
      modifies this`recorded, this`verdicts, this`reports
      ensures Valid() && old(verdicts) <= verdicts && (old(recorded) ==> recorded)
    {
      hide Breaks, Echoes, Sequences, Requests, BadHeaders, BadChecksums, Reopens, Replies, Answers;
      hide Decision, Recorded, Reported, AllPossible, Shown, Inc32;
      assert log == front + [log[|front|]];
      DecisionSnoc(setting, front, log[|front|]);
      if !recorded && handled == setting.maxRequests {
        verdicts := verdicts + [if invalid == 0 && crcErrors == 0 && seqErrors == 0 then Pass else Fail];
        reports := reports + [Report(handled, invalid, crcErrors, seqErrors, ioReopens)];
        recorded := true;
      }
    }

    /** One turn of the inner loop. */
    method ServeOne() returns (more: bool)
      requires Valid()
      modifies this, line`pos, line`output
      ensures Valid() && old(verdicts) <= verdicts && (old(recorded) ==> recorded)
      ensures Turn(line.input, old(line.pos), old(log), line.pos, log) && GoesOn(old(log), log, more)
      ensures line.quiet ==> QuietTurn(line.input, old(line.pos), old(log), line.pos, log, more)
      ensures line.quiet ==>
                line.output == old(line.output) +
                  (if log != old(log) && log[|old(log)|].Served?
                   then var f := log[|old(log)|].frame;
                        Encode(RESPONSE, Response(f.sequence, BodyFor(setting, Requests(old(log)), f)))
                   else [])
    {
      hide Encode, Intact, Response, BodyFor, Requests, BadHeaders, BadChecksums, Reopens, Shows, Span, NextEvent;
      hide Turn, QuietTurn, GoesOn, Replies, Answers, Decision, Recorded, Reported, AllPossible;
      ghost var pos, was := line.pos, log;
      var r := ReceiveNext(line);
      ghost var out := true;
      match r {
        case Idle =>
          more := *;
        case Broken =>
          Note(Reopen);
          more := false;
        case Malformed =>
          Note(BadHeader);
          more := false;
        case Corrupt(f) =>
          Note(BadChecksum(f));
          more := true;
        case Request(f) =>
          more := Answer(f);
          out := more;
      }
      TurnBy(line.input, pos, was, line.pos, r, out, more, line.quiet);
    }

    /** The next frame of a stream that arrives without faults, and what is sent for it. */
    method ServeNext(ghost f: Frame, ghost rest: seq<Byte>) returns (ghost sent: seq<Frame>)
      requires Valid() && line.quiet && f.Valid() && line.input[line.pos..] == Encode(REQUEST, f) + rest
      modifies this, line
      ensures Valid() && AllPossible(log) && line.input[line.pos..] == rest && log == old(log) + [Arrival(f)]
      ensures AllValid(sent)
      ensures Replies(setting, log) == Replies(setting, old(log)) + sent && line.output == old(line.output) + Sent(sent)
    {
      hide Encode, Intact, Response, BodyFor, Requests, Replies, Answers, Decision, Recorded, Reported, NextEvent, Span;
      hide Sent, Turn, Counts, GoesOn;
      ghost var pos, was := line.pos, log;
      NextIsArrival(f, rest);
      sent := SentForArrival(setting, was, f);
      var more := ServeOne();
      assert line.input[line.pos..] == line.input[pos..][Length(f)..] == rest;
    }

    /** However the line splits a stream of well-formed frames, each of them is one event, in order, and
        what goes out are the responses to the intact ones: alignment is never lost. */
    method Serve(ghost frames: seq<Frame>, turns: nat)
      requires Valid() && line.quiet && turns == |frames| && AllValid(frames)
      requires line.input[line.pos..] == Stream(frames)
      modifies this, line
      ensures Valid() && line.pos == |line.input| && log == old(log) + Arrived(frames)
      ensures Delivered(setting, old(log), old(line.output), log, line.output)
    {
      ghost var before, output := log, line.output;
      UnderwayStarts(frames, log);
      DeliveredNothing(setting, log, output);
      hide Tallied, Encode, Replies, Stream, Decision, Recorded, Reported, AllPossible, Sent, Underway, Delivered;
      for i := 0 to turns
        invariant Valid() && Underway(frames, i, line.input[line.pos..], before, log)
        invariant Delivered(setting, before, output, log, line.output)
      {
        ghost var was, sofar := log, line.output;
        ghost var rest := UnderwayStep(frames, i, line.input[line.pos..], before, log);
        ghost var sent := ServeNext(frames[i], rest);
        DeliveredNext(setting, before, output, was, sofar, log, line.output, sent);
      }
      UnderwayEnds(frames, line.input[line.pos..], before, log);
    }

    lemma TalliedLine()
      requires Tallied()
      ensures line.Valid()
    {}

    /** The program with any timeouts and failures: at most one verdict is ever recorded. It is Pass or
        Fail exactly if the log decides so, and a timeout only if it does not decide. The frames of the log stand
        in the input, one behind the other. */
    method Run(turns: nat) returns (ghost places: seq<nat>)
      requires Valid()
      modifies this, line
      ensures Tallied() && |verdicts| <= 1 && reports == Reported(setting, log)
      ensures verdicts == Recorded(setting, log) || (Recorded(setting, log) == [] && verdicts == [TimedOut])
      ensures var d := Decision(setting, log);
              && (Pass in verdicts <==> d.Some? && ShowsClean(setting, log[..d.value + 1]))
              && (Fail in verdicts <==> d.Some? && !ShowsClean(setting, log[..d.value + 1]))
      ensures Orderly(line.input, old(Since(log, line.pos, line.opens, line.failed)), log, places,
                      line.pos, line.opens, line.failed)
      ensures TimedOut in verdicts <==> line.idles > old(line.idles)
      ensures Recorded(setting, log) == [] ==>
                line.checks - old(line.checks) == line.opens - old(line.opens) + if TimedOut in verdicts then 1 else 0
    {
      hide Decision, Answers, Replies, Requests, ShowsClean, BadHeaders, BadChecksums, Reopens, GoesOn, Turn, QuietTurn;
      hide Orderly, Tallied, Recorded, Reported;
      TalliedLine();
      ghost var since := Since(log, line.pos, line.opens, line.failed);
      places := [];
      OrderlyStart(line.input, since);
      var left := turns;
      while left > 0
        invariant Valid() && line.idles == old(line.idles)
        invariant !recorded ==> line.checks - old(line.checks) == line.opens - old(line.opens)
        invariant Orderly(line.input, since, log, places, line.pos, line.opens, line.failed)
      {
        left := left - 1;
        if !recorded {
          var idle := line.IdleTooLong();
          if idle {
            RecordedMeans(setting, log);
            verdicts := verdicts + [TimedOut];
            return;
          }
        }
        OrderlyOpen(line.input, since, log, places, line.pos, line.opens, line.failed);
        var ready := line.Open();
        if !ready {
          Note(Reopen);
          places := places + [line.pos];
          continue;
        }
        while left > 0
          invariant Valid() && line.idles == old(line.idles) && line.opens > 0
          invariant !recorded ==> line.checks - old(line.checks) == line.opens - old(line.opens)
          invariant Orderly(line.input, since, log, places, line.pos, line.opens - 1, line.failed)
          invariant Orderly(line.input, since, log, places, line.pos, line.opens, line.failed)
        {
          left := left - 1;
          ghost var pos, was := line.pos, log;
          var more := ServeOne();
          places := OrderlyTurn(line.input, since, was, places, pos, line.opens - 1, line.failed, log, line.pos, more);
          if !more {
            break;
          }
        }
      }
      RecordedMeans(setting, log);
    }
  }

  lemma RecordedMeans(g: Setting, log: Log)
    ensures var d, v := Decision(g, log), Recorded(g, log);
            && (d.None? <==> v == []) && |v| <= 1 && TimedOut !in v
            && (Pass in v <==> d.Some? && ShowsClean(g, log[..d.value + 1]))
            && (Fail in v <==> d.Some? && !ShowsClean(g, log[..d.value + 1]))
  {
    hide ShowsClean, Decision;
  }

  // ----- a stream of well-formed frames

  /** The events of a stream that arrives without faults. */
  ghost function Arrived(frames: seq<Frame>): (log: Log)
    requires AllValid(frames)
    ensures |log| == |frames|
  {
    seq(|frames|, i requires 0 <= i < |frames| => Arrival(frames[i]))
  }

  /** The first `i` frames have arrived and are in the log, and the others are still to come. */
  ghost predicate Underway(frames: seq<Frame>, i: nat, rest: seq<Byte>, before: Log, log: Log) {
    && AllValid(frames) && i <= |frames|
    && rest == Stream(frames[i..]) && log == before + Arrived(frames[..i])
  }

  lemma UnderwayStarts(frames: seq<Frame>, log: Log)
    requires AllValid(frames)
    ensures Underway(frames, 0, Stream(frames), log, log) && Sent([]) == []
  {
    assert frames[0..] == frames && Arrived(frames[..0]) == [];
  }

  lemma UnderwayStep(frames: seq<Frame>, i: nat, bytes: seq<Byte>, before: Log, log: Log) returns (rest: seq<Byte>)
    requires Underway(frames, i, bytes, before, log) && i < |frames|
    ensures frames[i].Valid() && bytes == Encode(REQUEST, frames[i]) + rest
    ensures Underway(frames, i + 1, rest, before, log + [Arrival(frames[i])])
  {
    hide Encode, Intact;
    rest := Stream(frames[i + 1..]);
    assert frames[i..][1..] == frames[i + 1..];
    assert Arrived(frames[..i + 1]) == Arrived(frames[..i]) + [Arrival(frames[i])];
  }

  lemma UnderwayEnds(frames: seq<Frame>, rest: seq<Byte>, before: Log, log: Log)
    requires Underway(frames, |frames|, rest, before, log)
    ensures rest == [] && log == before + Arrived(frames)
  {
    assert frames[|frames|..] == [] && frames[..|frames|] == frames;
  }

  /** What was sent since `before` are the responses that the log has gained. */
  ghost predicate Delivered(g: Setting, before: Log, was: seq<Byte>, log: Log, output: seq<Byte>) {
    && g.Valid() && AllPossible(before) && AllPossible(log) && Replies(g, before) <= Replies(g, log)
    && output == was + Sent(Replies(g, log)[|Replies(g, before)|..])
  }

  lemma DeliveredNothing(g: Setting, log: Log, output: seq<Byte>)
    requires g.Valid() && AllPossible(log)
    ensures Delivered(g, log, output, log, output)
  {
    hide Replies;
    var rs := Replies(g, log);
    assert rs[|rs|..] == [];
  }

  lemma DeliveredNext(g: Setting, before: Log, was: seq<Byte>, log: Log, output: seq<Byte>,
                      log': Log, output': seq<Byte>, sent: seq<Frame>)
    requires Delivered(g, before, was, log, output) && AllPossible(log') && AllValid(sent)
    requires Replies(g, log') == Replies(g, log) + sent && output' == output + Sent(sent)
    ensures Delivered(g, before, was, log', output')
  {
    hide Replies, Sent, AllPossible;
    var n := |Replies(g, before)|;
    assert Replies(g, log')[n..] == Replies(g, log)[n..] + sent;
    SentConcat(Replies(g, log)[n..], sent);
  }

  lemma {:induction false} SentConcat(a: seq<Frame>, b: seq<Frame>)
    requires AllValid(a) && AllValid(b)
    ensures AllValid(a + b) && Sent(a + b) == Sent(a) + Sent(b)
    decreases |b|
  {
    hide Wire, Sent;
    if b == [] {
      assert a + b == a;
      SentNothing();
    } else {
      var front, last := b[..|b| - 1], b[|b| - 1];
      SentConcat(a, front);
      assert b == front + [last] && a + b == (a + front) + [last];
      SentSnoc(front, last);
      SentSnoc(a + front, last);
    }
  }

  lemma SentNothing()
    ensures Sent([]) == []
  {}

  lemma SentSnoc(rs: seq<Frame>, r: Frame)
    requires AllValid(rs) && r.Valid()
    ensures Sent(rs + [r]) == Sent(rs) + Wire(r)
  {
    hide Wire;
    assert (rs + [r])[..|rs|] == rs;
  }

  /** The responses that an arrival adds, and their bytes. */
  lemma SentForArrival(g: Setting, log: Log, f: Frame) returns (sent: seq<Frame>)
    requires g.Valid() && AllPossible(log) && f.Valid()
    ensures AllValid(sent) && AllPossible(log + [Arrival(f)])
    ensures Replies(g, log + [Arrival(f)]) == Replies(g, log) + sent
    ensures Sent(sent) ==
            if Intact(REQUEST, f) then Encode(RESPONSE, Response(f.sequence, BodyFor(g, Requests(log), f))) else []
  {
    hide Encode, Intact, Response, BodyFor, Requests, Replies, AllPossible, Sent;
    ArrivalIsPossible(f);
    RepliesSnoc(g, log, Arrival(f));
    SentNothing();
    sent := [];
    if Intact(REQUEST, f) {
      var r := Reply(g, Requests(log), f);
      SentSnoc([], r);
      assert [] + [r] == [r];
      sent := [r];
    }
  }
}
