/** What the control daemon's verdict means: when it is recorded, which faults it can miss, and that it
    does not say that echoes were answered. */
module ControlVerdict {
  import opened Common
  import opened Bits
  import opened Frames
  import opened DaemonLog
  import opened ControlDaemon

  // ----- when there is a verdict

  lemma {:induction false} DecisionIsFirst(g: Setting, log: Log)
    ensures Decision(g, log).Some? ==>
              Decides(g, log, Decision(g, log).value) && forall j :: 0 <= j < Decision(g, log).value ==>
                  !Decides(g, log, j)
    ensures Decision(g, log).None? ==> forall j: nat :: !Decides(g, log, j)
  {
    hide Decides;
    if log == [] {
      NothingDecides(g, log);
    } else {
      var n := |log| - 1;
      DecisionIsFirst(g, log[..n]);
      DecidesBefore(g, log);
    }
  }

  lemma NothingDecides(g: Setting, log: Log)
    requires log == []
    ensures forall j: nat :: !Decides(g, log, j)
  {}

  lemma DecidesBefore(g: Setting, log: Log)
    requires log != []
    ensures var front, n := log[..|log| - 1], |log| - 1;
            && (forall j: nat :: j < n ==> (Decides(g, front, j) <==> Decides(g, log, j)))
            && (forall j: nat :: j > n ==> !Decides(g, log, j))
  {
    hide Requests, Echoes;
    var n := |log| - 1;
    forall j: nat | j < n
      ensures Decides(g, log[..n], j) <==> Decides(g, log, j)
    {
      assert log[..n][..j + 1] == log[..j + 1];
    }
  }

  lemma {:induction false} Apart(log: Log)
    ensures BadHeaders(log) + BadChecksums(log) + |Requests(log)| <= |log|
  {
    if log != [] {
      Apart(log[..|log| - 1]);
    }
  }

  lemma SomeRequest(g: Setting, log: Log)
    requires g.Valid() && Decision(g, log).Some?
    ensures var prefix := log[..Decision(g, log).value + 1];
            |Requests(prefix)| >= 1 && Echoes(Requests(prefix)) >= g.maxRequests
  {
    hide Decision, Echoes;
    DecisionIsFirst(g, log);
  }

  // ----- faults that the counters do not show

  /** No fault up to the deciding event. */
  predicate FaultlessToVerdict(g: Setting, log: Log) {
    Decision(g, log).Some? && Faultless(g, log[..Decision(g, log).value + 1])
  }

  ghost predicate PassIsHonest(g: Setting, n: nat) {
    forall log: Log :: |log| == n && AllPossible(log) && Recorded(g, log) == [Pass] ==> FaultlessToVerdict(g, log)
  }

  lemma ShortIsHonest(g: Setting, log: Log)
    requires g.Valid() && |log| <= U32_LIMIT && Recorded(g, log) == [Pass]
    ensures FaultlessToVerdict(g, log)
  {
    hide Decision, Requests, BadHeaders, BadChecksums, Echoes, Sequences, Breaks, Consecutive;
    var prefix := log[..Decision(g, log).value + 1];
    SomeRequest(g, log);
    Apart(prefix);
    BreaksCountGaps(Sequences(Requests(prefix)));
  }

  function FrameOf(sequence: nat, payload: seq<Byte>): (f: Frame)
    requires sequence < U32_LIMIT && |payload| <= MAX_PAYLOAD
    ensures f.Valid() && Intact(REQUEST, f) && f.sequence == sequence && f.payload == payload
  {
    Frame(sequence, payload, Checksum(REQUEST, sequence, payload))
  }

  /** Echoes up to the limit and then status queries, all with sequence number 0. */
  function StuckFrame(g: Setting, i: nat): (f: Frame)
    ensures f.Valid() && Intact(REQUEST, f) && f.sequence == 0 && (IsEcho(f) <==> i < g.maxRequests)
  {
    FrameOf(0, if i < g.maxRequests then [] else STATUS_QUERY)
  }

  /** The first answer to go out is the one after 2^32 lost ones. */
  function StuckEvent(g: Setting, i: nat): Event {
    if i <= U32_LIMIT then Served(StuckFrame(g, i), i == U32_LIMIT) else Reopen
  }

  function Stuck(g: Setting, n: nat): (log: Log)
    ensures |log| == n
  {
    seq(n, i requires i >= 0 => StuckEvent(g, i))
  }

  lemma StuckSnoc(g: Setting, n: nat)
    ensures Stuck(g, n + 1) == Stuck(g, n) + [StuckEvent(g, n)]
  {}

  lemma StuckPossible(g: Setting, n: nat)
    ensures AllPossible(Stuck(g, n))
  {
    hide Intact, FrameOf;
  }

  lemma StuckIsServed(g: Setting, i: nat)
    requires i <= U32_LIMIT
    ensures var e := StuckEvent(g, i); e.Served? && e.frame.sequence == 0 && (IsEcho(e.frame) <==> i < g.maxRequests)
  {
    hide Intact, FrameOf;
  }

  lemma {:induction false} StuckFacts(g: Setting, n: nat)
    requires g.Valid() && 0 < n <= U32_LIMIT + 1
    ensures var log := Stuck(g, n);
            && BadHeaders(log) == 0 && BadChecksums(log) == 0 && |Requests(log)| == n
            && Echoes(Requests(log)) == Min(n, g.maxRequests) && Sequences(Requests(log))[n - 1] == 0
            && Breaks(Sequences(Requests(log))) == n - 1
  {
    hide Requests, BadHeaders, BadChecksums, Echoes, Sequences, Breaks, Stuck, StuckFrame, Reopens, Intact, Inc32;
    hide StuckEvent, IsEcho;
    var front, e := Stuck(g, n - 1), StuckEvent(g, n - 1);
    StuckIsServed(g, n - 1);
    Inc32Small(0);
    StuckSnoc(g, n - 1);
    LogSnoc(front, e);
    EchoesSnoc(Requests(front), e.frame);
    BreaksSnoc(Sequences(Requests(front)), e.frame.sequence);
    if n > 1 {
      StuckFacts(g, n - 1);
    } else {
      NothingLogged(g, front);
    }
  }

  /** The first `n` events decide nothing unless they include the answer that goes out. */
  lemma {:induction false} StuckUndecided(g: Setting, n: nat)
    requires g.Valid() && n <= U32_LIMIT
    ensures Decision(g, Stuck(g, n)).None?
  {
    hide Decision, Recorded, Reported, ReportOf, Judgement, Stuck, StuckFrame, Echoes, Requests;
    if n == 0 {
      NothingLogged(g, Stuck(g, 0));
    } else {
      StuckUndecided(g, n - 1);
      StuckSnoc(g, n - 1);
      DecisionSnoc(g, Stuck(g, n - 1), StuckEvent(g, n - 1));
    }
  }

  lemma StuckDecided(g: Setting)
    requires g.Valid()
    ensures var log := Stuck(g, U32_LIMIT + 1); Decision(g, log) == Some(U32_LIMIT) && log[..U32_LIMIT + 1] == log
  {
    hide Decision, Recorded, Reported, ReportOf, Judgement, Stuck, StuckFrame, Echoes, Requests;
    var front, e := Stuck(g, U32_LIMIT), StuckEvent(g, U32_LIMIT);
    StuckUndecided(g, U32_LIMIT);
    StuckSnoc(g, U32_LIMIT);
    StuckFacts(g, U32_LIMIT + 1);
    DecisionSnoc(g, front, e);
    LastDecides(g, front, e);
  }

  lemma LastDecides(g: Setting, front: Log, e: Event)
    requires Decision(g, front).None? && Decision(g, front + [e]).Some?
    ensures Decision(g, front + [e]) == Some(|front|) && (front + [e])[..|front| + 1] == front + [e]
  {
    assert (front + [e])[..|front|] == front;
  }

  lemma NothingLogged(g: Setting, log: Log)
    requires log == []
    ensures BadHeaders(log) == BadChecksums(log) == 0 && Requests(log) == [] && Echoes([]) == 0
    ensures Sequences([]) == [] && Breaks([]) == 0 && Decision(g, log).None?
  {}

  /** Further events leave a verdict as it is. */
  lemma {:induction false} VerdictStays(g: Setting, n: nat)
    requires g.Valid() && n > U32_LIMIT
    ensures Decision(g, Stuck(g, n)) == Some(U32_LIMIT)
    ensures Recorded(g, Stuck(g, n)) == [Pass] && !FaultlessToVerdict(g, Stuck(g, n))
  {
    hide Requests, BadHeaders, BadChecksums, Echoes, Sequences, Breaks, Stuck, Consecutive, Decides;
    var log := Stuck(g, n);
    if n == U32_LIMIT + 1 {
      StuckFacts(g, n);
      StuckDecided(g);
      BreaksCountGaps(Sequences(Requests(log)));
    } else {
      VerdictStays(g, n - 1);
      StuckSnoc(g, n - 1);
      DecisionKept(g, Stuck(g, n - 1), StuckEvent(g, n - 1));
      assert log[..U32_LIMIT + 1] == Stuck(g, n - 1)[..U32_LIMIT + 1];
    }
  }

  lemma DecisionKept(g: Setting, log: Log, e: Event)
    requires Decision(g, log).Some?
    ensures Decision(g, log + [e]) == Decision(g, log)
  {
    assert (log + [e])[..|log|] == log;
  }

  /** A pass means that there was no fault exactly for logs of at most 2^32 events: beyond that a counter
      can have come back to zero. */
  lemma HonestyIsExact(g: Setting, n: nat)
    requires g.Valid()
    ensures PassIsHonest(g, n) <==> n <= U32_LIMIT
  {
    hide Recorded, FaultlessToVerdict, Stuck, AllPossible;
    if n <= U32_LIMIT {
      forall log: Log | |log| == n && AllPossible(log) && Recorded(g, log) == [Pass]
        ensures FaultlessToVerdict(g, log)
      {
        ShortIsHonest(g, log);
      }
    } else {
      StuckPossible(g, n);
      VerdictStays(g, n);
    }
  }

  // ----- echoes that were not answered

  /** Event `i` is an echo within the limit, which counts as handled. */
  predicate Handled(g: Setting, log: Log, i: nat) {
    i < |log| && log[i].Served? && IsEcho(log[i].frame) && Echoes(Requests(log[..i])) < g.maxRequests
  }

  /** Handled echoes whose response went out whole. */
  function Answered(g: Setting, log: Log): nat {
    if log == [] then 0
    else
      var n := |log| - 1;
      Answered(g, log[..n]) + if Handled(g, log, n) && log[n].out then 1 else 0
  }

  /** Handled echoes whose response did not. */
  function Lost(g: Setting, log: Log): nat {
    if log == [] then 0
    else
      var n := |log| - 1;
      Lost(g, log[..n]) + if Handled(g, log, n) && !log[n].out then 1 else 0
  }

  /** Event `i` is a handled echo whose response went out whole. */
  predicate Reached(g: Setting, log: Log, i: nat) {
    Handled(g, log, i) && log[i].out
  }

  lemma {:induction false} AnsweredCounted(g: Setting, log: Log)
    ensures Answered(g, log) == |ReachedSet(g, log, |log|)|
  {
    hide Reached, Answered, ReachedSet;
    if log == [] {
      NothingAnswered(g);
      NothingReached(g, log);
    } else {
      var n, front := |log| - 1, log[..|log| - 1];
      AnsweredCounted(g, front);
      ReachedBefore(g, log);
      ReachedSame(g, front, log, n);
      ReachedNext(g, log, n);
    }
  }

  /** Those of the first `n` events. */
  function ReachedSet(g: Setting, log: Log, n: nat): set<int> {
    set i: nat | i < n && Reached(g, log, i)
  }

  lemma NothingReached(g: Setting, log: Log)
    ensures ReachedSet(g, log, 0) == {}
  {}

  lemma ReachedSame(g: Setting, a: Log, b: Log, n: nat)
    requires forall i: nat :: i < n ==> Reached(g, a, i) == Reached(g, b, i)
    ensures ReachedSet(g, a, n) == ReachedSet(g, b, n)
  {
    hide Reached;
  }

  lemma ReachedNext(g: Setting, log: Log, n: nat)
    ensures |ReachedSet(g, log, n + 1)| == |ReachedSet(g, log, n)| + if Reached(g, log, n) then 1 else 0
  {
    hide Reached;
    OneMore(ReachedSet(g, log, n), ReachedSet(g, log, n + 1), n, Reached(g, log, n));
  }

  lemma ReachedBefore(g: Setting, log: Log)
    requires log != []
    ensures var front, n := log[..|log| - 1], |log| - 1;
            && (forall i: nat :: i < n ==> Reached(g, front, i) == Reached(g, log, i))
            && Answered(g, log) == Answered(g, front) + if Reached(g, log, n) then 1 else 0
  {
    hide Requests, Echoes;
    forall i: nat | i < |log| - 1
      ensures Reached(g, log[..|log| - 1], i) == Reached(g, log, i)
    {
      assert log[..|log| - 1][..i] == log[..i];
    }
  }

  /** Every handled echo is answered or lost, and for every lost one the device was reopened. */
  lemma {:induction false} EchoesAccountedFor(g: Setting, log: Log)
    ensures Answered(g, log) + Lost(g, log) == Min(Echoes(Requests(log)), g.maxRequests)
    ensures Lost(g, log) <= Reopens(log)
  {
    hide Requests, Echoes, Reopens;
    if log == [] {
      NothingLogged(g, log);
    } else {
      var front, e := log[..|log| - 1], log[|log| - 1];
      assert log == front + [e];
      EchoesAccountedFor(g, front);
      LogSnoc(front, e);
      if e.Served? {
        EchoesSnoc(Requests(front), e.frame);
      }
    }
  }

  lemma {:induction false} NoneLost(g: Setting, log: Log)
    ensures Lost(g, log) == 0 <==> forall i: nat :: Handled(g, log, i) ==> log[i].out
  {
    if log != [] {
      var n := |log| - 1;
      NoneLost(g, log[..n]);
      forall i: nat | i < n
        ensures Handled(g, log[..n], i) <==> Handled(g, log, i)
      {
        assert log[..n][..i] == log[..i];
      }
    }
  }

  /** At the verdict, whatever it is, all echoes have been answered exactly if no handled echo's response
      was lost, and for certain if the device was never reopened. */
  lemma AnsweredAtVerdict(g: Setting, log: Log)
    requires g.Valid() && Decision(g, log).Some?
    ensures var prefix := log[..Decision(g, log).value + 1];
            && (Answered(g, prefix) == g.maxRequests <==> forall i: nat :: Handled(g, prefix, i) ==> prefix[i].out)
            && (Reopens(prefix) == 0 ==> Answered(g, prefix) == g.maxRequests)
  {
    hide Answered, Lost, Handled, Decision, Reopens, Echoes, Requests;
    var prefix := log[..Decision(g, log).value + 1];
    SomeRequest(g, log);
    EchoesAccountedFor(g, prefix);
    NoneLost(g, prefix);
  }

  /** All echoes had been answered when the verdict was recorded. */
  predicate AllAnswered(g: Setting, log: Log) {
    Decision(g, log).Some? && Answered(g, log[..Decision(g, log).value + 1]) == g.maxRequests
  }

  /** How often the device had been reopened by then. */
  function ReopensToVerdict(g: Setting, log: Log): nat
    requires Decision(g, log).Some?
  {
    Reopens(log[..Decision(g, log).value + 1])
  }

  function Repeat(e: Event, n: nat): (log: Log)
    ensures |log| == n && forall i :: 0 <= i < n ==> log[i] == e
  {
    seq(n, _ => e)
  }

  lemma RepeatSnoc(log: Log, e: Event, n: nat)
    ensures log + Repeat(e, n + 1) == log + Repeat(e, n) + [e]
  {}

  /** An echo, with its answer lost or sent. */
  function Echo(out: bool): (e: Event)
    ensures Possible(e) && e.Served? && e.out == out && IsEcho(e.frame)
  {
    Served(FrameOf(0, []), out)
  }

  /** `lost` of the reopens are for answers that were lost. */
  function Reopened(reopens: nat, lost: nat): (log: Log)
    requires lost <= reopens
    ensures |log| == reopens
  {
    Repeat(Reopen, reopens - lost) + Repeat(Echo(false), lost)
  }

  lemma {:induction false} OnlyReopens(g: Setting, n: nat)
    ensures var log := Repeat(Reopen, n); Requests(log) == [] && Reopens(log) == n && Lost(g, log) == 0
  {
    if n > 0 {
      OnlyReopens(g, n - 1);
      assert Repeat(Reopen, n)[..n - 1] == Repeat(Reopen, n - 1);
    }
  }

  lemma {:induction false} ReopenedFacts(g: Setting, reopens: nat, lost: nat)
    requires lost <= reopens && lost <= g.maxRequests
    ensures var log := Reopened(reopens, lost);
            && Echoes(Requests(log)) == lost && Reopens(log) == reopens && Lost(g, log) == lost
    decreases lost
  {
    hide Requests, Reopens, Echoes, Echo, Lost;
    if lost == 0 {
      assert Reopened(reopens, 0) == Repeat(Reopen, reopens);
      OnlyReopens(g, reopens);
      NothingLogged(g, []);
    } else {
      var front, e := Reopened(reopens - 1, lost - 1), Echo(false);
      ReopenedFacts(g, reopens - 1, lost - 1);
      RepeatSnoc(Repeat(Reopen, reopens - lost), e, lost - 1);
      LogSnoc(front, e);
      EchoesSnoc(Requests(front), e.frame);
      LostSnoc(g, front, e);
    }
  }

  lemma LostSnoc(g: Setting, log: Log, e: Event)
    requires e.Served? && IsEcho(e.frame)
    ensures Lost(g, log + [e]) == Lost(g, log) + if Echoes(Requests(log)) < g.maxRequests && !e.out then 1 else 0
  {
    assert (log + [e])[..|log|] == log;
  }

  lemma {:induction false} AnsweredAfter(g: Setting, base: Log, n: nat)
    ensures var log := base + Repeat(Echo(true), n);
            && Echoes(Requests(log)) == Echoes(Requests(base)) + n
            && Reopens(log) == Reopens(base) && Lost(g, log) == Lost(g, base)
    decreases n
  {
    hide Requests, Reopens, Echoes, Echo, Lost;
    if n == 0 {
      assert base + Repeat(Echo(true), 0) == base;
    } else {
      var front, e := base + Repeat(Echo(true), n - 1), Echo(true);
      AnsweredAfter(g, base, n - 1);
      RepeatSnoc(base, e, n - 1);
      LogSnoc(front, e);
      EchoesSnoc(Requests(front), e.frame);
      LostSnoc(g, front, e);
    }
  }

  lemma LossPossible(reopens: nat, lost: nat, answered: nat)
    requires lost <= reopens
    ensures var base := Reopened(reopens, lost);
            && AllPossible(base + Repeat(Echo(true), answered))
            && forall i :: 0 <= i < |base| ==> !(base[i].Served? && base[i].out)
  {
    hide Intact, Echo;
  }

  lemma FirstOut(g: Setting, base: Log, n: nat)
    requires n > 0 && Echoes(Requests(base)) + n >= g.maxRequests
    requires forall i :: 0 <= i < |base| ==> !(base[i].Served? && base[i].out)
    ensures var d := Decision(g, base + Repeat(Echo(true), n));
            d.Some? && |base| <= d.value && (Echoes(Requests(base)) >= g.maxRequests ==> d.value == |base|)
  {
    hide Requests, Reopens, Echoes, Lost, Echo, Decision;
    var log := base + Repeat(Echo(true), n);
    AnsweredAfter(g, base, n);
    AnsweredAfter(g, base, 1);
    DecisionIsFirst(g, log);
    assert log[..|log|] == log && log[..|base| + 1] == base + Repeat(Echo(true), 1);
    assert Decides(g, log, |log| - 1);
    assert Echoes(Requests(base)) >= g.maxRequests ==> Decides(g, log, |base|);
  }

  /** For every number of reopens but zero there is a run with just that many in which an echo is lost. */
  lemma LossHidden(g: Setting, reopens: nat) returns (log: Log)
    requires g.Valid() && reopens > 0
    ensures AllPossible(log) && Decision(g, log).Some? && ReopensToVerdict(g, log) == reopens && !AllAnswered(g, log)
    ensures reopens >= g.maxRequests ==> Decision(g, log).value <= reopens
  {
    hide Requests, Reopens, Echoes, Echo, Lost, Decision, Answered, AllPossible, Reopened;
    var lost := Min(reopens, g.maxRequests);
    var base, n := Reopened(reopens, lost), g.maxRequests;
    log := base + Repeat(Echo(true), n);
    ReopenedFacts(g, reopens, lost);
    LossPossible(reopens, lost, n);
    FirstOut(g, base, n);
    var d := Decision(g, log).value;
    assert log[..d + 1] == base + Repeat(Echo(true), d + 1 - |base|);
    AnsweredAfter(g, base, d + 1 - |base|);
    EchoesAccountedFor(g, log[..d + 1]);
  }

  /** Runs to a verdict with a given number of reopens have answered all echoes, every one of them, exactly
      if that number is zero. */
  lemma AnsweredWithReopens(g: Setting, reopens: nat)
    requires g.Valid()
    ensures (forall log: Log | AllPossible(log) && Decision(g, log).Some? ::
               ReopensToVerdict(g, log) == reopens ==> AllAnswered(g, log)) <==> reopens == 0
  {
    hide Decision, Answered, Reopens, AllPossible;
    if reopens == 0 {
      forall log: Log | Decision(g, log).Some? && ReopensToVerdict(g, log) == 0
        ensures AllAnswered(g, log)
      {
        AnsweredAtVerdict(g, log);
      }
    } else {
      var log := LossHidden(g, reopens);
    }
  }

  lemma {:induction false} ReopensBounded(log: Log)
    ensures Reopens(log) <= |log|
    ensures log != [] && log[|log| - 1].Served? && log[|log| - 1].out ==> Reopens(log) < |log|
  {
    if log != [] {
      ReopensBounded(log[..|log| - 1]);
    }
  }

  /** A recorded reopen count of zero means that all echoes were answered exactly for verdicts within the
      first 2^32 events: beyond that the 32-bit count can have come back to zero. */
  lemma AnsweredWithCount(g: Setting, n: nat)
    requires g.Valid()
    ensures (forall log: Log | AllPossible(log) && Decision(g, log).Some? && Decision(g, log).value < n ::
               Reported(g, log)[0].ioReopens == 0 ==> AllAnswered(g, log)) <==> n <= U32_LIMIT
  {
    hide Decision, Answered, Reopens, AllPossible, Echoes, Requests;
    if n <= U32_LIMIT {
      forall log: Log | Decision(g, log).Some? && Decision(g, log).value < n
                         && Reported(g, log)[0].ioReopens == 0
        ensures AllAnswered(g, log)
      {
        DecisionIsFirst(g, log);
        ReopensBounded(log[..Decision(g, log).value + 1]);
        AnsweredAtVerdict(g, log);
      }
    } else {
      var log := LossHidden(g, U32_LIMIT);
    }
  }

  /** Echoes up to the limit with consecutive sequence numbers, all of whose responses are lost. */
  function Unheard(n: nat): (log: Log)
    requires n < U32_LIMIT
    ensures |log| == n
  {
    seq(n, i requires 0 <= i < n => Served(FrameOf(i, []), false))
  }

  /** One status answer after them. */
  function Deaf(g: Setting): Log
    requires g.Valid()
  {
    Unheard(g.maxRequests) + [Served(FrameOf(g.maxRequests, STATUS_QUERY), true)]
  }

  lemma {:induction false} UnheardFacts(g: Setting, n: nat)
    requires g.Valid() && n <= g.maxRequests
    ensures var log := Unheard(n);
            && BadHeaders(log) == 0 && BadChecksums(log) == 0 && Breaks(Sequences(Requests(log))) == 0
            && |Requests(log)| == n && Echoes(Requests(log)) == n
            && (n > 0 ==> Sequences(Requests(log))[n - 1] == n - 1)
  {
    hide Requests, BadHeaders, BadChecksums, Echoes, Sequences, Breaks, FrameOf, Unheard, Inc32, Reopens, Intact;
    if n == 0 {
      NothingLogged(g, Unheard(0));
    } else {
      var front, e := Unheard(n - 1), Served(FrameOf(n - 1, []), false);
      UnheardSnoc(n - 1);
      UnheardFacts(g, n - 1);
      LogSnoc(front, e);
      EchoesSnoc(Requests(front), e.frame);
      BreaksSnoc(Sequences(Requests(front)), e.frame.sequence);
      if n > 1 {
        Inc32Small(n - 2);
      }
    }
  }

  lemma {:induction false} UnheardUndecided(g: Setting, n: nat)
    requires g.Valid() && n <= g.maxRequests
    ensures Answered(g, Unheard(n)) == 0 && Decision(g, Unheard(n)).None?
  {
    hide Decision, Recorded, Reported, ReportOf, FrameOf, Answered, Unheard;
    if n == 0 {
      NothingLogged(g, Unheard(0));
      NothingAnswered(g);
    } else {
      var front, e := Unheard(n - 1), Served(FrameOf(n - 1, []), false);
      UnheardSnoc(n - 1);
      UnheardUndecided(g, n - 1);
      DecisionSnoc(g, front, e);
      NotAnswered(g, front, e);
    }
  }

  lemma UnheardSnoc(n: nat)
    requires n + 1 < U32_LIMIT
    ensures Unheard(n + 1) == Unheard(n) + [Served(FrameOf(n, []), false)]
  {}

  lemma NothingAnswered(g: Setting)
    ensures Answered(g, []) == 0
  {}

  lemma NotAnswered(g: Setting, log: Log, e: Event)
    requires e.Served? && (!e.out || !IsEcho(e.frame))
    ensures Answered(g, log + [e]) == Answered(g, log)
  {
    assert (log + [e])[..|log|] == log;
  }

  /** For every echo limit there is a run without a malformed, corrupt, out-of-sequence or over-limit frame in
      which a pass is recorded although every echo's response was lost: the count goes up before the write. */
  lemma PassWithoutAnswers(g: Setting)
    requires g.Valid()
    ensures AllPossible(Deaf(g)) && Recorded(g, Deaf(g)) == [Pass] && FaultlessToVerdict(g, Deaf(g))
    ensures Answered(g, Deaf(g)) == 0
  {
    hide Requests, BadHeaders, BadChecksums, Echoes, Sequences, Breaks, Decision, Reported, FrameOf, Intact;
    hide Consecutive, Answered;
    var front, e := Unheard(g.maxRequests), Served(FrameOf(g.maxRequests, STATUS_QUERY), true);
    var log := Deaf(g);
    assert log[..g.maxRequests] == front;
    UnheardFacts(g, g.maxRequests);
    UnheardUndecided(g, g.maxRequests);
    LogSnoc(front, e);
    EchoesSnoc(Requests(front), e.frame);
    BreaksSnoc(Sequences(Requests(front)), e.frame.sequence);
    DecisionSnoc(g, front, e);
    BreaksCountGaps(Sequences(Requests(log)));
    NotAnswered(g, front, e);
    Inc32Small(g.maxRequests - 1);
    LastDecides(g, front, e);
  }

  // ----- streams that arrive without faults

  ghost function IntactOnes(frames: seq<Frame>): (rs: seq<Frame>)
    requires AllValid(frames)
    ensures |rs| <= |frames|
  {
    if frames == [] then []
    else
      var f := frames[|frames| - 1];
      IntactOnes(frames[..|frames| - 1]) + if Intact(REQUEST, f) then [f] else []
  }

  ghost function Corrupted(frames: seq<Frame>): nat
    requires AllValid(frames)
  {
    |frames| - |IntactOnes(frames)|
  }

  /** Reply `j` answers request `j`, with its sequence number. */
  ghost predicate Answer(g: Setting, rs: seq<Frame>, replies: seq<Frame>) {
    && |replies| == |rs|
    && forall j :: 0 <= j < |rs| ==>
         replies[j].sequence == rs[j].sequence && Answering(g, rs, j, replies[j].payload)
  }

  lemma AnswerSnoc(g: Setting, rs: seq<Frame>, replies: seq<Frame>, f: Frame, r: Frame)
    requires Answer(g, rs, replies) && r.sequence == f.sequence && r.payload == BodyFor(g, rs, f)
    ensures Answer(g, rs + [f], replies + [r])
  {
    hide BodyFor, Answering;
    var more, n := rs + [f], |rs|;
    BodyAnswers(g, more, n);
    assert more[..n] == rs;
    forall j | 0 <= j < n
      ensures Answering(g, more, j, replies[j].payload)
    {
      AnsweringStill(g, rs, f, j, replies[j].payload);
    }
  }

  lemma AnsweringStill(g: Setting, rs: seq<Frame>, f: Frame, j: nat, body: seq<Byte>)
    requires j < |rs| && Answering(g, rs, j, body)
    ensures Answering(g, rs + [f], j, body)
  {
    hide STATUS_QUERY, ECHO_LIMIT, Where;
    assert (rs + [f])[..j] == rs[..j];
  }

  lemma ArrivedSnoc(frames: seq<Frame>, f: Frame)
    requires AllValid(frames) && f.Valid()
    ensures Arrived(frames + [f]) == Arrived(frames) + [Arrival(f)]
    ensures IntactOnes(frames + [f]) == if Intact(REQUEST, f) then IntactOnes(frames) + [f] else IntactOnes(frames)
  {
    hide Intact;
    assert (frames + [f])[..|frames|] == frames;
  }

  /** The log of a stream that arrives without faults, in terms of its intact and corrupt frames. */
  lemma {:induction false} ArrivedLog(g: Setting, frames: seq<Frame>)
    requires g.Valid() && AllValid(frames)
    ensures var log := Arrived(frames);
            && AllPossible(log) && Requests(log) == IntactOnes(frames)
            && BadHeaders(log) == 0 && BadChecksums(log) == Corrupted(frames)
  {
    hide Requests, BadHeaders, BadChecksums, Intact, IntactOnes, Arrived, Possible;
    if frames == [] {
      NothingArrived(g);
    } else {
      var front, f := frames[..|frames| - 1], frames[|frames| - 1];
      assert frames == front + [f];
      ArrivedLog(g, front);
      ArrivedSnoc(front, f);
      ArrivalIsPossible(f);
      LogSnoc(Arrived(front), Arrival(f));
    }
  }

  /** The responses to such a stream: one for each intact frame, with its sequence number, and its payload
      exactly for as many echoes as the limit allows. */
  lemma {:induction false} ArrivedReplies(g: Setting, frames: seq<Frame>)
    requires g.Valid() && AllValid(frames)
    ensures AllPossible(Arrived(frames)) && Answer(g, IntactOnes(frames), Replies(g, Arrived(frames)))
  {
    hide Requests, Replies, Intact, IntactOnes, Arrived, AllPossible, Answer;
    ArrivedLog(g, frames);
    if frames == [] {
      NothingArrived(g);
    } else {
      var front, f := frames[..|frames| - 1], frames[|frames| - 1];
      assert frames == front + [f];
      ArrivedReplies(g, front);
      ArrivedLog(g, front);
      ArrivedSnoc(front, f);
      ArrivalIsPossible(f);
      RepliesSnoc(g, Arrived(front), Arrival(f));
      if Intact(REQUEST, f) {
        AnswerSnoc(g, IntactOnes(front), Replies(g, Arrived(front)), f, Reply(g, IntactOnes(front), f));
      }
    }
  }

  lemma NothingArrived(g: Setting)
    requires g.Valid()
    ensures Arrived([]) == [] && IntactOnes([]) == [] && Requests([]) == [] && Replies(g, []) == []
    ensures BadHeaders([]) == 0 && BadChecksums([]) == 0 && Answer(g, [], [])
  {}

  /** Frame `k` is the echo that reaches the limit. */
  ghost predicate LastEcho(g: Setting, frames: seq<Frame>, k: nat)
    requires AllValid(frames)
  {
    k < |frames| && Intact(REQUEST, frames[k]) && IsEcho(frames[k])
    && Echoes(IntactOnes(frames[..k])) == g.maxRequests - 1
  }

  lemma {:induction false} EchoesGrow(frames: seq<Frame>, i: nat, j: nat)
    requires AllValid(frames) && i <= j <= |frames|
    ensures Echoes(IntactOnes(frames[..i])) <= Echoes(IntactOnes(frames[..j]))
  {
    hide Echoes, IntactOnes, Intact;
    if i < j {
      EchoesGrow(frames, i, j - 1);
      assert frames[..j] == frames[..j - 1] + [frames[j - 1]];
      ArrivedSnoc(frames[..j - 1], frames[j - 1]);
      EchoesSnoc(IntactOnes(frames[..j - 1]), frames[j - 1]);
    }
  }

  lemma ArrivedDecides(g: Setting, frames: seq<Frame>, j: nat)
    requires g.Valid() && AllValid(frames) && j < |frames|
    ensures Arrived(frames)[..j + 1] == Arrived(frames[..j + 1])
    ensures Decides(g, Arrived(frames), j) <==>
            Intact(REQUEST, frames[j]) && Echoes(IntactOnes(frames[..j + 1])) >= g.maxRequests
  {
    hide Echoes, IntactOnes, Intact, Requests;
    assert Arrived(frames)[..j + 1] == Arrived(frames[..j + 1]);
    ArrivedLog(g, frames[..j + 1]);
  }

  /** Such a stream is decided by the echo that reaches the limit. */
  lemma ArrivedDecision(g: Setting, frames: seq<Frame>, k: nat)
    requires g.Valid() && AllValid(frames) && LastEcho(g, frames, k)
    ensures Decision(g, Arrived(frames)) == Some(k)
    ensures Echoes(IntactOnes(frames[..k + 1])) == g.maxRequests
  {
    hide Echoes, IntactOnes, Intact, Decision, Decides, Arrived;
    assert frames[..k + 1] == frames[..k] + [frames[k]];
    ArrivedSnoc(frames[..k], frames[k]);
    EchoesSnoc(IntactOnes(frames[..k]), frames[k]);
    forall j: nat | j < k
      ensures !Decides(g, Arrived(frames), j)
    {
      ArrivedDecides(g, frames, j);
      EchoesGrow(frames, j + 1, k);
    }
    ArrivedDecides(g, frames, k);
    DecisionIsFirst(g, Arrived(frames));
  }

  lemma {:induction false} AllIntact(frames: seq<Frame>)
    requires AllValid(frames)
    ensures Corrupted(frames) == 0 <==> forall i :: 0 <= i < |frames| ==> Intact(REQUEST, frames[i])
    ensures Corrupted(frames) == 0 ==> IntactOnes(frames) == frames
  {
    hide Intact, IntactOnes;
    if frames == [] {
      NoneIntact();
    } else {
      var n, front := |frames| - 1, frames[..|frames| - 1];
      AllIntact(front);
      assert frames == front + [frames[n]];
      IntactSnoc(front, frames[n]);
      assert forall i :: 0 <= i < n ==> front[i] == frames[i];
    }
  }

  lemma NoneIntact()
    ensures IntactOnes([]) == []
  {}

  lemma IntactSnoc(frames: seq<Frame>, f: Frame)
    requires AllValid(frames) && f.Valid()
    ensures IntactOnes(frames + [f]) == if Intact(REQUEST, f) then IntactOnes(frames) + [f] else IntactOnes(frames)
    ensures |IntactOnes(frames)| <= |frames|
  {
    hide Intact;
    assert (frames + [f])[..|frames|] == frames;
  }

  /** Its verdict: a pass exactly if, up to that echo, the numbers of corrupt frames and of gaps are zero
      modulo 2^32, which for fewer than 2^32 frames means that none is corrupt and that the sequence
      numbers are consecutive. */
  lemma ArrivedVerdict(g: Setting, frames: seq<Frame>, k: nat)
    requires g.Valid() && AllValid(frames) && LastEcho(g, frames, k)
    ensures var part := frames[..k + 1];
            Recorded(g, Arrived(frames)) ==
            [if Shown(Corrupted(part)) == 0 && Shown(Breaks(Sequences(IntactOnes(part)))) == 0 then Pass else Fail]
    ensures var part := frames[..k + 1];
            k < U32_LIMIT ==>
              (Recorded(g, Arrived(frames)) == [Pass] <==>
               (forall i :: 0 <= i <= k ==> Intact(REQUEST, frames[i])) && Consecutive(Sequences(part)))
  {
    hide Echoes, IntactOnes, Intact, Decision, Arrived, Requests, BadHeaders, BadChecksums, Breaks, Sequences;
    hide Consecutive, Corrupted;
    var part := frames[..k + 1];
    ArrivedDecision(g, frames, k);
    ArrivedDecides(g, frames, k);
    ArrivedLog(g, part);
    AllIntact(part);
    BreaksCountGaps(Sequences(IntactOnes(part)));
    FewerCorrupted(frames, k);
    assert forall i :: 0 <= i <= k ==> part[i] == frames[i];
  }

  lemma FewerCorrupted(frames: seq<Frame>, k: nat)
    requires AllValid(frames) && k < |frames| && Intact(REQUEST, frames[k])
    ensures Corrupted(frames[..k + 1]) <= k && |IntactOnes(frames[..k + 1])| >= 1
  {
    hide Intact;
    assert frames[..k + 1] == frames[..k] + [frames[k]];
    ArrivedSnoc(frames[..k], frames[k]);
  }

  /** There is a verdict exactly if as many echoes arrived intact as the limit asks for. */
  lemma {:induction false} ArrivedDecided(g: Setting, frames: seq<Frame>)
    requires g.Valid() && AllValid(frames)
    ensures Recorded(g, Arrived(frames)) != [] <==> Echoes(IntactOnes(frames)) >= g.maxRequests
  {
    hide Echoes, IntactOnes, Intact, Decision, Arrived, Decides, Judgement;
    DecisionIsFirst(g, Arrived(frames));
    forall j: nat | j < |frames|
      ensures Decides(g, Arrived(frames), j) ==> Echoes(IntactOnes(frames)) >= g.maxRequests
    {
      ArrivedDecides(g, frames, j);
      EchoesGrow(frames, j + 1, |frames|);
      assert frames[..|frames|] == frames;
    }
    if Echoes(IntactOnes(frames)) >= g.maxRequests {
      var k := ReachesLimit(g, frames);
      ArrivedDecision(g, frames, k);
    }
  }

  lemma {:induction false} ReachesLimit(g: Setting, frames: seq<Frame>) returns (k: nat)
    requires g.Valid() && AllValid(frames) && Echoes(IntactOnes(frames)) >= g.maxRequests
    ensures LastEcho(g, frames, k)
  {
    hide Echoes, IntactOnes, Intact;
    if frames == [] {
      NothingArrived(g);
      NothingLogged(g, []);
    } else {
      var front, f := frames[..|frames| - 1], frames[|frames| - 1];
      assert frames == front + [f];
      ArrivedSnoc(front, f);
      EchoesSnoc(IntactOnes(front), f);
      if Echoes(IntactOnes(front)) >= g.maxRequests {
        k := ReachesLimit(g, front);
        assert front[..k] == frames[..k];
      } else {
        k := |front|;
      }
    }
  }
}
