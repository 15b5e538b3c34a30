/** What a tty daemon's loop has seen, and the 32-bit counters that go with it. */
module DaemonLog {
  import opened Common
  import opened Bits
  import opened Frames
  import opened Tty

  // ----- counters and sequence numbers

  function Inc32(n: nat): nat {
    (n + 1) % U32_LIMIT
  }

  /** What a 32-bit counter shows after `n` increments. */
  function Shown(n: nat): nat {
    n % U32_LIMIT
  }

  lemma ShownIncrement(n: nat)
    ensures Inc32(Shown(n)) == Shown(n + 1)
  {}

  lemma Inc32Small(n: nat)
    requires n + 1 < U32_LIMIT
    ensures Inc32(n) == n + 1
  {}

  /** How often a sequence number is not the successor of the one before it. */
  function Breaks(seen: seq<nat>): nat {
    if |seen| <= 1 then 0
    else Breaks(seen[..|seen| - 1]) + (if seen[|seen| - 1] == Inc32(seen[|seen| - 2]) then 0 else 1)
  }

  predicate Consecutive(seen: seq<nat>) {
    forall i :: 0 < i < |seen| ==> seen[i] == Inc32(seen[i - 1])
  }

  lemma {:induction false} BreaksCountGaps(seen: seq<nat>)
    ensures Breaks(seen) == 0 <==> Consecutive(seen)
    ensures seen != [] ==> Breaks(seen) < |seen|
  {
    if |seen| > 1 {
      var front := seen[..|seen| - 1];
      BreaksCountGaps(front);
      if Consecutive(seen) {
        assert forall i {:trigger front[i]} :: 0 < i < |front| ==> front[i] == seen[i] && front[i - 1] == seen[i - 1];
      }
      if Breaks(seen) == 0 {
        forall i | 0 < i < |seen|
          ensures seen[i] == Inc32(seen[i - 1])
        {
          if i < |front| {
            assert front[i] == Inc32(front[i - 1]);
          }
        }
      }
    }
  }

  lemma BreaksSnoc(seen: seq<nat>, n: nat)
    ensures Breaks(seen + [n]) ==
            Breaks(seen) + if seen != [] && n != Inc32(seen[|seen| - 1]) then 1 else 0
  {
    assert (seen + [n])[..|seen|] == seen;
  }

  /** The breaks are the numbers that do not follow the one before them. */
  predicate BreaksAt(seen: seq<nat>, i: int)
    requires 0 <= i < |seen|
  {
    i > 0 && seen[i] != Inc32(seen[i - 1])
  }

  lemma {:induction false} BreaksCounted(seen: seq<nat>)
    ensures Breaks(seen) == |set i | 0 <= i < |seen| && BreaksAt(seen, i)|
  {
    hide Inc32, BreaksAt;
    var now := set i | 0 <= i < |seen| && BreaksAt(seen, i);
    assert seen == [] ==> now == {};
    if seen != [] {
      var n, front := |seen| - 1, seen[..|seen| - 1];
      BreaksCounted(front);
      BreaksBefore(seen);
      var was := set i | 0 <= i < n && BreaksAt(front, i);
      OneMore(was, now, n, BreaksAt(seen, n));
    }
  }

  lemma BreaksBefore(seen: seq<nat>)
    requires seen != []
    ensures var front, n := seen[..|seen| - 1], |seen| - 1;
            && (forall i :: 0 <= i < n ==> BreaksAt(front, i) == BreaksAt(seen, i))
            && Breaks(seen) == Breaks(front) + if BreaksAt(seen, n) then 1 else 0
  {
    hide Inc32;
  }

  // ----- the log

  /** A turn of the loop that left its mark; `out`: the response to an intact request went out whole. */
  datatype Event = Reopen | BadHeader | BadChecksum(frame: Frame) | Served(frame: Frame, out: bool)

  type Log = seq<Event>

  predicate Possible(e: Event) {
    match e
    case BadChecksum(f) => f.Valid() && !Intact(REQUEST, f)
    case Served(f, _) => f.Valid() && Intact(REQUEST, f)
    case _ => true
  }

  ghost predicate AllPossible(log: Log) {
    forall i :: 0 <= i < |log| ==> Possible(log[i])
  }

  /** The intact requests, in order. */
  function Requests(log: Log): (rs: seq<Frame>)
    ensures |rs| <= |log|
  {
    if log == [] then []
    else
      var last := log[|log| - 1];
      Requests(log[..|log| - 1]) + if last.Served? then [last.frame] else []
  }

  ghost predicate AllValid(rs: seq<Frame>) {
    forall i :: 0 <= i < |rs| ==> rs[i].Valid()
  }

  function Sequences(rs: seq<Frame>): (s: seq<nat>)
    ensures |s| == |rs|
  {
    seq(|rs|, i requires 0 <= i < |rs| => rs[i].sequence)
  }

  /** The requests are the frames of just those events, in their order. */
  lemma {:induction false} RequestsAre(log: Log) returns (at: seq<nat>)
    ensures Picks(log, Requests(log), at, FrameServed)
  {
    hide Picks, Requests, FrameServed;
    at := [];
    if log == [] {
      NoRequests();
      PicksNone(log, Requests(log), FrameServed);
    } else {
      var n, front := |log| - 1, log[..|log| - 1];
      at := RequestsAre(front);
      PicksNext(front, Requests(front), at, FrameServed, log[n]);
      assert log == front + [log[n]];
      RequestsStep(log);
      at := if FrameServed(log[n]).Some? then at + [n] else at;
    }
  }

  lemma RequestsStep(log: Log)
    requires log != []
    ensures var front, last := Requests(log[..|log| - 1]), FrameServed(log[|log| - 1]);
            Requests(log) == if last.Some? then front + [last.value] else front
  {}

  lemma NoRequests()
    ensures Requests([]) == []
  {}

  function FrameServed(e: Event): Option<Frame> {
    if e.Served? then Some(e.frame) else None
  }

  lemma SequencesSnoc(rs: seq<Frame>, f: Frame)
    ensures Sequences(rs + [f]) == Sequences(rs) + [f.sequence]
  {}

  function BadHeaders(log: Log): nat {
    if log == [] then 0 else BadHeaders(log[..|log| - 1]) + if log[|log| - 1].BadHeader? then 1 else 0
  }

  function BadChecksums(log: Log): (n: nat)
    ensures n + |Requests(log)| <= |log|
  {
    if log == [] then 0 else BadChecksums(log[..|log| - 1]) + if log[|log| - 1].BadChecksum? then 1 else 0
  }

  function Gaps(log: Log): nat {
    Breaks(Sequences(Requests(log)))
  }

  /** The device is closed and opened again for a failed open, read or write. */
  predicate CausesReopen(e: Event) {
    e.Reopen? || (e.Served? && !e.out)
  }

  function Reopens(log: Log): nat {
    if log == [] then 0 else Reopens(log[..|log| - 1]) + if CausesReopen(log[|log| - 1]) then 1 else 0
  }

  /** The device is closed after such an event. */
  predicate Closes(e: Event) {
    e.BadHeader? || CausesReopen(e)
  }

  function Closers(log: Log): nat {
    if log == [] then 0 else Closers(log[..|log| - 1]) + if Closes(log[|log| - 1]) then 1 else 0
  }

  lemma ClosersSnoc(log: Log, e: Event)
    ensures Closers(log + [e]) == Closers(log) + if Closes(e) then 1 else 0
    ensures Reopens(log + [e]) == Reopens(log) + if CausesReopen(e) then 1 else 0
  {
    assert (log + [e])[..|log|] == log;
  }

  /** Every event that closes the device has an opening of its own, and every failed opening is an event. */
  ghost predicate OpenedFor(log: Log, opens: nat, failed: nat, log': Log, opens': nat, failed': nat) {
    && opens <= opens' && failed <= failed'
    && Closers(log') - Closers(log) <= opens' - opens && failed' - failed <= Reopens(log') - Reopens(log)
  }

  lemma {:induction false} ClosersCounted(log: Log)
    ensures Closers(log) == |Where(log, Closes)|
  {
    hide Where, Closes;
    if log == [] {
      WhereNone(log, Closes);
    } else {
      ClosersCounted(log[..|log| - 1]);
      WhereLast(log, Closes);
    }
  }

  lemma LogSnoc(log: Log, e: Event)
    ensures Requests(log + [e]) == if e.Served? then Requests(log) + [e.frame] else Requests(log)
    ensures BadHeaders(log + [e]) == BadHeaders(log) + if e.BadHeader? then 1 else 0
    ensures BadChecksums(log + [e]) == BadChecksums(log) + if e.BadChecksum? then 1 else 0
    ensures Reopens(log + [e]) == Reopens(log) + if CausesReopen(e) then 1 else 0
  {
    assert (log + [e])[..|log|] == log;
  }

  /** The counts are numbers of events. */
  lemma {:induction false} BadHeadersCounted(log: Log)
    ensures BadHeaders(log) == |Where(log, (e: Event) => e.BadHeader?)|
  {
    hide Where;
    if log == [] {
      WhereNone(log, (e: Event) => e.BadHeader?);
    } else {
      BadHeadersCounted(log[..|log| - 1]);
      WhereLast(log, (e: Event) => e.BadHeader?);
    }
  }

  lemma {:induction false} BadChecksumsCounted(log: Log)
    ensures BadChecksums(log) == |Where(log, (e: Event) => e.BadChecksum?)|
  {
    hide Where;
    if log == [] {
      WhereNone(log, (e: Event) => e.BadChecksum?);
    } else {
      BadChecksumsCounted(log[..|log| - 1]);
      WhereLast(log, (e: Event) => e.BadChecksum?);
    }
  }

  lemma {:induction false} RequestsCounted(log: Log)
    ensures |Requests(log)| == |Where(log, (e: Event) => e.Served?)|
  {
    hide Where;
    if log == [] {
      WhereNone(log, (e: Event) => e.Served?);
    } else {
      RequestsCounted(log[..|log| - 1]);
      WhereLast(log, (e: Event) => e.Served?);
    }
  }

  lemma {:induction false} ReopensCounted(log: Log)
    ensures Reopens(log) == |Where(log, CausesReopen)|
  {
    hide Where, CausesReopen;
    if log == [] {
      WhereNone(log, CausesReopen);
    } else {
      ReopensCounted(log[..|log| - 1]);
      WhereLast(log, CausesReopen);
    }
  }

  function Arrival(f: Frame): Event
    requires f.Valid()
  {
    if Intact(REQUEST, f) then Served(f, true) else BadChecksum(f)
  }

  lemma ArrivalIsPossible(f: Frame)
    requires f.Valid()
    ensures Possible(Arrival(f))
  {
    hide Intact;
  }

  // ----- the log and the input

  /** How many bytes of the input an event is about. */
  function Span(e: Event): nat {
    match e
    case Reopen => 0
    case BadHeader => HEADER_SIZE
    case BadChecksum(f) => Length(f)
    case Served(f, _) => Length(f)
  }

  /** What an event says about the input from its place on. */
  predicate Shows(e: Event, rest: seq<Byte>) {
    match e
    case Reopen => true
    case BadHeader => |rest| >= HEADER_SIZE && !WellFormed(rest[..16])
    case BadChecksum(f) => Parse(rest) == Some(f)
    case Served(f, _) => Parse(rest) == Some(f)
  }

  /** What the daemons make of the input on a quiet line. */
  function NextEvent(rest: seq<Byte>): Option<Event> {
    if |rest| < HEADER_SIZE then None
    else if !WellFormed(rest[..16]) then Some(BadHeader)
    else
      var p := Parse(rest);
      if p.None? then Some(Reopen) else Some(Arrival(p.value))
  }

  lemma NextIsArrival(f: Frame, rest: seq<Byte>)
    requires f.Valid()
    ensures NextEvent(Encode(REQUEST, f) + rest) == Some(Arrival(f)) && Span(Arrival(f)) == Length(f)
  {
    hide Encode, Intact, WellFormed;
    ParseEncoded(f, rest);
  }

  /** The frames of the log stand in the input at their places, between `from` and `to`, in the order of the
      log and without overlap. */
  ghost predicate Found(input: seq<Byte>, log: Log, places: seq<nat>, from: nat, to: nat) {
    && |places| == |log| && from <= to <= |input|
    && (forall i :: 0 <= i < |log| ==> from <= places[i] && places[i] + Span(log[i]) <= to)
    && (forall i, j :: 0 <= i < j < |log| ==> places[i] + Span(log[i]) <= places[j])
    && (forall i :: 0 <= i < |log| ==> Shows(log[i], input[places[i]..]))
  }

  lemma FoundStill(input: seq<Byte>, log: Log, places: seq<nat>, from: nat, to: nat, to': nat)
    requires Found(input, log, places, from, to) && to <= to' <= |input|
    ensures Found(input, log, places, from, to')
  {}

  lemma FoundNext(input: seq<Byte>, log: Log, places: seq<nat>, from: nat, to: nat, e: Event, to': nat)
    requires Found(input, log, places, from, to) && to + Span(e) <= to' <= |input|
    requires Shows(e, input[to..])
    ensures Found(input, log + [e], places + [to], from, to')
  {
    hide Shows, Span;
  }

  /** The event of what was received; `out` for a request. */
  function EventOf(r: Received, out: bool): Option<Event> {
    match r
    case Idle => None
    case Broken => Some(Reopen)
    case Malformed => Some(BadHeader)
    case Corrupt(f) => Some(BadChecksum(f))
    case Request(f) => Some(Served(f, out))
  }

  /** What is received is what the input shows, and on a quiet line the next event. */
  method ReceiveNext(line: Line) returns (r: Received)
    requires line.Valid()
    modifies line`pos
    ensures line.Valid() && old(line.pos) <= line.pos
    ensures forall out :: EventOf(r, out).Some? ==>
              && Possible(EventOf(r, out).value) && Shows(EventOf(r, out).value, line.input[old(line.pos)..])
              && old(line.pos) + Span(EventOf(r, out).value) <= line.pos
    ensures line.quiet ==> NextEvent(line.input[old(line.pos)..]) == EventOf(r, true)
    ensures line.quiet && !r.Idle? && !r.Broken? ==> line.pos == old(line.pos) + Span(EventOf(r, true).value)
  {
    hide Parse, Intact, WellFormed;
    ghost var pos := line.pos;
    r := Receive(line);
    if r.Malformed? {
      assert line.input[pos..][..16] == line.input[pos..pos + HEADER_SIZE];
    }
  }

  /** One turn of a loop: at most one event, which is about the next bytes of the input. */
  ghost predicate Turn(input: seq<Byte>, pos: nat, log: Log, pos': nat, log': Log) {
    && pos <= pos' <= |input|
    && (|| log' == log
        || (|log'| == |log| + 1 && log <= log' && Shows(log'[|log|], input[pos..]) && pos + Span(log'[|log|]) <= pos'))
  }

  /** After which turns the loop goes on with the device open. */
  ghost predicate GoesOn(log: Log, log': Log, more: bool) {
    |log'| == |log| + 1 ==> (more <==> !Closes(log'[|log|]))
  }

  /** The same on a quiet line: exactly the next event, and the device is closed unless a frame was read. */
  ghost predicate QuietTurn(input: seq<Byte>, pos: nat, log: Log, pos': nat, log': Log, more: bool)
    requires pos <= |input|
  {
    var next := NextEvent(input[pos..]);
    if next.None? then log' == log
    else
      var e := next.value;
      log' == log + [e] && (e.Reopen? || pos' == pos + Span(e)) && (more <==> e.BadChecksum? || e.Served?)
  }

  /** A turn by what was received: the event it makes, and whether the device stays open. */
  lemma TurnBy(input: seq<Byte>, pos: nat, log: Log, pos': nat, r: Received, out: bool, more: bool, quiet: bool)
    requires pos <= pos' <= |input|
    requires EventOf(r, out).Some? ==>
               && Shows(EventOf(r, out).value, input[pos..]) && pos + Span(EventOf(r, out).value) <= pos'
               && (more <==> !Closes(EventOf(r, out).value))
    requires quiet ==> NextEvent(input[pos..]) == EventOf(r, out) && (r.Request? ==> out)
    requires quiet && !r.Idle? && !r.Broken? ==> pos' == pos + Span(EventOf(r, out).value)
    ensures var log' := if r.Idle? then log else log + [EventOf(r, out).value];
            Turn(input, pos, log, pos', log') && GoesOn(log, log', more)
            && (quiet ==> QuietTurn(input, pos, log, pos', log', more))
  {
    hide Shows, Span, NextEvent;
  }

  // ----- whole runs

  /** Where a run began. */
  datatype Since = Since(log: Log, pos: nat, opens: nat, failed: nat)

  /** What the log has gained stands in the input, and the device was opened for it. */
  ghost predicate Orderly(input: seq<Byte>, s: Since, log: Log, places: seq<nat>, pos: nat, opens: nat, failed: nat) {
    && s.log <= log && Found(input, log[|s.log|..], places, s.pos, pos)
    && OpenedFor(s.log, s.opens, s.failed, log, opens, failed)
  }

  lemma OrderlyStart(input: seq<Byte>, s: Since)
    requires s.pos <= |input|
    ensures Orderly(input, s, s.log, [], s.pos, s.opens, s.failed)
  {
    assert s.log[|s.log|..] == [];
  }

  /** The device is opened, or that fails. */
  lemma OrderlyOpen(input: seq<Byte>, s: Since, log: Log, places: seq<nat>, pos: nat, opens: nat, failed: nat)
    requires Orderly(input, s, log, places, pos, opens, failed)
    ensures Orderly(input, s, log, places, pos, opens + 1, failed)
    ensures Orderly(input, s, log + [Reopen], places + [pos], pos, opens + 1, failed + 1)
  {
    hide Found, Closers, Reopens;
    var start := |s.log|;
    FoundInside(input, log[start..], places, s.pos, pos);
    ClosersSnoc(log, Reopen);
    FoundNext(input, log[start..], places, s.pos, pos, Reopen, pos);
    assert (log + [Reopen])[start..] == log[start..] + [Reopen];
  }

  lemma FoundInside(input: seq<Byte>, log: Log, places: seq<nat>, from: nat, to: nat)
    requires Found(input, log, places, from, to)
    ensures to <= |input|
  {}

  /** A turn with the device open for it. */
  lemma OrderlyTurn(input: seq<Byte>, s: Since, was: Log, places: seq<nat>, pos: nat, opens: nat, failed: nat,
                    log: Log, pos': nat, more: bool) returns (places': seq<nat>)
    requires Orderly(input, s, was, places, pos, opens, failed)
    requires Turn(input, pos, was, pos', log) && GoesOn(was, log, more)
    ensures Orderly(input, s, log, places', pos', opens + 1, failed)
    ensures more ==> Orderly(input, s, log, places', pos', opens, failed)
  {
    hide Found, Shows, Span, Closers, Reopens, Closes;
    var start := |s.log|;
    if log == was {
      FoundStill(input, was[start..], places, s.pos, pos, pos');
      places' := places;
    } else {
      var e := log[|was|];
      FoundNext(input, was[start..], places, s.pos, pos, e, pos');
      assert log[start..] == was[start..] + [e] && log == was + [e];
      ClosersSnoc(was, e);
      places' := places + [pos];
    }
  }
}
