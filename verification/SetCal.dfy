/** The audio calibration session: entries are prepared, allocated and set in plan order, and whatever
    was acquired is given back in reverse, on every path. */
module SetCal {
  import opened Common
  import opened Bits

  const ARG_MAX: nat := 512
  const PAYLOAD_MAX: nat := 0x4_0000
  const BASIC_SIZE: nat := 32
  const OFF_DATA_SIZE: nat := 0
  const OFF_CAL_TYPE: nat := 8
  const OFF_CAL_SIZE: nat := 24
  const OFF_MEM_HANDLE: nat := 28

  // ----- packets

  function ReadI32(p: seq<Byte>, off: nat): int
    requires off + 4 <= |p|
  {
    var raw := LoadLe32(p[off..off + 4]);
    if raw >= 0x8000_0000 then raw - 0x1_0000_0000 else raw
  }

  function WriteI32(p: seq<Byte>, off: nat, v: int): (q: seq<Byte>)
    requires off + 4 <= |p| && -0x8000_0000 <= v < 0x8000_0000
    ensures |q| == |p| && q[..off] == p[..off] && q[off + 4..] == p[off + 4..]
    ensures ReadI32(q, off) == v
  {
    var raw := if v < 0 then v + 0x1_0000_0000 else v;
    var q := p[..off] + StoreLe32(raw) + p[off + 4..];
    assert q[off..off + 4] == StoreLe32(raw);
    q
  }

  /** The size and handle fields of a packet, which are all that preparation changes. */
  function Patched(p: seq<Byte>, size: int, handle: int): (q: seq<Byte>)
    requires |p| >= BASIC_SIZE && -0x8000_0000 <= size < 0x8000_0000 && -0x8000_0000 <= handle < 0x8000_0000
    ensures |q| == |p| && q[..OFF_CAL_SIZE] == p[..OFF_CAL_SIZE] && q[BASIC_SIZE..] == p[BASIC_SIZE..]
    ensures ReadI32(q, OFF_CAL_SIZE) == size && ReadI32(q, OFF_MEM_HANDLE) == handle
  {
    var h := WriteI32(p, OFF_MEM_HANDLE, handle);
    var q := WriteI32(h, OFF_CAL_SIZE, size);
    assert q[BASIC_SIZE..] == q[OFF_CAL_SIZE + 4..][4..] == h[OFF_CAL_SIZE + 4..][4..] == h[BASIC_SIZE..];
    assert h[..OFF_CAL_SIZE] ==
        h[..OFF_MEM_HANDLE][..OFF_CAL_SIZE] == p[..OFF_MEM_HANDLE][..OFF_CAL_SIZE] == p[..OFF_CAL_SIZE];
    assert q[OFF_MEM_HANDLE..OFF_MEM_HANDLE + 4] == q[OFF_CAL_SIZE + 4..][..4] == h[OFF_MEM_HANDLE..OFF_MEM_HANDLE + 4];
    SameField(q, h, OFF_MEM_HANDLE);
    q
  }

  lemma SameField(p: seq<Byte>, q: seq<Byte>, off: nat)
    requires off + 4 <= |p| == |q| && p[off..off + 4] == q[off..off + 4]
    ensures ReadI32(p, off) == ReadI32(q, off)
  {}

  /** A descriptor number as a packet field holds it. */
  function AsI32(n: int): (r: int)
    ensures -0x8000_0000 <= r < 0x8000_0000
    ensures -0x8000_0000 <= n < 0x8000_0000 ==> r == n
  {
    (n + 0x8000_0000) % 0x1_0000_0000 - 0x8000_0000
  }

  // ----- the kernel's side

  datatype Op = Allocate | Set | Deallocate

  /** `buffer`: whose mapped buffer the packet's handle names at the time of the call. */
  datatype Call = Call(op: Op, index: nat, packet: seq<Byte>, ok: bool, buffer: Option<nat>)

  /** Whose descriptor it is: the session's for entry `index`, its calibration device, or anyone else's. */
  datatype Owner = Ion(index: nat) | Dmabuf(index: nat) | Cal | Other

  /** Closing or unmapping something that is not open or mapped is excluded by precondition. */
  class Kernel {
    const quiet: bool
    var nextFd: nat
    var open: map<int, Owner>
    var mapped: set<int>
    var calls: seq<Call>     // calibration ioctls, in order

    ghost predicate Valid()
      reads this`nextFd, this`open, this`mapped
    {
      && (forall fd :: fd in open ==> 0 <= fd < nextFd)
      && mapped <= open.Keys
    }

    constructor (quiet: bool)
      ensures Valid() && this.quiet == quiet && open == map[] && mapped == {} && calls == []
    {
      this.quiet := quiet;
      nextFd, open, mapped, calls := 3, map[], {}, [];
    }

    method Open(owner: Owner) returns (fd: int)
      requires Valid()
      modifies this`nextFd, this`open
      ensures Valid() && (quiet ==> fd >= 0)
      ensures fd < 0 ==> open == old(open) && nextFd == old(nextFd)
      ensures fd >= 0 ==> fd !in old(open) && open == old(open)[fd := owner]
    {
      var f := Fault(quiet);
      if f {
        return -1;
      }
      fd := nextFd;
      nextFd := nextFd + 1;
      open := open[fd := owner];
    }

    method Close(fd: int)
      requires Valid() && fd in open && fd !in mapped
      modifies this`open
      ensures Valid() && open == old(open) - {fd}
    {
      open := open - {fd};
    }

    method Map(fd: int) returns (ok: bool)
      requires Valid() && fd in open && fd !in mapped
      modifies this`mapped
      ensures Valid() && (quiet ==> ok) && mapped == (if ok then old(mapped) + {fd} else old(mapped))
    {
      ok := Fault(quiet);
      ok := !ok;
      if ok {
        mapped := mapped + {fd};
      }
    }

    method Unmap(fd: int)
      requires Valid() && fd in mapped
      modifies this`mapped
      ensures Valid() && mapped == old(mapped) - {fd}
    {
      mapped := mapped - {fd};
    }

    /** The entry whose mapped buffer a packet's handle names. */
    function Named(packet: seq<Byte>): Option<nat>
      reads this`open, this`mapped
    {
      if |packet| < BASIC_SIZE then None
      else
        var fd := ReadI32(packet, OFF_MEM_HANDLE);
        if fd in open && fd in mapped && open[fd].Dmabuf? then Some(open[fd].index) else None
    }

    method Ioctl(op: Op, index: nat, packet: seq<Byte>) returns (ok: bool)
      modifies this`calls
      ensures calls == old(calls) + [Call(op, index, packet, ok, Named(packet))] && (quiet ==> ok)
    {
      ok := Fault(quiet);
      ok := !ok;
      calls := calls + [Call(op, index, packet, ok, Named(packet))];
    }
  }

  // ----- what the plan asks for

  /** `arg` and `payload` are the contents of the entry's files, None when they cannot be used. */
  datatype Entry = Entry(present: bool, calType: int, hasPayload: bool,
                         arg: Option<seq<Byte>>, payload: Option<seq<Byte>>)

  datatype Plan = Plan(valid: bool, declaredCount: int, entries: seq<Entry>)

  predicate NotAllZero(b: seq<Byte>) {
    exists i :: 0 <= i < |b| && b[i] != 0
  }

  /** The checks on an entry's files. */
  predicate Usable(e: Entry) {
    && e.present && e.arg.Some?
    && var a := e.arg.value;
       && BASIC_SIZE <= |a| <= ARG_MAX && NotAllZero(a)
       && ReadI32(a, OFF_DATA_SIZE) == |a| && ReadI32(a, OFF_CAL_TYPE) == e.calType && ReadI32(a, OFF_CAL_SIZE) >= 0
       && (e.hasPayload ==>
             ReadI32(a, OFF_CAL_SIZE) > 0 && e.payload.Some? && NotAllZero(e.payload.value)
             && |e.payload.value| <= PAYLOAD_MAX && |e.payload.value| == ReadI32(a, OFF_CAL_SIZE))
  }

  datatype Step = Step(op: Op, index: nat)

  function StepsOf(e: Entry, i: nat): seq<Step> {
    (if e.hasPayload then [Step(Allocate, i)] else []) + [Step(Set, i)]
  }

  /** The order in which the first `n` entries are to be allocated and set. */
  function Schedule(entries: seq<Entry>, n: nat): seq<Step>
    requires n <= |entries|
  {
    if n == 0 then [] else Schedule(entries, n - 1) + StepsOf(entries[n - 1], n - 1)
  }

  function Trace(calls: seq<Call>): (t: seq<Step>)
    ensures |t| == |calls|
  {
    seq(|calls|, i requires 0 <= i < |calls| => Step(calls[i].op, calls[i].index))
  }

  /** The allocations that succeeded, in order, each with the packet it was made with. */
  function Allocations(calls: seq<Call>): seq<(nat, seq<Byte>)> {
    if calls == [] then []
    else
      var c := calls[|calls| - 1];
      Allocations(calls[..|calls| - 1]) + (if c.op == Allocate && c.ok then [(c.index, c.packet)] else [])
  }

  /** The deallocations, last call first, each with its packet. */
  function DeallocationsReversed(calls: seq<Call>): seq<(nat, seq<Byte>)>
    requires forall c :: c in calls ==> c.op == Deallocate
  {
    if calls == [] then []
    else DeallocationsReversed(calls[1..]) + [(calls[0].index, calls[0].packet)]
  }

  lemma {:induction false} AllocationsConcat(a: seq<Call>, b: seq<Call>)
    ensures Allocations(a + b) == Allocations(a) + Allocations(b)
    decreases |b|
  {
    if b == [] {
      assert a + b == a;
    } else {
      AllocationsConcat(a, b[..|b| - 1]);
      assert (a + b)[..|a + b| - 1] == a + b[..|b| - 1];
    }
  }

  lemma TraceConcat(a: seq<Call>, b: seq<Call>)
    ensures Trace(a + b) == Trace(a) + Trace(b)
  {}

  lemma {:induction false} ScheduleGrows(entries: seq<Entry>, m: nat, n: nat)
    requires m <= n <= |entries|
    ensures Schedule(entries, m) <= Schedule(entries, n)
  {
    if m < n {
      ScheduleGrows(entries, m, n - 1);
    }
  }

  /** All calls succeeded, except possibly the last. */
  predicate OkButLast(calls: seq<Call>) {
    forall i :: 0 <= i < |calls| - 1 ==> calls[i].ok
  }

  predicate AllOk(calls: seq<Call>) {
    forall i :: 0 <= i < |calls| ==> calls[i].ok
  }

  /** A run of the schedule: it follows it from the beginning and stops at the first failure. */
  predicate Follows(calls: seq<Call>, entries: seq<Entry>) {
    Trace(calls) <= Schedule(entries, |entries|) && OkButLast(calls)
  }

  lemma NothingScheduled(entries: seq<Entry>)
    ensures Trace([]) == Schedule(entries, 0) && AllOk([]) && Follows([], entries)
  {}

  /** A run that has completed `i` entries stays on the schedule through the calls of the next one. */
  lemma ScheduleStep(entries: seq<Entry>, made: seq<Call>, more: seq<Call>, i: nat)
    requires i < |entries| && Trace(made) == Schedule(entries, i) && AllOk(made)
    requires Trace(more) <= StepsOf(entries[i], i) && OkButLast(more)
    ensures Follows(made + more, entries)
    ensures Trace(more) == StepsOf(entries[i], i) && AllOk(more) ==>
              Trace(made + more) == Schedule(entries, i + 1) && AllOk(made + more)
  {
    hide StepsOf;
    TraceConcat(made, more);
    ScheduleGrows(entries, i + 1, |entries|);
    assert Trace(made + more) <= Schedule(entries, i + 1);
  }

  // ----- what the schedule and the undo list are, call by call

  /** Step `k` and its predecessor: an allocation only for a payload, each setting right after the allocation of
      its entry if that has a payload, and otherwise right after the setting of the entry before it. */
  predicate InOrder(steps: seq<Step>, entries: seq<Entry>, k: nat)
    requires k < |steps|
  {
    var s := steps[k];
    && s.index < |entries| && s.op != Deallocate && (s.op == Allocate ==> entries[s.index].hasPayload)
    && (if s.op == Set && entries[s.index].hasPayload then k > 0 && steps[k - 1] == Step(Allocate, s.index)
        else if k == 0 then s.index == 0
        else s.index > 0 && steps[k - 1] == Step(Set, s.index - 1))
  }

  lemma {:induction false} ScheduleInOrder(entries: seq<Entry>, n: nat)
    requires n <= |entries|
    ensures var s := Schedule(entries, n);
            && (forall k :: 0 <= k < |s| ==> InOrder(s, entries, k))
            && (if n == 0 then s == [] else s != [] && s[|s| - 1] == Step(Set, n - 1))
            && (forall k :: 0 <= k < |s| ==> s[k].index < n)
  {
    if n > 0 {
      ScheduleInOrder(entries, n - 1);
      var front, s := Schedule(entries, n - 1), Schedule(entries, n);
      forall k | 0 <= k < |s|
        ensures InOrder(s, entries, k) && s[k].index < n
      {
        if k < |front| {
          assert InOrder(front, entries, k) && s[k] == front[k] && (k > 0 ==> s[k - 1] == front[k - 1]);
        }
      }
    }
  }

  /** Of two steps the later one is not for an earlier entry. */
  lemma {:induction false} ScheduleAscends(entries: seq<Entry>, n: nat, j: nat, k: nat)
    requires n <= |entries| && j < k < |Schedule(entries, n)|
    ensures var s := Schedule(entries, n);
            s[j].index <= s[k].index && (s[j].index == s[k].index ==> s[j].op == Allocate && s[k].op == Set)
  {
    var front := Schedule(entries, n - 1);
    if k < |front| {
      ScheduleAscends(entries, n - 1, j, k);
    } else if j < |front| {
      ScheduleInOrder(entries, n - 1);
    }
  }

  /** The calls of a run that stand for the successful allocations. */
  lemma {:induction false} AllocationsAre(calls: seq<Call>) returns (at: seq<nat>)
    ensures Picks(calls, Allocations(calls), at, Allocated)
  {
    hide Picks;
    at := [];
    if calls == [] {
      PicksNone(calls, Allocations(calls), Allocated);
    } else {
      var n, front := |calls| - 1, calls[..|calls| - 1];
      at := AllocationsAre(front);
      PicksNext(front, Allocations(front), at, Allocated, calls[n]);
      assert calls == front + [calls[n]];
      assert Allocated(calls[n]).None? ==> Allocations(calls) == Allocations(front);
      at := if Allocated(calls[n]).Some? then at + [n] else at;
    }
  }

  function Allocated(c: Call): Option<(nat, seq<Byte>)> {
    if c.op == Allocate && c.ok then Some((c.index, c.packet)) else None
  }

  lemma {:induction false} DeallocationsAre(calls: seq<Call>)
    requires forall c :: c in calls ==> c.op == Deallocate
    ensures |DeallocationsReversed(calls)| == |calls|
    ensures forall k :: 0 <= k < |calls| ==>
              DeallocationsReversed(calls)[|calls| - 1 - k] == (calls[k].index, calls[k].packet)
  {
    if calls != [] {
      var rest, n := calls[1..], |calls|;
      DeallocationsAre(rest);
      forall k | 0 <= k < n
        ensures DeallocationsReversed(calls)[n - 1 - k] == (calls[k].index, calls[k].packet)
      {
        if k > 0 {
          assert calls[k] == rest[k - 1];
        }
      }
    }
  }

  /** The packet of call `k` gives its own length and its entry's type. It is the entry's argument but for the size
      and the handle: no size for an allocation; the payload's length and the allocation's handle for a setting
      with a payload; and for one without, the argument itself, except that a handle without data becomes -1. */
  predicate Fitting(run: seq<Call>, k: nat, e: Entry)
    requires k < |run|
  {
    var c := run[k];
    var p := c.packet;
    && e.arg.Some? && c.op != Deallocate
    && var a := e.arg.value;
       && |p| == |a| >= BASIC_SIZE && p[..OFF_CAL_SIZE] == a[..OFF_CAL_SIZE] && p[BASIC_SIZE..] == a[BASIC_SIZE..]
       && ReadI32(p, OFF_DATA_SIZE) == |p| && ReadI32(p, OFF_CAL_TYPE) == e.calType
       && (c.op == Allocate ==> e.hasPayload && ReadI32(p, OFF_CAL_SIZE) == 0)
       && (c.op == Set && e.hasPayload ==>
             && e.payload.Some? && ReadI32(p, OFF_CAL_SIZE) == |e.payload.value|
             && k > 0 && run[k - 1].op == Allocate && run[k - 1].index == c.index && |run[k - 1].packet| == |p|
             && ReadI32(p, OFF_MEM_HANDLE) == ReadI32(run[k - 1].packet, OFF_MEM_HANDLE))
       && (c.op == Set && !e.hasPayload ==>
             if ReadI32(a, OFF_CAL_SIZE) == 0 && ReadI32(a, OFF_MEM_HANDLE) >= 0
             then p[..OFF_MEM_HANDLE] == a[..OFF_MEM_HANDLE] && ReadI32(p, OFF_MEM_HANDLE) == -1
             else p == a)
  }

  ghost predicate AllFit(run: seq<Call>, entries: seq<Entry>) {
    forall k :: 0 <= k < |run| ==> run[k].index < |entries| && Fitting(run, k, entries[run[k].index])
  }

  lemma FitTogether(made: seq<Call>, more: seq<Call>, entries: seq<Entry>)
    requires AllFit(made, entries) && AllFit(more, entries)
    ensures AllFit(made + more, entries)
  {
    hide ReadI32;
    var run := made + more;
    forall k | 0 <= k < |run|
      ensures run[k].index < |entries| && Fitting(run, k, entries[run[k].index])
    {
      if k < |made| {
        assert run[k] == made[k] && (k > 0 ==> run[k - 1] == made[k - 1]);
        assert Fitting(made, k, entries[made[k].index]);
      } else {
        var l := k - |made|;
        assert run[k] == more[l] && (l > 0 ==> run[k - 1] == more[l - 1]);
        assert Fitting(more, l, entries[more[l].index]);
      }
    }
  }

  /** Deallocation `c` undoes allocation `a`. */
  predicate Undoes(c: Call, a: Call) {
    c.op == Deallocate && a.op == Allocate && a.ok && c.index == a.index && c.packet == a.packet
  }

  /** One deallocation for each successful allocation and for nothing else, last entry first. */
  ghost predicate UndoneBy(run: seq<Call>, undo: seq<Call>) {
    && (forall k :: 0 <= k < |undo| ==> exists j :: 0 <= j < |run| && Undoes(undo[k], run[j]))
    && (forall j :: 0 <= j < |run| && run[j].op == Allocate && run[j].ok ==>
          exists k :: 0 <= k < |undo| && Undoes(undo[k], run[j]))
    && (forall k, l :: 0 <= k < l < |undo| ==> undo[k].index > undo[l].index)
  }

  function Mirrored(s: seq<nat>): (t: seq<nat>)
    ensures |t| == |s| && forall k :: 0 <= k < |s| ==> t[k] == s[|s| - 1 - k]
  {
    seq(|s|, k requires 0 <= k < |s| => s[|s| - 1 - k])
  }

  lemma MirroredFalls(s: seq<nat>)
    requires forall i, j :: 0 <= i < j < |s| ==> s[i] < s[j]
    ensures forall i, j :: 0 <= i < j < |s| ==> Mirrored(s)[i] > Mirrored(s)[j]
    ensures forall x :: x in s ==> x in Mirrored(s)
  {
    forall x | x in s
      ensures x in Mirrored(s)
    {
      var i :| 0 <= i < |s| && s[i] == x;
      assert Mirrored(s)[|s| - 1 - i] == x;
    }
  }

  /** The allocation that each deallocation undoes. */
  lemma UndoPlaces(run: seq<Call>, undo: seq<Call>) returns (at: seq<nat>)
    requires (forall c :: c in undo ==> c.op == Deallocate) && DeallocationsReversed(undo) == Allocations(run)
    ensures |at| == |undo| && forall k :: 0 <= k < |undo| ==> at[k] < |run| && Undoes(undo[k], run[at[k]])
    ensures forall k, l :: 0 <= k < l < |at| ==> at[k] > at[l]
    ensures forall j :: 0 <= j < |run| && run[j].op == Allocate && run[j].ok ==> j in at
  {
    hide DeallocationsReversed, Allocations, Undoes, Allocated;
    var up := AllocationsAre(run);
    DeallocationsAre(undo);
    MirroredFalls(up);
    at := Mirrored(up);
    forall k | 0 <= k < |undo|
      ensures at[k] < |run| && Undoes(undo[k], run[at[k]])
    {
      var i := |undo| - 1 - k;
      assert DeallocationsReversed(undo)[i] == (undo[k].index, undo[k].packet);
      assert undo[k] in undo && at[k] == up[i];
      Matching(undo[k], run[up[i]]);
    }
    forall j: nat | j < |run| && run[j].op == Allocate && run[j].ok
      ensures j in at
    {
      IsAllocated(run[j]);
    }
  }

  lemma IsAllocated(c: Call)
    requires c.op == Allocate && c.ok
    ensures Allocated(c).Some?
  {}

  lemma UndoneInReverse(run: seq<Call>, undo: seq<Call>, entries: seq<Entry>)
    requires Follows(run, entries) && (forall c :: c in undo ==> c.op == Deallocate)
    requires DeallocationsReversed(undo) == Allocations(run)
    ensures UndoneBy(run, undo)
  {
    hide Follows, DeallocationsReversed, Allocations, Undoes;
    var at := UndoPlaces(run, undo);
    forall k | 0 <= k < |undo|
      ensures exists j :: 0 <= j < |run| && Undoes(undo[k], run[j])
    {
      assert Undoes(undo[k], run[at[k]]);
    }
    forall j | 0 <= j < |run| && run[j].op == Allocate && run[j].ok
      ensures exists k :: 0 <= k < |undo| && Undoes(undo[k], run[j])
    {
      var k :| 0 <= k < |at| && at[k] == j;
      assert Undoes(undo[k], run[at[k]]);
    }
    forall k, l | 0 <= k < l < |undo|
      ensures undo[k].index > undo[l].index
    {
      SameEntry(undo[k], run[at[k]]);
      SameEntry(undo[l], run[at[l]]);
      TraceAscends(run, entries, at[l], at[k]);
    }
    assert forall k, l :: 0 <= k < l < |undo| ==> undo[k].index > undo[l].index;
    assert forall k :: 0 <= k < |undo| ==> exists j :: 0 <= j < |run| && Undoes(undo[k], run[j]);
  }

  lemma Matching(c: Call, a: Call)
    requires c.op == Deallocate && Allocated(a) == Some((c.index, c.packet))
    ensures Undoes(c, a)
  {}

  lemma SameEntry(c: Call, a: Call)
    requires Undoes(c, a)
    ensures c.index == a.index && a.op == Allocate
  {}

  lemma TraceAscends(run: seq<Call>, entries: seq<Entry>, a: nat, b: nat)
    requires Follows(run, entries) && a < b < |run| && run[a].op == Allocate && run[b].op == Allocate
    ensures run[a].index < run[b].index
  {
    hide Schedule;
    var t, s := Trace(run), Schedule(entries, |entries|);
    assert t[a] == s[a] && t[b] == s[b];
    ScheduleAscends(entries, |entries|, a, b);
  }
}
