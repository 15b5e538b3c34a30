/** The session object: start and cleanup. */
module SetCalSession {
  import opened Common
  import opened Bits
  import opened SetCal

  datatype State = State(claimed: bool, ionFd: int, dmabufFd: int, isMapped: bool,
                         setArg: seq<Byte>, allocArg: seq<Byte>, deallocArg: seq<Byte>)

  /** Descriptors are C ints. */
  const FD_LIMIT: nat := 0x8000_0000

  const IDLE := State(false, -1, -1, false, [], [], [])

  /** The entries still to be deallocated, in order, with their packets. */
  function Pending(states: seq<State>, n: nat): seq<(nat, seq<Byte>)>
    requires n <= |states|
  {
    if n == 0 then []
    else Pending(states, n - 1) + (if states[n - 1].claimed then [(n - 1, states[n - 1].deallocArg)] else [])
  }

  lemma {:induction false} PendingSame(s: seq<State>, t: seq<State>, n: nat)
    requires n <= |s| && n <= |t|
    requires forall i :: 0 <= i < n ==> s[i].claimed == t[i].claimed && s[i].deallocArg == t[i].deallocArg
    ensures Pending(s, n) == Pending(t, n)
  {
    if n > 0 {
      PendingSame(s, t, n - 1);
    }
  }

  lemma {:induction false} NonePending(s: seq<State>, m: nat, n: nat)
    requires m <= n <= |s| && forall i :: m <= i < n ==> !s[i].claimed
    ensures Pending(s, n) == Pending(s, m)
  {
    if n > m {
      NonePending(s, m, n - 1);
    }
  }

  /** What a state says it holds is open, labelled with its entry, and mapped as it says. */
  ghost predicate Holds(s: State, i: nat, open: map<int, Owner>, mapped: set<int>) {
    && (s.ionFd >= 0 ==> s.ionFd in open && open[s.ionFd] == Ion(i))
    && (s.dmabufFd >= 0 ==> s.dmabufFd in open && open[s.dmabufFd] == Dmabuf(i))
    && (s.isMapped ==> s.dmabufFd >= 0 && s.dmabufFd in mapped)
  }

  /** A packet's handle is this descriptor. */
  predicate Handles(packet: seq<Byte>, fd: int) {
    |packet| >= BASIC_SIZE && ReadI32(packet, OFF_MEM_HANDLE) == AsI32(fd)
  }

  /** An open descriptor is held by the one its label names. */
  ghost predicate Held(fd: int, o: Owner, states: seq<State>, calFd: int, mapped: set<int>, before: map<int, Owner>) {
    match o
    case Ion(i) => i < |states| && states[i].ionFd == fd
    case Dmabuf(i) => i < |states| && states[i].dmabufFd == fd && (fd in mapped ==> states[i].isMapped)
    case Cal => calFd == fd
    case Other => fd in before
  }

  /** Every session descriptor and mapping is held by exactly one state, and everything else is as it was before
      the session. */
  ghost predicate Accounted(states: seq<State>, calFd: int, open: map<int, Owner>, mapped: set<int>,
                            before: map<int, Owner>, mappedBefore: set<int>) {
    && mapped <= open.Keys
    && (forall fd :: fd in open ==> fd >= 0 && Held(fd, open[fd], states, calFd, mapped, before))
    && (forall i :: 0 <= i < |states| ==> Holds(states[i], i, open, mapped))
    && (calFd >= 0 ==> calFd in open && open[calFd] == Cal)
    && (forall fd :: fd in before ==> fd in open && open[fd] == Other && before[fd] == Other)
    && (forall fd :: fd in mapped ==> fd in mappedBefore || open[fd].Dmabuf?)
    && (forall fd :: fd in mappedBefore ==> fd in mapped && fd in before)
  }

  /** A new descriptor for entry `i`. */
  lemma Opened(states: seq<State>, calFd: int, open: map<int, Owner>, mapped: set<int>,
               before: map<int, Owner>, mappedBefore: set<int>, i: nat, fd: int, s: State, o: Owner)
    requires Accounted(states, calFd, open, mapped, before, mappedBefore) && i < |states| && fd >= 0 && fd !in open
    requires || (o == Ion(i) && states[i].ionFd < 0 && s == states[i].(ionFd := fd))
             || (o == Dmabuf(i) && states[i].dmabufFd < 0 && !states[i].isMapped && s == states[i].(dmabufFd := fd))
    ensures Accounted(states[i := s], calFd, open[fd := o], mapped, before, mappedBefore)
  {
    var states', open' := states[i := s], open[fd := o];
    forall x | x in open'
      ensures x >= 0 && Held(x, open'[x], states', calFd, mapped, before)
    {
      if x != fd {
        assert Held(x, open[x], states, calFd, mapped, before);
      }
    }
    forall j | 0 <= j < |states'|
      ensures Holds(states'[j], j, open', mapped)
    {
      assert Holds(states[j], j, open, mapped);
    }
  }

  /** A descriptor of entry `i` given back. */
  lemma Closed(states: seq<State>, calFd: int, open: map<int, Owner>, mapped: set<int>,
               before: map<int, Owner>, mappedBefore: set<int>, i: nat, fd: int, s: State)
    requires Accounted(states, calFd, open, mapped, before, mappedBefore) && i < |states| && fd >= 0
    requires || (states[i].ionFd == fd && s == states[i].(ionFd := -1))
             || (states[i].dmabufFd == fd && !states[i].isMapped && s == states[i].(dmabufFd := -1))
    ensures fd in open && fd !in mapped
    ensures Accounted(states[i := s], calFd, open - {fd}, mapped, before, mappedBefore)
  {
    assert Holds(states[i], i, open, mapped);
    assert fd in open && Held(fd, open[fd], states, calFd, mapped, before);
    var states', open' := states[i := s], open - {fd};
    forall x | x in open'
      ensures x >= 0 && Held(x, open'[x], states', calFd, mapped, before)
    {
      assert Held(x, open[x], states, calFd, mapped, before);
    }
    forall j | 0 <= j < |states'|
      ensures Holds(states'[j], j, open', mapped)
    {
      assert Holds(states[j], j, open, mapped);
    }
  }

  /** The buffer of entry `i` mapped or unmapped. */
  lemma Remapped(states: seq<State>, calFd: int, open: map<int, Owner>, mapped: set<int>,
                 before: map<int, Owner>, mappedBefore: set<int>, i: nat, fd: int, on: bool)
    requires Accounted(states, calFd, open, mapped, before, mappedBefore) && i < |states|
    requires states[i].dmabufFd == fd >= 0 && states[i].isMapped != on
    ensures fd in open && (fd in mapped) != on
    ensures Accounted(states[i := states[i].(isMapped := on)], calFd, open,
                      if on then mapped + {fd} else mapped - {fd}, before, mappedBefore)
  {
    assert Holds(states[i], i, open, mapped);
    assert fd in open && Held(fd, open[fd], states, calFd, mapped, before);
    var states', mapped' := states[i := states[i].(isMapped := on)], if on then mapped + {fd} else mapped - {fd};
    forall x | x in open
      ensures x >= 0 && Held(x, open[x], states', calFd, mapped', before)
    {
      assert Held(x, open[x], states, calFd, mapped, before);
    }
    forall j | 0 <= j < |states'|
      ensures Holds(states'[j], j, open, mapped')
    {
      assert Holds(states[j], j, open, mapped);
    }
  }

  class Session {
    const kernel: Kernel
    var states: seq<State>
    var calFd: int
    var prepared: nat
    var initialized: bool
    ghost var baseOpen: map<int, Owner>    // what was open and mapped before the session
    ghost var baseMapped: set<int>

    ghost predicate Tidy()
      reads this`states, this`calFd, this`prepared, this`baseOpen, this`baseMapped
      reads kernel`nextFd, kernel`open, kernel`mapped
    {
      && kernel.Valid() && prepared <= |states|
      && Accounted(states, calFd, kernel.open, kernel.mapped, baseOpen, baseMapped)
    }

    constructor (kernel: Kernel)
      requires kernel.Valid() && forall fd :: fd in kernel.open ==> kernel.open[fd] == Other
      ensures Tidy() && this.kernel == kernel && calFd == -1 && !initialized && states == []
      ensures baseOpen == kernel.open && baseMapped == kernel.mapped
    {
      this.kernel := kernel;
      states, calFd, prepared, initialized := [], -1, 0, false;
      baseOpen, baseMapped := kernel.open, kernel.mapped;
    }

    /** What is still to be deallocated is mapped, and its packet names it. */
    ghost predicate Backed()
      reads this`states
    {
      forall i :: 0 <= i < |states| && states[i].claimed ==>
        states[i].isMapped && Handles(states[i].deallocArg, states[i].dmabufFd)
    }

    /** A packet with the handle of an entry's mapped buffer names that entry. */
    lemma NamesOwn(i: nat, packet: seq<Byte>)
      requires Tidy() && i < |states| && states[i].isMapped && Handles(packet, states[i].dmabufFd)
      requires kernel.nextFd <= FD_LIMIT
      ensures kernel.Named(packet) == Some(i)
    {}

    // ----- one resource at a time

    /** Only the resources of entry `i` have changed. */
    twostate predicate OnlyEntry(i: nat)
      requires i < |states|
      reads this
    {
      && |states| == |old(states)|
      && (forall j :: 0 <= j < |states| && j != i ==> states[j] == old(states[j]))
      && states[i] ==
          old(states[i]).(ionFd := states[i].ionFd, dmabufFd := states[i].dmabufFd, isMapped := states[i].isMapped)
    }

    method OpenIon(i: nat) returns (ok: bool)
      requires Tidy() && i < |states| && states[i].ionFd < 0
      modifies this`states, kernel`nextFd, kernel`open
      ensures Tidy() && i < |states| && OnlyEntry(i) && (kernel.quiet ==> ok)
      ensures states[i] == old(states[i]).(ionFd := states[i].ionFd) && (ok <==> states[i].ionFd >= 0)
    {
      hide Accounted;
      ghost var open := kernel.open;
      var fd := kernel.Open(Ion(i));
      ok := fd >= 0;
      if ok {
        Opened(states, calFd, open, kernel.mapped, baseOpen, baseMapped, i, fd, states[i].(ionFd := fd), Ion(i));
        states := states[i := states[i].(ionFd := fd)];
      }
    }

    method OpenBuffer(i: nat) returns (ok: bool)
      requires Tidy() && i < |states| && states[i].dmabufFd < 0 && !states[i].isMapped
      modifies this`states, kernel`nextFd, kernel`open
      ensures Tidy() && i < |states| && OnlyEntry(i) && (kernel.quiet ==> ok)
      ensures states[i] == old(states[i]).(dmabufFd := states[i].dmabufFd) && (ok <==> states[i].dmabufFd >= 0)
    {
      hide Accounted;
      ghost var open := kernel.open;
      var fd := kernel.Open(Dmabuf(i));
      ok := fd >= 0;
      if ok {
        Opened(states, calFd, open, kernel.mapped, baseOpen, baseMapped, i, fd, states[i].(dmabufFd := fd), Dmabuf(i));
        states := states[i := states[i].(dmabufFd := fd)];
      }
    }

    method MapBuffer(i: nat) returns (ok: bool)
      requires Tidy() && i < |states| && states[i].dmabufFd >= 0 && !states[i].isMapped
      modifies this`states, kernel`mapped
      ensures Tidy() && i < |states| && OnlyEntry(i) && (kernel.quiet ==> ok)
      ensures states[i] == old(states[i]).(isMapped := ok)
    {
      hide Accounted;
      Remapped(states, calFd, kernel.open, kernel.mapped, baseOpen, baseMapped, i, states[i].dmabufFd, true);
      ok := kernel.Map(states[i].dmabufFd);
      if ok {
        states := states[i := states[i].(isMapped := true)];
      }
    }

    lemma MappedHasBuffer(i: nat)
      requires Tidy() && i < |states| && states[i].isMapped
      ensures states[i].dmabufFd >= 0
    {
      assert Holds(states[i], i, kernel.open, kernel.mapped);
    }

    method UnmapBuffer(i: nat)
      requires Tidy() && i < |states|
      modifies this`states, kernel`mapped
      ensures Tidy() && i < |states| && OnlyEntry(i) && states[i] == old(states[i]).(isMapped := false)
    {
      hide Accounted;
      if states[i].isMapped {
        MappedHasBuffer(i);
        Remapped(states, calFd, kernel.open, kernel.mapped, baseOpen, baseMapped, i, states[i].dmabufFd, false);
        kernel.Unmap(states[i].dmabufFd);
        states := states[i := states[i].(isMapped := false)];
      }
    }

    method CloseBuffer(i: nat)
      requires Tidy() && i < |states| && !states[i].isMapped
      modifies this`states, kernel`open
      ensures Tidy() && i < |states| && OnlyEntry(i)
      ensures states[i] == old(states[i]).(dmabufFd := states[i].dmabufFd) && states[i].dmabufFd < 0
    {
      hide Accounted;
      if states[i].dmabufFd >= 0 {
        Closed(states, calFd, kernel.open, kernel.mapped, baseOpen, baseMapped, i, states[i].dmabufFd,
               states[i].(dmabufFd := -1));
        kernel.Close(states[i].dmabufFd);
        states := states[i := states[i].(dmabufFd := -1)];
      }
    }

    method CloseIon(i: nat)
      requires Tidy() && i < |states|
      modifies this`states, kernel`open
      ensures Tidy() && i < |states| && OnlyEntry(i)
      ensures states[i] == old(states[i]).(ionFd := states[i].ionFd) && states[i].ionFd < 0
    {
      hide Accounted;
      if states[i].ionFd >= 0 {
        Closed(states, calFd, kernel.open, kernel.mapped, baseOpen, baseMapped, i, states[i].ionFd,
               states[i].(ionFd := -1));
        kernel.Close(states[i].ionFd);
        states := states[i := states[i].(ionFd := -1)];
      }
    }

    // ----- preparing one entry

    /** Takes an ion descriptor, a buffer and a mapping for entry `i`; what was taken stays recorded even
        when a later step fails. */
    method TakeBuffer(i: nat) returns (rc: int)
      requires Tidy() && i < |states| && states[i].ionFd < 0 && states[i].dmabufFd < 0 && !states[i].isMapped
      modifies this`states, kernel`nextFd, kernel`open, kernel`mapped
      ensures Tidy() && i < |states| && OnlyEntry(i) && rc <= 0 && (kernel.quiet ==> rc == 0)
      ensures rc == 0 ==> states[i].dmabufFd >= 0 && states[i].isMapped
      ensures states[i].ionFd >= 0 <==> states[i].dmabufFd >= 0
    {
      hide Tidy;
      rc := Errno();
      var ok := OpenIon(i);
      if !ok {
        return;
      }
      ok := OpenBuffer(i);
      if !ok {
        CloseIon(i);
        return;
      }
      ok := MapBuffer(i);
      if ok {
        rc := 0;
      }
    }

    /** audio_setcal_prepare_exact_entry */
    method PrepareEntry(i: nat, e: Entry) returns (rc: int)
      requires Tidy() && i < |states| && states[i] == IDLE
      modifies this`states, kernel`nextFd, kernel`open, kernel`mapped
      ensures Tidy() && |states| == |old(states)| && rc <= 0 && !states[i].claimed
      ensures forall j :: 0 <= j < |states| && j != i ==> states[j] == old(states[j])
      ensures rc == 0 ==> Usable(e) && Packed(states[i], e)
      ensures kernel.quiet && Usable(e) ==> rc == 0
      ensures kernel.quiet && !Usable(e) && (e.present ==> e.arg.Some? && (e.hasPayload ==> e.payload.Some?)) ==>
                rc == EINVAL
    {
      hide Tidy, Patched, WriteI32, ReadI32, NotAllZero;
      if !e.present {
        return EINVAL;
      }
      var f := Fault(kernel.quiet);
      if e.arg.None? || f {
        rc := Errno();
        return;
      }
      var a := e.arg.value;
      if |a| > ARG_MAX || !NotAllZero(a) || |a| < BASIC_SIZE {
        return EINVAL;
      }
      var size := ReadI32(a, OFF_CAL_SIZE);
      if ReadI32(a, OFF_DATA_SIZE) != |a| || ReadI32(a, OFF_CAL_TYPE) != e.calType || size < 0 {
        return EINVAL;
      }
      if !e.hasPayload {
        SetPackets(i, HeaderOnly(a), [], []);
        return 0;
      }
      if size == 0 {
        return EINVAL;
      }
      f := Fault(kernel.quiet);
      if e.payload.None? || f {
        rc := Errno();
        return;
      }
      var payload := e.payload.value;
      if |payload| > PAYLOAD_MAX || !NotAllZero(payload) {
        return EINVAL;
      }
      rc := TakeBuffer(i);
      if rc < 0 {
        return;
      }
      if |payload| != size {
        return EINVAL;
      }
      var handle := AsI32(states[i].dmabufFd);
      SetPackets(i, Patched(a, |payload|, handle), Patched(a, 0, handle), Patched(a, 0, handle));
    }

    method SetPackets(i: nat, setArg: seq<Byte>, allocArg: seq<Byte>, deallocArg: seq<Byte>)
      requires Tidy() && i < |states|
      modifies this`states
      ensures Tidy()
      ensures var s := old(states[i]).(setArg := setArg, allocArg := allocArg, deallocArg := deallocArg);
              states == old(states)[i := s]
    {
      states := states[i := states[i].(setArg := setArg, allocArg := allocArg, deallocArg := deallocArg)];
    }

    method SetClaimed(i: nat, claimed: bool)
      requires Tidy() && i < |states|
      modifies this`states
      ensures Tidy() && states == old(states)[i := old(states[i]).(claimed := claimed)]
    {
      states := states[i := states[i].(claimed := claimed)];
    }

    // ----- start

    /** Allocates (if it has a payload) and sets one entry. */
    method DriveEntry(i: nat, e: Entry) returns (rc: int, ghost made: seq<Call>)
      requires Tidy() && i < |states| && !states[i].claimed && Usable(e) && Packed(states[i], e)
      modifies this`states, kernel`calls
      ensures Tidy() && kernel.calls == old(kernel.calls) + made && rc <= 0 && (kernel.quiet ==> rc == 0)
      ensures |states| == |old(states)| && states == old(states)[i := old(states[i]).(claimed := states[i].claimed)]
      ensures EntryRun(made, states[i], e, i) && (rc == 0 ==> EntryDone(made, e, i))
      ensures states[i].claimed ==> states[i].isMapped && Handles(states[i].deallocArg, states[i].dmabufFd)
      ensures e.hasPayload && kernel.nextFd <= FD_LIMIT ==> forall c :: c in made ==> c.buffer == Some(i)
    {
      hide Tidy, Usable, Handles, Packed, EntryRun, EntryDone;
      ghost var s := states[i];
      PacketsHandle(s, e);
      if e.hasPayload && kernel.nextFd <= FD_LIMIT {
        NamesOwn(i, s.allocArg);
        NamesOwn(i, s.setArg);
      }
      made := [];
      rc := Errno();
      var ok;
      if e.hasPayload {
        ok := kernel.Ioctl(Allocate, i, states[i].allocArg);
        made := [Call(Allocate, i, s.allocArg, ok, kernel.Named(s.allocArg))];
        if !ok {
          RunOf(made, s, e, i);
          return;
        }
        SetClaimed(i, true);
      }
      ok := kernel.Ioctl(Set, i, states[i].setArg);
      made := made + [Call(Set, i, s.setArg, ok, kernel.Named(s.setArg))];
      RunOf(made, s, e, i);
      if ok {
        rc := 0;
      }
    }

    method PrepareAll(entries: seq<Entry>) returns (rc: int)
      requires Tidy() && states == [] && calFd < 0 && prepared == 0
      modifies this`states, this`prepared, this`initialized, kernel`nextFd, kernel`open, kernel`mapped
      ensures Tidy() && |states| == |entries| && rc <= 0 && initialized && prepared <= |entries|
      ensures forall j :: 0 <= j < |states| ==> !states[j].claimed
      ensures rc == 0 ==> prepared == |entries| && forall j :: 0 <= j < |entries| ==>
          Usable(entries[j]) && Packed(states[j], entries[j])
      ensures kernel.quiet && (forall e :: e in entries ==> Usable(e)) ==> rc == 0
    {
      hide Usable, Packed, Tidy;
      InitStates(|entries|);
      initialized := true;
      for i := 0 to |entries|
        invariant Tidy() && |states| == |entries| && prepared == i && initialized
        invariant forall j :: 0 <= j < |states| ==> !states[j].claimed
        invariant forall j :: 0 <= j < i ==> Usable(entries[j]) && Packed(states[j], entries[j])
        invariant forall j :: i <= j < |states| ==> states[j] == IDLE
      {
        rc := PrepareEntry(i, entries[i]);
        if rc < 0 {
          return;
        }
        CountPrepared();
      }
      rc := 0;
    }

    method CountPrepared()
      requires Tidy() && prepared < |states|
      modifies this`prepared
      ensures Tidy() && prepared == old(prepared) + 1
    {
      prepared := prepared + 1;
    }

    method InitStates(n: nat)
      requires Tidy() && states == []
      modifies this`states
      ensures Tidy() && |states| == n && forall j :: 0 <= j < n ==> states[j] == IDLE
    {
      states := seq(n, _ => IDLE);
    }

    method OpenCal() returns (ok: bool)
      requires Tidy() && calFd < 0
      modifies this`calFd, kernel`nextFd, kernel`open
      ensures Tidy() && (ok <==> calFd >= 0) && (kernel.quiet ==> ok)
    {
      calFd := kernel.Open(Cal);
      ok := calFd >= 0;
    }

    method DriveAll(entries: seq<Entry>) returns (rc: int, ghost made: seq<Call>)
      requires Tidy() && |states| == |entries|
      requires forall j :: 0 <= j < |entries| ==>
          !states[j].claimed && Usable(entries[j]) && Packed(states[j], entries[j])
      modifies this`states, kernel`calls
      ensures Tidy() && |states| == |entries| && kernel.calls == old(kernel.calls) + made
      ensures rc <= 0 && (kernel.quiet ==> rc == 0)
      ensures Follows(made, entries) && Allocations(made) == Pending(states, |states|)
      ensures rc == 0 ==> Trace(made) == Schedule(entries, |entries|) && AllOk(made)
      ensures Backed() && AllFit(made, entries) && (kernel.nextFd <= FD_LIMIT ==> NameOwn(made, entries))
    {
      hide Usable, Packed, Tidy, Allocations, Pending, Schedule, Trace, StepsOf, Follows, OkButLast, AllOk;
      hide Handles, Fitting, AllFit, NameOwn;
      NothingFits(entries);
      made := [];
      NothingPending(states);
      NothingScheduled(entries);
      for i := 0 to |entries|
        invariant Tidy() && |states| == |entries| && kernel.calls == old(kernel.calls) + made
        invariant Trace(made) == Schedule(entries, i) && AllOk(made) && Follows(made, entries)
        invariant Allocations(made) == Pending(states, i)
        invariant Backed() && AllFit(made, entries) && (kernel.nextFd <= FD_LIMIT ==> NameOwn(made, entries))
        invariant forall j :: i <= j < |entries| ==>
            !states[j].claimed && Usable(entries[j]) && Packed(states[j], entries[j])
      {
        ghost var more;
        ghost var before := states;
        rc, more := DriveEntry(i, entries[i]);
        AllocationsConcat(made, more);
        PendingSame(before, states, i);
        PendingStep(states, i);
        ScheduleStep(entries, made, more, i);
        EntryFits(entries, i, more);
        FitTogether(made, more, entries);
        if kernel.nextFd <= FD_LIMIT {
          NameTogether(made, more, entries);
        }
        made := made + more;
        if rc < 0 {
          NonePending(states, i + 1, |states|);
          return;
        }
      }
      rc := 0;
    }

    /** audio_setcal_execute_session_start on a fresh session. */
    method Start(plan: Plan) returns (rc: int, ghost made: seq<Call>)
      requires Tidy() && states == [] && calFd < 0 && prepared == 0 && !initialized
      modifies this, kernel
      ensures Tidy() && baseOpen == old(baseOpen) && baseMapped == old(baseMapped)
      ensures kernel.calls == old(kernel.calls) + made && rc <= 0
      ensures Follows(made, plan.entries) && (calFd < 0 ==> made == [])
      ensures rc == 0 ==> Trace(made) == Schedule(plan.entries, |plan.entries|) && AllOk(made)
      ensures Allocations(made) == Pending(states, prepared) && (calFd < 0 ==> Pending(states, prepared) == [])
      ensures Backed() && AllFit(made, plan.entries)
      ensures kernel.nextFd <= FD_LIMIT ==> NameOwn(made, plan.entries)
      ensures !initialized ==> states == [] && calFd < 0
      ensures kernel.quiet && plan.valid && plan.declaredCount == |plan.entries| ==>
                (rc == 0 <==> forall e :: e in plan.entries ==> Usable(e))
      ensures !plan.valid || plan.declaredCount != |plan.entries| ==> rc == EINVAL && made == [] && !initialized
    {
      hide Tidy, Usable, Packed, Pending, Allocations, AllFit, NameOwn, Handles;
      made := [];
      assert Trace(made) == [];
      NothingFits(plan.entries);
      NothingPending(states);
      if !plan.valid || plan.declaredCount != |plan.entries| {
        return EINVAL, made;
      }
      rc := PrepareAll(plan.entries);
      if rc < 0 {
        NonePending(states, 0, prepared);
        NothingPending(states);
        return;
      }
      NonePending(states, 0, prepared);
      NothingPending(states);
      var ok := OpenCal();
      if !ok {
        rc := Errno();
        return;
      }
      rc, made := DriveAll(plan.entries);
    }

    // ----- cleanup

    ghost predicate Released(s: State) {
      s.ionFd < 0 && s.dmabufFd < 0 && !s.isMapped
    }

    /** audio_setcal_execute_state_release */
    method ReleaseState(i: nat)
      requires Tidy() && i < |states|
      modifies this`states, kernel`open, kernel`mapped
      ensures Tidy() && i < |states| && OnlyEntry(i) && Released(states[i])
    {
      hide Tidy;
      UnmapBuffer(i);
      CloseBuffer(i);
      CloseIon(i);
    }

    /** Gives back the allocations of the first `prepared` entries, last one first. */
    method DeallocateAll() returns (rc: int, ghost made: seq<Call>)
      requires Tidy()
      modifies this`states, kernel`calls
      ensures Tidy() && |states| == |old(states)| && kernel.calls == old(kernel.calls) + made && rc <= 0
      ensures forall c :: c in made ==> c.op == Deallocate
      ensures DeallocationsReversed(made) == Pending(old(states), prepared)
      ensures (rc == 0 <==> AllOk(made)) && (kernel.quiet ==> AllOk(made))
      ensures old(Backed()) && kernel.nextFd <= FD_LIMIT ==> forall c :: c in made ==> c.buffer == Some(c.index)
      ensures AllOk(made) ==> forall j :: 0 <= j < prepared && j < |states| ==> !states[j].claimed
    {
      hide Tidy, Pending, DeallocationsReversed, Handles;
      rc, made := 0, [];
      ghost var before := states;
      NoDeallocations();
      var index := prepared;
      TidyCount();
      ghost var pending := Pending(before, prepared);
      while index > 0
        invariant 0 <= index <= prepared <= |states| == |before| && Tidy() && rc <= 0
        invariant kernel.calls == old(kernel.calls) + made && (rc == 0 <==> AllOk(made))
        invariant (kernel.quiet ==> AllOk(made))
        invariant forall c :: c in made ==> c.op == Deallocate
        invariant states[..index] == before[..index]
        invariant old(Backed()) && kernel.nextFd <= FD_LIMIT ==> forall c :: c in made ==> c.buffer == Some(c.index)
        invariant Pending(before, index) + DeallocationsReversed(made) == pending
        invariant AllOk(made) ==> forall j :: index <= j < prepared ==> !states[j].claimed
      {
        index := index - 1;
        PendingStep(before, index);
        assert states[index] == before[index] by {
          assert states[..index + 1][index] == before[..index + 1][index];
        }
        assert states[..index] == before[..index] by {
          assert states[..index] == states[..index + 1][..index] && before[..index] == before[..index + 1][..index];
        }
        if states[index].claimed {
          ghost var packet := states[index].deallocArg;
          if old(Backed()) && kernel.nextFd <= FD_LIMIT {
            assert before[index].claimed;
            NamesOwn(index, packet);
          }
          var ok := kernel.Ioctl(Deallocate, index, states[index].deallocArg);
          ghost var call := Call(Deallocate, index, packet, ok, kernel.Named(packet));
          DeallocationsSnoc(made, call);
          AllOkSnoc(made, call);
          made := made + [call];
          if ok {
            SetClaimed(index, false);
          } else if rc == 0 {
            rc := Errno();
          }
        }
      }
      NothingPending(before);
      assert Pending(before, 0) + DeallocationsReversed(made) == DeallocationsReversed(made);
    }

    lemma TidyCount()
      requires Tidy()
      ensures prepared <= |states|
    {}

    method CloseCal()
      requires Tidy() && calFd >= 0
      modifies this`calFd, kernel`open
      ensures Tidy() && calFd < 0
    {
      kernel.Close(calFd);
      calFd := -1;
    }

    method ReleaseAll()
      requires Tidy()
      modifies this`states, kernel`open, kernel`mapped
      ensures Tidy() && |states| == |old(states)| && forall i :: 0 <= i < |states| ==> Released(states[i])
    {
      hide Tidy;
      for i := 0 to |states|
        invariant Tidy() && |states| == |old(states)| && forall j :: 0 <= j < i ==> Released(states[j])
      {
        ReleaseState(i);
      }
    }

    /** With everything released, the kernel's tables are what they were before the session. */
    lemma NothingLeaks()
      requires Tidy() && calFd < 0 && forall i :: 0 <= i < |states| ==> Released(states[i])
      ensures kernel.open == baseOpen && kernel.mapped == baseMapped
    {
      forall fd | fd in kernel.open
        ensures fd in baseOpen
        ensures kernel.open[fd] == Other
      {
        assert Held(fd, kernel.open[fd], states, calFd, kernel.mapped, baseOpen);
      }
      forall fd
        ensures fd in kernel.open <==> fd in baseOpen
      {
      }
      assert kernel.open.Keys == baseOpen.Keys;
      assert forall fd :: fd in baseOpen ==> kernel.open[fd] == baseOpen[fd];
      assert kernel.open == baseOpen;
      forall fd
        ensures fd in kernel.mapped <==> fd in baseMapped
      {
        if fd in kernel.mapped {
          assert fd in kernel.open && kernel.open[fd] == Other;
        }
      }
    }

    /** audio_setcal_execute_session_cleanup */
    method Cleanup(prior: int) returns (rc: int, ghost made: seq<Call>)
      requires Tidy() && prior <= 0
          && (!initialized ==> calFd < 0 && forall i :: 0 <= i < |states| ==> Released(states[i]))
      modifies this, kernel
      ensures Tidy() && calFd < 0 && !initialized && forall i :: 0 <= i < |states| ==> Released(states[i])
      ensures kernel.open == old(baseOpen) && kernel.mapped == old(baseMapped)
      ensures kernel.calls == old(kernel.calls) + made && forall c :: c in made ==> c.op == Deallocate
      ensures DeallocationsReversed(made) == if old(calFd) >= 0 then Pending(old(states), old(prepared)) else []
      ensures rc <= 0 && (rc == 0 <==> prior == 0 && AllOk(made)) && (kernel.quiet ==> AllOk(made))
      ensures prior < 0 ==> rc == prior
      ensures kernel.nextFd == old(kernel.nextFd)
      ensures old(Backed()) && kernel.nextFd <= FD_LIMIT ==> forall c :: c in made ==> c.buffer == Some(c.index)
      ensures old(!initialized) ==> made == [] && states == old(states) && kernel.open == old(kernel.open)
                                    && kernel.mapped == old(kernel.mapped)
    {
      hide Tidy, Pending, DeallocationsReversed;
      rc, made := prior, [];
      NoDeallocations();
      if calFd >= 0 {
        var dealloc;
        dealloc, made := DeallocateAll();
        if rc == 0 {
          rc := dealloc;
        }
        CloseCal();
      }
      if initialized {
        ReleaseAll();
        initialized := false;
      }
      NothingLeaks();
    }
  }

  /** The packets of a prepared entry. */
  ghost predicate Packed(s: State, e: Entry)
    requires Usable(e)
  {
    var a := e.arg.value;
    if e.hasPayload
    then s.dmabufFd >= 0 && s.isMapped
         && s.setArg == Patched(a, |e.payload.value|, AsI32(s.dmabufFd))
         && s.allocArg == Patched(a, 0, AsI32(s.dmabufFd)) && s.deallocArg == s.allocArg
    else s.setArg == HeaderOnly(a)
  }

  /** The calls for one entry follow its steps up to the first failure, with packets made from its argument, and
      its allocation is what is left to be undone. */
  ghost predicate EntryRun(made: seq<Call>, s: State, e: Entry, i: nat) {
    && Trace(made) <= StepsOf(e, i) && OkButLast(made)
    && Allocations(made) == (if s.claimed then [(i, s.deallocArg)] else [])
    && forall k :: 0 <= k < |made| ==> Fitting(made, k, e)
  }

  predicate EntryDone(made: seq<Call>, e: Entry, i: nat) {
    Trace(made) == StepsOf(e, i) && AllOk(made)
  }

  lemma PacketsHandle(s: State, e: Entry)
    requires Usable(e) && Packed(s, e)
    ensures e.hasPayload ==>
              && s.isMapped && s.deallocArg == s.allocArg
              && Handles(s.setArg, s.dmabufFd) && Handles(s.allocArg, s.dmabufFd)
  {
    hide ReadI32, AsI32, NotAllZero;
    PacketsFit(s, e);
  }

  lemma RunOf(made: seq<Call>, s: State, e: Entry, i: nat)
    requires Usable(e) && Packed(s, e)
    requires forall k :: 0 <= k < |made| ==>
               made[k].index == i && made[k].packet == if made[k].op == Allocate then s.allocArg else s.setArg
    requires if e.hasPayload then 1 <= |made| <= 2 && made[0].op == Allocate else |made| == 1
    requires made[|made| - 1].op == if e.hasPayload && |made| == 1 then Allocate else Set
    requires if e.hasPayload then made[0].ok == (|made| == 2) else true
    ensures EntryRun(made, s.(claimed := e.hasPayload && |made| == 2), e, i)
    ensures made[|made| - 1].ok ==> EntryDone(made, e, i)
  {
    hide Usable, Packed, Fitting, Trace, StepsOf, OkButLast, AllOk, Allocations, Handles;
    PacketsHandle(s, e);
    Driven(made, e, i);
    MadeFits(made, s, e, i);
  }

  /** The calls for one entry: an allocation that fails, or as many calls as the entry has steps. */
  lemma {:induction false} Driven(made: seq<Call>, e: Entry, i: nat)
    requires forall k :: 0 <= k < |made| ==> made[k].index == i
    requires if e.hasPayload then 1 <= |made| <= 2 && made[0].op == Allocate else |made| == 1
    requires made[|made| - 1].op == if e.hasPayload && |made| == 1 then Allocate else Set
    requires if e.hasPayload then made[0].ok == (|made| == 2) else true
    ensures Trace(made) <= StepsOf(e, i) && OkButLast(made)
    ensures made[|made| - 1].ok ==> Trace(made) == StepsOf(e, i) && AllOk(made)
    ensures Allocations(made) == if e.hasPayload && |made| == 2 then [(i, made[0].packet)] else []
  {
    hide Allocations;
    OneAllocation(made[0]);
    if |made| == 2 {
      assert made == [made[0]] + [made[1]];
      AllocationsConcat([made[0]], [made[1]]);
      OneAllocation(made[1]);
    } else {
      assert made == [made[0]];
    }
  }

  lemma MadeFits(made: seq<Call>, s: State, e: Entry, i: nat)
    requires Usable(e) && Packed(s, e) && Trace(made) <= StepsOf(e, i)
    requires forall k :: 0 <= k < |made| ==> made[k].packet == if made[k].op == Allocate then s.allocArg else s.setArg
    ensures forall k :: 0 <= k < |made| ==> Fitting(made, k, e)
  {
    hide ReadI32, AsI32, Patched, HeaderOnly, NotAllZero;
    PacketsFit(s, e);
    forall k | 0 <= k < |made|
      ensures Fitting(made, k, e)
    {
      assert Trace(made)[k] == StepsOf(e, i)[k];
      assert k > 0 ==> Trace(made)[k - 1] == StepsOf(e, i)[k - 1];
    }
  }

  lemma PacketsFit(s: State, e: Entry)
    requires Usable(e) && Packed(s, e)
    ensures var a, p := e.arg.value, s.setArg;
            && |p| == |a| && p[..OFF_CAL_SIZE] == a[..OFF_CAL_SIZE] && p[BASIC_SIZE..] == a[BASIC_SIZE..]
            && ReadI32(p, OFF_DATA_SIZE) == |p| && ReadI32(p, OFF_CAL_TYPE) == e.calType
    ensures e.hasPayload ==>
              var a, p, q := e.arg.value, s.setArg, s.allocArg;
              && |q| == |a| && q[..OFF_CAL_SIZE] == a[..OFF_CAL_SIZE] && q[BASIC_SIZE..] == a[BASIC_SIZE..]
              && ReadI32(q, OFF_DATA_SIZE) == |q| && ReadI32(q, OFF_CAL_TYPE) == e.calType
              && ReadI32(p, OFF_CAL_SIZE) == |e.payload.value| && ReadI32(q, OFF_CAL_SIZE) == 0
              && Handles(p, s.dmabufFd) && Handles(q, s.dmabufFd) && s.deallocArg == q && s.isMapped
    ensures !e.hasPayload ==>
              var a, p := e.arg.value, s.setArg;
              if ReadI32(a, OFF_CAL_SIZE) == 0 && ReadI32(a, OFF_MEM_HANDLE) >= 0
              then p[..OFF_MEM_HANDLE] == a[..OFF_MEM_HANDLE] && ReadI32(p, OFF_MEM_HANDLE) == -1
              else p == a
  {
    hide ReadI32, AsI32, NotAllZero;
    var a := e.arg.value;
    if !e.hasPayload {
      assert s.setArg[..OFF_CAL_SIZE] == s.setArg[..OFF_MEM_HANDLE][..OFF_CAL_SIZE];
      assert a[..OFF_CAL_SIZE] == a[..OFF_MEM_HANDLE][..OFF_CAL_SIZE];
    }
    SameFront(a, s.setArg);
    if e.hasPayload {
      SameFront(a, s.allocArg);
    }
  }

  lemma SameFront(a: seq<Byte>, p: seq<Byte>)
    requires |p| == |a| >= BASIC_SIZE && p[..OFF_CAL_SIZE] == a[..OFF_CAL_SIZE]
    ensures ReadI32(p, OFF_DATA_SIZE) == ReadI32(a, OFF_DATA_SIZE)
    ensures ReadI32(p, OFF_CAL_TYPE) == ReadI32(a, OFF_CAL_TYPE)
  {
    hide ReadI32;
    assert p[0..4] == p[..OFF_CAL_SIZE][0..4] && a[0..4] == a[..OFF_CAL_SIZE][0..4];
    assert p[8..12] == p[..OFF_CAL_SIZE][8..12] && a[8..12] == a[..OFF_CAL_SIZE][8..12];
    SameField(p, a, OFF_DATA_SIZE);
    SameField(p, a, OFF_CAL_TYPE);
  }

  /** A header-only packet does not carry a stale buffer handle. */
  function HeaderOnly(a: seq<Byte>): (q: seq<Byte>)
    requires |a| >= BASIC_SIZE
    ensures |q| == |a| && q[..OFF_MEM_HANDLE] == a[..OFF_MEM_HANDLE] && q[BASIC_SIZE..] == a[BASIC_SIZE..]
    ensures ReadI32(a, OFF_CAL_SIZE) == 0 ==> ReadI32(q, OFF_MEM_HANDLE) < 0
  {
    if ReadI32(a, OFF_CAL_SIZE) == 0 && ReadI32(a, OFF_MEM_HANDLE) >= 0 then WriteI32(a, OFF_MEM_HANDLE, -1) else a
  }

  /** Every call with a payload names the mapped buffer of its own entry. */
  ghost predicate NameOwn(made: seq<Call>, entries: seq<Entry>) {
    forall k :: 0 <= k < |made| ==>
      made[k].index < |entries| && (entries[made[k].index].hasPayload ==> made[k].buffer == Some(made[k].index))
  }

  lemma NothingFits(entries: seq<Entry>)
    ensures AllFit([], entries) && NameOwn([], entries)
  {}

  lemma NameTogether(made: seq<Call>, more: seq<Call>, entries: seq<Entry>)
    requires NameOwn(made, entries) && NameOwn(more, entries)
    ensures NameOwn(made + more, entries)
  {}

  lemma EntryFits(entries: seq<Entry>, i: nat, more: seq<Call>)
    requires i < |entries| && Trace(more) <= StepsOf(entries[i], i)
    requires forall k :: 0 <= k < |more| ==> Fitting(more, k, entries[i])
    ensures AllFit(more, entries)
    ensures (forall c :: c in more && entries[i].hasPayload ==> c.buffer == Some(i)) ==> NameOwn(more, entries)
  {
    hide Fitting;
    forall k | 0 <= k < |more|
      ensures more[k].index == i
    {
      assert Trace(more)[k] == StepsOf(entries[i], i)[k];
    }
  }

  lemma OneAllocation(c: Call)
    ensures Allocations([c]) == if c.op == Allocate && c.ok then [(c.index, c.packet)] else []
  {
    assert [c][..0] == [];
  }

  lemma NothingPending(s: seq<State>)
    ensures Pending(s, 0) == [] && Allocations([]) == []
  {}

  lemma PendingStep(s: seq<State>, n: nat)
    requires n < |s|
    ensures Pending(s, n + 1) == Pending(s, n) + (if s[n].claimed then [(n, s[n].deallocArg)] else [])
  {}

  lemma AllOkSnoc(made: seq<Call>, c: Call)
    ensures AllOk(made + [c]) <==> AllOk(made) && c.ok
  {
    if AllOk(made + [c]) {
      assert (made + [c])[|made|] == c;
      assert forall i :: 0 <= i < |made| ==> (made + [c])[i] == made[i];
    }
  }

  lemma NoDeallocations()
    ensures DeallocationsReversed([]) == []
  {}

  lemma {:induction false} DeallocationsSnoc(made: seq<Call>, c: Call)
    requires c.op == Deallocate && forall d :: d in made ==> d.op == Deallocate
    ensures DeallocationsReversed(made + [c]) == [(c.index, c.packet)] + DeallocationsReversed(made)
  {
    if made == [] {
      assert (made + [c])[1..] == [];
    } else {
      assert (made + [c])[1..] == made[1..] + [c] && (made + [c])[0] == made[0];
      DeallocationsSnoc(made[1..], c);
    }
  }

  /** audio_setcal_execute_manifest_plan, and a second cleanup on top. The ioctls are a run of the
      schedule followed by one deallocation, with the allocation's packet, for each allocation that
      succeeded, in reverse order; every descriptor and mapping taken is given back once. */
  method Execute(kernel: Kernel, plan: Plan) returns (rc: int, ghost run: seq<Call>, ghost undo: seq<Call>)
    requires kernel.Valid() && forall fd :: fd in kernel.open ==> kernel.open[fd] == Other
    modifies kernel
    ensures kernel.calls == old(kernel.calls) + run + undo
    ensures Follows(run, plan.entries) && AllFit(run, plan.entries) && UndoneBy(run, undo)
    ensures kernel.nextFd <= FD_LIMIT ==>
              NameOwn(run, plan.entries) && forall c :: c in undo ==> c.buffer == Some(c.index)
    ensures kernel.open == old(kernel.open) && kernel.mapped == old(kernel.mapped)
    ensures rc == 0 ==> Trace(run) == Schedule(plan.entries, |plan.entries|) && AllOk(run) && AllOk(undo)
    ensures kernel.quiet && plan.valid && plan.declaredCount == |plan.entries| ==>
              (rc == 0 <==> forall e :: e in plan.entries ==> Usable(e))
    ensures !plan.valid || plan.declaredCount != |plan.entries| ==> rc == EINVAL && run == undo == []
  {
    hide Usable, Pending, DeallocationsReversed, Allocations, Schedule, Trace, AllFit, UndoneBy, NameOwn, Follows;
    var session := new Session(kernel);
    var started;
    started, run := session.Start(plan);
    rc, undo := session.Cleanup(started);
    ghost var again;
    var rc2;
    rc2, again := session.Cleanup(rc);
    assert kernel.calls == old(kernel.calls) + run + undo + again;
    UndoneInReverse(run, undo, plan.entries);
  }
}
