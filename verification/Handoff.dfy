/** The automatic handoff: armed by a durable enable record, dispatched at most once behind a durable
    latch, across any number of boots, failures and power cuts.

    Power can go at the start of any primitive. From then on the rest of the running command has no
    effect (`alive` is false) until the next boot, and each file is left as one of the versions that the
    last successful directory sync did not rule out. */
module Handoff {
  import opened Common
  import opened CStrings
  import opened EnableRecord

  datatype Path = Enable | Latch

  function Other(p: Path): Path {
    if p == Enable then Latch else Enable
  }

  /** A state of one directory entry; `author` is the intent of the command that created the file. */
  datatype Version = Absent | Present(data: string, synced: bool, author: string)

  /** The versions a power cut may leave behind, oldest first; the last one is what the system sees. */
  type Slot = s: seq<Version> | s != [] witness [Absent]

  function Seen(s: Slot): Version {
    s[|s| - 1]
  }

  /** What a power cut may turn a version into. */
  predicate Leaves(v: Version, after: Version) {
    match v
    case Absent => after.Absent?
    case Present(data, synced, author) =>
      after.Present? && after.synced && after.author == author
          && (if synced then after.data == data else Torn(after.data, data))
  }

  /** A switch-root: for which intent, who wrote the enable record, and the latch as it was then. */
  datatype Dispatch = Dispatch(intent: string, writer: string, latch: Slot)

  /** A power cut can leave only what is seen. */
  predicate Settled(s: Slot) {
    |s| == 1 && (s[0].Present? ==> s[0].synced)
  }

  class Device {
    const head: string      // compiled-in lines before the intent
    const bound: bool       // the compiled-in binding passes its own checks
    const quiet: bool       // no call fails and the power stays on
    var alive: bool
    var slots: map<Path, Slot>
    var dispatched: seq<Dispatch>
    ghost var faults: nat   // calls that failed while the power was on

    /** Enable records come from arm commands: each is a possibly torn record of its writer's intent. */
    ghost predicate Recorded(s: Slot) {
      forall i :: 0 <= i < |s| && s[i].Present? ==>
          Hex64(s[i].author) && Torn(s[i].data, Format(head, s[i].author, ARMED))
    }

    /** A complete armed record for `intent`, short enough for its buffer. */
    ghost predicate ArmedFor(v: Version, intent: string) {
      && Hex64(intent) && |Format(head, intent, ARMED)| < STATE_MAX
      && v.Present? && v.data == Format(head, intent, ARMED)
    }

    /** The latch for `intent` is short enough for its buffer. */
    ghost predicate LatchFits(intent: string) {
      |Format(head, intent, DISPATCHED)| < STATE_MAX
    }

    /** The complete latch of `intent` and nothing else, for certain. */
    ghost predicate Latched(s: Slot, intent: string) {
      s == [Present(Format(head, intent, DISPATCHED), true, intent)]
    }

    /** The one dispatch for an intent: its enable record was written for it, behind its durable latch. */
    ghost function Proper(intent: string): Dispatch {
      Dispatch(intent, intent, [Present(Format(head, intent, DISPATCHED), true, intent)])
    }

    ghost predicate Valid()
      reads this`slots, this`dispatched
    {
      && Binding(head)
      && Enable in slots && Latch in slots && Recorded(slots[Enable])
      && |dispatched| <= 1
      && (dispatched != [] ==> dispatched[0] == Proper(dispatched[0].intent) && slots[Latch] == dispatched[0].latch)
    }

    constructor (head: string, bound: bool, quiet: bool)
      requires Binding(head)
      ensures Valid() && alive && dispatched == [] && this.head == head && this.bound == bound && this.quiet == quiet
      ensures slots == map[Enable := [Absent], Latch := [Absent]]
    {
      this.head, this.bound, this.quiet := head, bound, quiet;
      alive, dispatched, faults := true, [], 0;
      slots := map[Enable := [Absent], Latch := [Absent]];
    }

    /** Whether a call fails. */
    method Fails() returns (f: bool)
      modifies this`faults
      ensures (quiet ==> !f) && faults == old(faults) + if f then 1 else 0
    {
      f := Fault(quiet);
      if f {
        faults := faults + 1;
      }
    }

    // ----- power

    /** What one directory entry is like after the power went. */
    method Cut(s: Slot) returns (after: Slot)
      ensures |after| == 1 && exists i :: 0 <= i < |s| && Leaves(s[i], after[0])
      ensures Settled(s) ==> after == s
    {
      var k: int := *;
      k := if 0 <= k < |s| then k else |s| - 1;
      match s[k]
      case Absent =>
        after := [Absent];
      case Present(data, synced, author) =>
        var found: string := *;
        found := if !synced && Torn(found, data) then found else data;
        after := [Present(found, true, author)];
      assert Leaves(s[k], after[0]);
    }

    method PowerCut()
      requires Valid()
      modifies this
      ensures Valid() && !alive && dispatched == old(dispatched) && faults == old(faults)
      ensures Settled(old(slots[Enable])) ==> slots[Enable] == old(slots[Enable])
      ensures Settled(old(slots[Latch])) ==> slots[Latch] == old(slots[Latch])
    {
      var e := Cut(slots[Enable]);
      var l := Cut(slots[Latch]);
      alive := false;
      slots := map[Enable := e, Latch := l];
    }

    /** The power may go before any primitive. */
    method Tick()
      requires Valid()
      modifies this
      ensures Valid() && dispatched == old(dispatched) && faults == old(faults)
      ensures (alive ==> old(alive)) && (alive == old(alive) ==> slots == old(slots))
      ensures quiet ==> alive == old(alive)
    {
      var f := Fault(quiet);
      if f && alive {
        PowerCut();
      }
    }

    /** The next boot, after whatever ended the last one. */
    method Boot()
      requires Valid()
      modifies this
      ensures Valid() && alive && dispatched == old(dispatched) && faults == old(faults)
      ensures Settled(old(slots[Enable])) ==> slots[Enable] == old(slots[Enable])
      ensures Settled(old(slots[Latch])) ==> slots[Latch] == old(slots[Latch])
    {
      if alive {
        PowerCut();
      }
      alive := true;
    }

    // ----- file primitives

    /** lstat and the ownership checks: 0 absent, 1 a proper state file, negative otherwise. */
    method StatePath(p: Path) returns (state: int)
      requires Valid()
      modifies this
      ensures Valid() && dispatched == old(dispatched) && (alive ==> old(alive) && slots == old(slots)) && state <= 1
      ensures alive && state >= 0 ==> (state == 1 <==> Seen(slots[p]).Present?)
      ensures faults == old(faults) + if state < 0 then 1 else 0
      ensures quiet ==> alive == old(alive) && state >= 0
    {
      Tick();
      var f := Fails();
      if f {
        state := Errno();
      } else {
        state := if Seen(slots[p]).Present? then 1 else 0;
      }
    }

    /** open with O_CREAT and O_EXCL. */
    method CreateExclusive(p: Path, author: string) returns (ok: bool)
      requires Valid() && (p == Enable ==> Hex64(author))
      modifies this
      ensures Valid() && dispatched == old(dispatched) && (alive ==> old(alive))
      ensures alive && ok ==>
          Seen(old(slots[p])).Absent? && slots == old(slots)[p := old(slots[p]) + [Present("", false, author)]]
      ensures alive && !ok ==> slots == old(slots)
      ensures quiet ==> alive == old(alive) && (ok <==> Seen(old(slots[p])).Absent?)
      ensures old(faults) <= faults <= old(faults) + 1 && (ok ==> faults == old(faults))
      ensures alive && Seen(old(slots[p])).Absent? ==> (ok <==> faults == old(faults))
    {
      Tick();
      var f := Fails();
      ok := Seen(slots[p]).Absent? && !f;
      if alive && ok {
        slots := slots[p := slots[p] + [Present("", false, author)]];
      }
    }

    /** The file that a create_state call is working on, on top of what was there before. */
    ghost predicate Mine(p: Path, base: Slot, data: string, synced: bool, author: string)
      reads this
    {
      p in slots && slots[p] == base + [Present(data, synced, author)]
    }

    lemma RecordedPrefix(base: Slot, v: Version, w: Version)
      requires Recorded(base + [v])
      requires w.Present? ==> Hex64(w.author) && Torn(w.data, Format(head, w.author, ARMED))
      ensures Recorded(base + [w])
    {
      forall i | 0 <= i < |base + [w]| && (base + [w])[i].Present?
        ensures Hex64((base + [w])[i].author) && Torn((base + [w])[i].data, Format(head, (base + [w])[i].author, ARMED))
      {
        if i < |base| {
          assert (base + [w])[i] == (base + [v])[i];
        }
      }
    }

    /** Changes the content or the sync state of the file being worked on. */
    method Replace(p: Path, base: Slot, data: string, synced: bool, author: string)
      requires Valid() && alive && p in slots
      requires |slots[p]| == |base| + 1 && slots[p][..|base|] == base && Seen(slots[p]).Present?
      requires p == Enable ==> Hex64(author) && Torn(data, Format(head, author, ARMED))
      modifies this`slots
      ensures Valid() && slots == old(slots)[p := base + [Present(data, synced, author)]]
    {
      assert slots[p] == base + [Seen(slots[p])];
      if p == Enable {
        RecordedPrefix(base, Seen(slots[p]), Present(data, synced, author));
      }
      slots := slots[p := base + [Present(data, synced, author)]];
    }

    /** write_all_checked */
    method WriteAll(p: Path, base: Slot, content: string, author: string) returns (ok: bool)
      requires Valid() && (alive ==> Mine(p, base, "", false, author))
      requires p == Enable ==> Hex64(author) && content == Format(head, author, ARMED)
      modifies this
      ensures Valid() && dispatched == old(dispatched) && (alive ==> old(alive))
      ensures alive ==> exists n: nat :: n <= |content| && Mine(p, base, content[..n], false, author)
      ensures alive && ok ==> Mine(p, base, content, false, author)
      ensures alive ==> slots[Other(p)] == old(slots[Other(p)])
      ensures quiet ==> alive == old(alive) && ok
      ensures faults == old(faults) + if ok then 0 else 1
    {
      hide Binding, Hex64, Format;
      var done := 0;
      assert content[..0] == "";
      while done < |content|
        invariant 0 <= done <= |content| && Valid() && dispatched == old(dispatched)
        invariant alive ==> old(alive) && Mine(p, base, content[..done], false, author)
        invariant alive ==> slots[Other(p)] == old(slots[Other(p)])
        invariant quiet ==> alive == old(alive)
        invariant faults == old(faults)
      {
        Tick();
        var f := Fails();
        if f {
          return false;
        }
        var n: int := *;
        n := if 1 <= n <= |content| - done then n else |content| - done;
        if alive {
          Replace(p, base, content[..done + n], false, author);
        }
        done := done + n;
      }
      assert content[..done] == content;
      ok := true;
    }

    method SyncFile(p: Path, base: Slot, content: string, author: string) returns (ok: bool)
      requires Valid() && (alive ==> Mine(p, base, content, false, author))
      requires p == Enable ==> Hex64(author) && content == Format(head, author, ARMED)
      modifies this
      ensures Valid() && dispatched == old(dispatched) && (alive ==> old(alive))
      ensures alive ==> slots == old(slots)[p := base + [Present(content, ok, author)]]
      ensures quiet ==> alive == old(alive) && ok
      ensures faults == old(faults) + if ok then 0 else 1
    {
      Tick();
      ok := Fails();
      ok := !ok;
      if alive && ok {
        Replace(p, base, content, true, author);
      }
    }

    /** fsync of the directory: only the versions seen now can be left by a power cut. */
    method SyncDirectory() returns (ok: bool)
      requires Valid()
      modifies this
      ensures Valid() && dispatched == old(dispatched) && (alive ==> old(alive))
      ensures alive && ok ==> slots == map[Enable := [Seen(old(slots[Enable]))], Latch := [Seen(old(slots[Latch]))]]
      ensures alive && !ok ==> slots == old(slots)
      ensures quiet ==> alive == old(alive) && ok
      ensures faults == old(faults) + if ok then 0 else 1
    {
      Tick();
      ok := Fails();
      ok := !ok;
      if alive && ok {
        slots := map[Enable := [Seen(slots[Enable])], Latch := [Seen(slots[Latch])]];
      }
    }

    method Unlink(p: Path) returns (ok: bool)
      requires Valid() && (alive && p == Latch ==> dispatched == [])
      modifies this
      ensures Valid() && dispatched == old(dispatched) && (alive ==> old(alive))
      ensures alive ==> slots == (if ok then old(slots)[p := old(slots[p]) + [Absent]] else old(slots))
      ensures quiet ==> alive == old(alive) && ok
      ensures faults == old(faults) + if ok then 0 else 1
    {
      Tick();
      ok := Fails();
      ok := !ok;
      if alive && ok {
        slots := slots[p := slots[p] + [Absent]];
      }
    }

    // ----- the state files

    /** Removes a file that this call created; the outcome is not checked. */
    method Withdraw(p: Path)
      requires Valid() && (alive && p == Latch ==> dispatched == [])
      modifies this
      ensures Valid() && dispatched == old(dispatched) && (alive ==> old(alive))
      ensures alive ==> Seen(slots[Other(p)]) == Seen(old(slots[Other(p)]))
      ensures old(faults) <= faults && (alive && faults == old(faults) ==> slots[p] == [Absent])
    {
      var ok := Unlink(p);
      ok := SyncDirectory();
    }

    method FillState(p: Path, base: Slot, content: string, author: string) returns (ok: bool)
      requires Valid() && (alive ==> Mine(p, base, "", false, author))
      requires p == Enable ==> Hex64(author) && content == Format(head, author, ARMED)
      modifies this
      ensures Valid() && dispatched == old(dispatched) && (alive ==> old(alive))
      ensures alive && ok ==> slots[p] == [Present(content, true, author)] && |slots[Other(p)]| == 1
      ensures alive ==> Seen(slots[Other(p)]) == Seen(old(slots[Other(p)]))
      ensures quiet ==> alive == old(alive) && ok
      ensures faults == old(faults) + if ok then 0 else 1
    {
      hide Format, Torn, Binding, Hex64;
      ok := WriteAll(p, base, content, author);
      if ok {
        ok := SyncFile(p, base, content, author);
      }
      if ok {
        ok := SyncDirectory();
      }
    }

    /** a90_auto_handoff_create_state: creates, writes and syncs a file and its directory entry, or takes
        it away again. A file that was already there is not touched. */
    method CreateState(p: Path, content: string, author: string) returns (rc: int)
      requires Valid() && (p == Enable ==> Hex64(author) && content == Format(head, author, ARMED))
      modifies this
      ensures Valid() && dispatched == old(dispatched) && (alive ==> old(alive)) && rc <= 0
      ensures alive && Seen(old(slots[p])).Present? ==> rc < 0 && slots == old(slots)
      ensures alive && rc == 0 ==> slots[p] == [Present(content, true, author)] && |slots[Other(p)]| == 1
      ensures alive ==> Seen(slots[Other(p)]) == Seen(old(slots[Other(p)]))
      ensures quiet && old(alive) && Seen(old(slots[p])).Absent? ==> alive && rc == 0
      ensures old(faults) <= faults && (rc == 0 ==> faults == old(faults))
      ensures alive && Seen(old(slots[p])).Absent? && faults == old(faults) ==> rc == 0
      ensures alive && old(slots[p]) == [Absent] && faults == old(faults) + 1 ==> slots[p] == [Absent]
    {
      hide Format, Torn, Binding, Hex64;
      var base := slots[p];
      var ok := CreateExclusive(p, author);
      if !ok {
        rc := Errno();
        return;
      }
      assert alive && p == Latch ==> dispatched == [];
      ok := FillState(p, base, content, author);
      if !ok {
        Withdraw(p);
        rc := Errno();
        return;
      }
      rc := 0;
    }

    /** a90_auto_handoff_read_enable: 1 and the intent, 0 for no record, negative for anything else. */
    method ReadEnable() returns (state: int, intent: string)
      requires Valid()
      modifies this
      ensures Valid() && dispatched == old(dispatched) && (alive ==> old(alive) && slots == old(slots)) && state <= 1
      ensures alive && state == 1 ==> Seen(slots[Enable]).Present? && Hex64(intent)
                                      && intent == Seen(slots[Enable]).author
                                      && Seen(slots[Enable]).data == Format(head, intent, ARMED)
      ensures quiet ==> alive == old(alive)
      ensures forall i :: quiet && alive && ArmedFor(Seen(slots[Enable]), i) ==> state == 1 && intent == i
      ensures alive && (state == 0 || quiet) ==> (state == 0 <==> Seen(slots[Enable]).Absent?)
      ensures old(faults) <= faults && (state >= 0 ==> faults == old(faults))
      ensures quiet && alive && Seen(slots[Enable]).Present? && (forall i :: !ArmedFor(Seen(slots[Enable]), i)) ==>
                state == EINVAL
    {
      hide Format, Torn, Binding, Hex64, ReadIntent;
      intent := "";
      state := StatePath(Enable);
      if state != 1 {
        return;
      }
      var v := Seen(slots[Enable]);
      var f := Fails();
      if !v.Present? || f {
        state := Errno();
        return;
      }
      var r := ReadIntent(head, v.data);
      forall i | ArmedFor(v, i)
        ensures r == Some(i)
      {
        IntactRecord(head, i);
      }
      if r.None? {
        return EINVAL, "";
      }
      intent := r.value;
      TornRecordNamesItsWriter(head, v.data, v.author, intent);
      ReadFits(head, v.data);
      assert alive ==> ArmedFor(v, intent);
    }

    lemma ReadFits(head: string, content: string)
      ensures ReadIntent(head, content).Some? ==> |content| < STATE_MAX && Hex64(ReadIntent(head, content).value)
    {}

    lemma IntactRecord(head: string, intent: string)
      requires Binding(head) && Hex64(intent) && |Format(head, intent, ARMED)| < STATE_MAX
      ensures ReadIntent(head, Format(head, intent, ARMED)) == Some(intent)
    {
      FormatIsPlain(head, intent);
      CStringOfPlain(Format(head, intent, ARMED));
      EnableExact(head, Format(head, intent, ARMED), intent);
    }

    // ----- the commands

    /** auto-handoff-arm, after its argument count and token checks. */
    method Arm(intent: string) returns (rc: int)
      requires Valid()
      modifies this
      ensures Valid() && dispatched == old(dispatched) && (alive ==> old(alive)) && rc <= 0
      ensures alive && Seen(old(slots[Enable])).Present? ==> slots == old(slots) && rc < 0
      ensures alive && Seen(old(slots[Latch])).Present? ==> slots == old(slots) && rc < 0
      ensures alive && rc == 0 ==>
          Hex64(intent) && slots[Enable] == [Present(Format(head, intent, ARMED), true, intent)]
      ensures rc == 0 ==> |Format(head, intent, ARMED)| < STATE_MAX
      ensures quiet && old(alive) && bound && ArmedFor(Present(Format(head, intent, ARMED), true, intent), intent) ==>
                Seen(old(slots[Latch])).Absent? && Seen(old(slots[Enable])).Absent? ==> alive && rc == 0
      ensures alive && rc == 0 ==> Seen(slots[Latch]).Absent? && Settled(slots[Latch])
      ensures old(faults) <= faults && (rc == 0 ==> faults == old(faults))
      ensures alive && old(slots[Enable]) == [Absent] && faults == old(faults) + 1 ==> slots[Enable] == [Absent]
      ensures alive && (!bound || !Hex64(intent)) ==> rc == EINVAL && slots == old(slots)
      ensures quiet && old(alive) && bound && Hex64(intent) ==>
                && (Seen(old(slots[Latch])).Present? ==> rc == EALREADY)
                && (Seen(old(slots[Latch])).Absent? && Seen(old(slots[Enable])).Present? ==> rc == EEXIST)
                && (Seen(old(slots[Latch])).Absent? && Seen(old(slots[Enable])).Absent? ==>
                      |Format(head, intent, ARMED)| >= STATE_MAX ==> rc == EOVERFLOW)
      ensures quiet ==> alive == old(alive)
      ensures alive && |Format(head, intent, ARMED)| >= STATE_MAX ==> slots == old(slots)
    {
      hide Format, Torn, Binding;
      if !bound || !Hex64(intent) {
        return EINVAL;
      }
      var latch := StatePath(Latch);
      if latch != 0 {
        return if latch > 0 then EALREADY else latch;
      }
      var enable := StatePath(Enable);
      if enable != 0 {
        return if enable > 0 then EEXIST else enable;
      }
      var f := Fails();
      if f {
        rc := Errno();    // the root file system does not qualify
        return;
      }
      var content := Format(head, intent, ARMED);
      if |content| >= STATE_MAX {
        return EOVERFLOW;
      }
      rc := CreateState(Enable, content, intent);
    }

    /** Takes an enable record back, but only the one for this intent. */
    method CancelEnable(intent: string) returns (rc: int)
      requires Valid()
      modifies this
      ensures Valid() && dispatched == old(dispatched) && (alive ==> old(alive)) && rc <= 0
      ensures alive && Seen(old(slots[Enable])).Present? && Seen(old(slots[Enable])).author != intent ==>
          slots == old(slots)
      ensures alive && rc == 0 ==> slots[Enable] == [Absent]
      ensures alive ==> Seen(slots[Latch]) == Seen(old(slots[Latch]))
      ensures quiet && old(alive) && ArmedFor(Seen(old(slots[Enable])), intent) ==> alive && rc == 0
      ensures old(faults) <= faults && (rc == 0 ==> faults == old(faults))
      ensures quiet && old(alive) && Seen(old(slots[Enable])).Absent? ==> rc == ESTALE
      ensures quiet && old(alive) ==>
                forall i :: i != intent && ArmedFor(Seen(old(slots[Enable])), i) ==> rc == ESTALE
    {
      hide Format, Torn, Binding, Hex64;
      var state, observed := ReadEnable();
      if state != 1 || observed != intent {
        return if state < 0 then state else ESTALE;
      }
      var ok := Unlink(Enable);
      if !ok {
        rc := Errno();
        return;
      }
      ok := SyncDirectory();
      if !ok {
        rc := Errno();
        return;
      }
      rc := 0;
    }

    /** auto-handoff-arm-reboot: either the machine goes down, or the record is taken back. `arm` and
        `cancel` are the results of the two steps. */
    method ArmReboot(intent: string) returns (rc: int, ghost arm: int, ghost cancel: int)
      requires Valid()
      modifies this
      ensures Valid() && dispatched == old(dispatched) && (alive ==> old(alive)) && rc <= 0
      ensures alive ==> rc < 0
      ensures arm <= 0 && cancel <= 0 && (arm < 0 ==> rc == arm) && (arm == 0 && cancel < 0 ==> rc == cancel)
      ensures alive && arm == 0 && cancel == 0 ==> slots[Enable] == [Absent]
      ensures alive && arm < 0 && Seen(old(slots[Enable])).Present? ==> Seen(slots[Enable]) == Seen(old(slots[Enable]))
      ensures quiet && alive && arm == 0 ==> cancel == 0
    {
      hide Torn, Binding, Hex64;
      cancel := 0;
      rc := Arm(intent);
      arm := rc;
      if rc < 0 {
        return;
      }
      var refused: bool := *;
      if !refused && alive {
        PowerCut();
      }
      rc := CancelEnable(intent);
      cancel := rc;
      if rc == 0 {
        rc := Errno();
      }
    }

    /** switch_root itself, with the record and the latch as they are at that moment. */
    method SwitchRoot(intent: string)
      requires Valid()
      requires alive ==> dispatched == [] && Latched(slots[Latch], intent) && Seen(slots[Enable]).Present?
                         && Seen(slots[Enable]).author == intent
      modifies this
      ensures Valid() && (alive ==> old(alive) && slots == old(slots)) && faults == old(faults)
      ensures dispatched == if alive then old(dispatched) + [Proper(intent)] else old(dispatched)
      ensures quiet ==> alive == old(alive)
    {
      Tick();
      if alive {
        dispatched := dispatched + [Dispatch(intent, Seen(slots[Enable]).author, slots[Latch])];
      }
    }

    /** a90_auto_handoff_run_once, called on every boot. */
    method RunOnce() returns (rc: int)
      requires Valid()
      modifies this
      ensures Valid() && old(dispatched) <= dispatched && (alive ==> old(alive))
      ensures alive && Seen(old(slots[Latch])).Present? ==> dispatched == old(dispatched) && slots == old(slots)
      ensures alive && Seen(old(slots[Enable])).Absent? ==> dispatched == old(dispatched) && slots == old(slots)
      ensures quiet && old(alive) && bound && Seen(old(slots[Latch])).Absent? ==>
                forall i :: ArmedFor(Seen(old(slots[Enable])), i) ==>
                  dispatched == if LatchFits(i) then [Proper(i)] else []
      ensures alive ==> Seen(slots[Enable]) == Seen(old(slots[Enable])) && (!bound ==> rc == EINVAL)
      ensures (rc < 0 || rc == 1 || rc == 2) && (rc > 0 ==> faults == old(faults))
      ensures alive && rc == 1 ==> Seen(old(slots[Latch])).Present?
      ensures alive && rc == 2 ==> Seen(old(slots[Latch])).Absent? && Seen(old(slots[Enable])).Absent?
      ensures quiet && old(alive) && bound ==>
                && (rc == 1 <==> Seen(old(slots[Latch])).Present?)
                && (rc == 2 <==> Seen(old(slots[Latch])).Absent? && Seen(old(slots[Enable])).Absent?)
                && (Seen(old(slots[Latch])).Absent? ==>
                      && (forall i :: ArmedFor(Seen(old(slots[Enable])), i) && !LatchFits(i) ==> rc == EOVERFLOW)
                      && (Seen(old(slots[Enable])).Present? && (forall i :: !ArmedFor(Seen(old(slots[Enable])), i)) ==>
                            rc == EINVAL))
                && (dispatched == old(dispatched) ==> slots == old(slots))
      ensures alive && dispatched != old(dispatched) ==>
                slots[Enable] == [Seen(old(slots[Enable]))] && faults == old(faults)
      ensures quiet ==> alive == old(alive)
    {
      hide Format, Torn, Binding, Hex64;
      if !bound {
        return EINVAL;
      }
      var latch := StatePath(Latch);
      if latch != 0 {
        return latch;    // latched: stay native; or the latch cannot be inspected
      }
      var enable, intent := ReadEnable();
      if enable != 1 {
        return if enable == 0 then 2 else enable;
      }
      var f := Fails();
      if f {
        rc := Errno();    // the root file system does not qualify
        return;
      }
      var content := Format(head, intent, DISPATCHED);
      if |content| >= STATE_MAX {
        return EOVERFLOW;
      }
      rc := CreateState(Latch, content, intent);
      if rc < 0 {
        return;
      }
      SwitchRoot(intent);
      rc := Errno();
    }

    /** An arm command that succeeded survives the power cut after it: the next boot dispatches for its
        intent, unless the latch for it does not fit. */
    method ArmThenBoot(intent: string)
      requires Valid() && alive && quiet && bound && dispatched == []
      requires slots == map[Enable := [Absent], Latch := [Absent]]
      requires ArmedFor(Present(Format(head, intent, ARMED), true, intent), intent)
      modifies this
      ensures dispatched == if LatchFits(intent) then [Proper(intent)] else []
    {
      hide Format, Torn, Binding, Hex64;
      var rc := Arm(intent);
      Boot();
      rc := RunOnce();
    }

    /** The state of a device on which nothing has failed yet. */
    ghost predicate Leads(l: Life)
      reads this
    {
      && alive && Enable in slots && slots[Enable] == [Written(l.armed, ARMED)]
      && Latch in slots && slots[Latch] == [Written(l.gone, DISPATCHED)]
      && dispatched == if l.gone.Some? then [Proper(l.gone.value)] else []
    }

    ghost function Written(intent: Option<string>, state: string): Version {
      if intent.None? then Absent else Present(Format(head, intent.value, state), true, intent.value)
    }

    /** What a boot, a run or an arm command makes of it. */
    ghost function Next(l: Life, a: Action): Life {
      if a.ArmWith? && l == Life(None, None) && Hex64(a.intent) && |Format(head, a.intent, ARMED)| < STATE_MAX
      then Life(Some(a.intent), None)
      else if a.AutoRun? && l.armed.Some? && l.gone.None? && LatchFits(l.armed.value) then Life(l.armed, l.armed)
      else l
    }

    ghost function Led(actions: seq<Action>): Life {
      if actions == [] then Life(None, None) else Next(Led(actions[..|actions| - 1]), actions[|actions| - 1])
    }

    /** One of the things that can happen. */
    method Act(a: Action, ghost l: Life)
      requires Valid() && (l.armed.Some? ==> Hex64(l.armed.value) && |Format(head, l.armed.value, ARMED)| < STATE_MAX)
      requires l.gone.Some? ==> l.armed.Some?
      modifies this
      ensures Valid()
      ensures quiet && bound && old(Leads(l)) && (a.Reboot? || a.AutoRun? || a.ArmWith?) ==> Leads(Next(l, a))
    {
      hide Format, Binding, Hex64;
      var rc;
      match a
      case Reboot => Boot();
      case AutoRun =>
        assert Leads(l) && l.armed.Some? ==> ArmedFor(Seen(slots[Enable]), l.armed.value);
        rc := RunOnce();
      case ArmWith(intent) =>
        assert Hex64(intent) && |Format(head, intent, ARMED)| < STATE_MAX ==>
            ArmedFor(Present(Format(head, intent, ARMED), true, intent), intent);
        rc := Arm(intent);
      case ArmAndReboot(intent) =>
        ghost var arm, cancel;
        rc, arm, cancel := ArmReboot(intent);
      case LosePower =>
        if alive {
          PowerCut();
        }
    }

    /** Any life of the device: boots, runs, arm commands and power cuts in any order. If it starts afresh and
        nothing ever fails, exactly what the sequence of commands calls for is dispatched. */
    method Lifetime(actions: seq<Action>)
      requires Valid() && dispatched == []
      modifies this
      ensures |dispatched| <= 1
      ensures dispatched != [] ==> dispatched == [Proper(dispatched[0].intent)]
      ensures Latch in slots && (dispatched != [] ==> Latched(slots[Latch], dispatched[0].intent))
      ensures quiet && bound && old(Leads(Life(None, None))) && Plain(actions) ==> Leads(Led(actions))
    {
      hide Leads, Next, Format, Binding, Hex64;
      ghost var afresh := quiet && bound && Leads(Life(None, None));
      for k := 0 to |actions|
        invariant Valid()
        invariant afresh && Plain(actions[..k]) ==> Leads(Led(actions[..k]))
      {
        ghost var front := actions[..k];
        assert actions[..k + 1] == front + [actions[k]] && actions[..k + 1][..k] == front;
        assert Plain(actions[..k + 1]) ==> Plain(front) && Plain([actions[k]]);
        LedArms(front);
        Act(actions[k], Led(front));
      }
      assert actions[..|actions|] == actions;
    }

    lemma {:induction false} LedArms(actions: seq<Action>)
      ensures var l := Led(actions);
              && (l.armed.Some? ==> Hex64(l.armed.value) && |Format(head, l.armed.value, ARMED)| < STATE_MAX)
              && (l.gone.Some? ==> l.armed.Some?)
    {
      hide Format, Hex64;
      if actions != [] {
        LedArms(actions[..|actions| - 1]);
      }
    }
  }

  datatype Life = Life(armed: Option<string>, gone: Option<string>)

  /** Boots, runs and arm commands only. */
  predicate Plain(actions: seq<Action>) {
    forall i :: 0 <= i < |actions| ==> actions[i].Reboot? || actions[i].AutoRun? || actions[i].ArmWith?
  }

  datatype Action = Reboot | AutoRun | ArmWith(intent: string) | ArmAndReboot(intent: string) | LosePower
}
