/** The flash commands as a whole, and sessions of them. */
module FlashCommands {
  import opened Common
  import opened Bits
  import opened MarkerScan
  import opened TargetPlan
  import opened BootHeader
  import opened FlashDevice
  import opened Flash

  /** What a command that got as far as writing promises about the snapshot it leaves behind. */
  ghost predicate Kept(d: Device, rung: Rung, orig: seq<Byte>)
    reads d`files
  {
    d.Backed(d.files, Snapshot(rung), orig)
  }

  /** Some state since the command started would not survive a power cut. */
  ghost predicate Exposed(d: Device, trail: seq<Disk>)
    reads d`run
  {
    exists i :: d.run.from <= i < |trail| && !d.PowerGuarded(trail[i])
  }

  lemma ExposedStill(d: Device, trail: seq<Disk>, more: seq<Disk>)
    requires Exposed(d, trail) && trail <= more
    ensures Exposed(d, more)
  {
    var i :| d.run.from <= i < |trail| && !d.PowerGuarded(trail[i]);
    assert more[i] == trail[i];
  }

  lemma SyncedNotExposed(d: Device)
    requires d.Safe() && d.dirSyncs
    ensures !Exposed(d, d.trail)
  {
    forall i | d.run.from <= i < |d.trail|
      ensures d.PowerGuarded(d.trail[i])
    {
      assert d.StepSafe(d.trail[i]);
    }
  }

  /** The final return code: a failed restore outweighs a failed target write. */
  function Combined(targetRc: int, restoreRc: int): int {
    if restoreRc != 0 then restoreRc else targetRc
  }

  /** Removes the temporary file; a failure is ignored. */
  method Sweep(d: Device, rung: Rung)
    requires d.Valid() && d.Safe() && d.run.rung == rung && Retains(d.Now(), d.run.start) && d.StepSafe(d.Now())
    modifies d`files, d`trail
    ensures d.Valid() && d.Safe() && old(d.trail) <= d.trail && Retains(d.Now(), d.run.start) && d.StepSafe(d.Now())
    ensures SameSnapshots(d.files, old(d.files)) && (d.PowerGuarded(d.Now()) <==> old(d.PowerGuarded(d.Now())))
    ensures d.quiet ==> Temp(rung) !in d.files
    ensures var n := Snapshot(rung);
            (n in d.files <==> n in old(d.files)) && (n in d.files ==> d.files[n] == old(d.files)[n])
  {
    hide SameSnapshots, Retains, OnlyOwn;
    ghost var before := d.Now();
    d.SweepTemp(rung);
    TempChanged(before, d.Now(), d.run.start, rung);
    SnapshotStays(before.files, d.files, Snapshot(rung));
  }

  lemma SnapshotStays(files: map<Name, seq<Byte>>, files': map<Name, seq<Byte>>, n: Name)
    requires SameSnapshots(files', files) && n.Snapshot?
    ensures (n in files' <==> n in files) && (n in files ==> files'[n] == files[n])
  {}

  /** The paired round trip: target written and verified, then the original written and verified. */
  method RoundTrip(d: Device, req: Request, before: string, target: string) returns (o: Outcome)
    requires Untouched(d) && d.run.rung == F1 && Acceptable(d, d.boot, req)
    requires before == d.sha(d.boot) && target == d.sha(TargetImage(d.boot, req.candidate))
    modifies d`boot, d`files, d`saved, d`trail, d`writes, d`readbacks, d`faults, d`opens
    ensures d.Valid() && d.Safe() && old(d.trail) <= d.trail && Retains(d.Now(), d.run.start) && d.StepSafe(d.Now())
    ensures o.rc <= 0 && (o.rc == 0 <==> o.started && o.targetRc == 0 && o.restoreRc == 0)
    ensures o.started == o.restoreAttempted && (o.started ==> Armed(d, F1))
    ensures Snapshot(F1) in d.run.start.files ==> !o.started && o.rc == EEXIST
    ensures !o.started ==> d.boot == d.run.start.boot && d.writes == old(d.writes)
    ensures o.started && o.restoreRc == 0 ==> d.sha(d.boot) == before && (d.faithful ==> d.boot == d.run.start.boot)
    ensures o.rc == 0 ==> d.readbacks == old(d.readbacks) + [target, before]
    ensures old(d.faults) <= d.faults && (d.quiet || o.rc == 0 ==> d.faults == old(d.faults))
    ensures o.started <==> d.opens > old(d.opens)
    ensures d.faults == old(d.faults) && Snapshot(F1) !in d.run.start.files ==>
              o.rc == 0 || (!d.faithful && o.rc == EIO)
    ensures o.started ==> o.rc == Combined(o.targetRc, o.restoreRc)
    ensures o.rc == 0 && d.faithful && F1 !in d.run.start.saved && !d.dirSyncs ==> Exposed(d, d.trail)
  {
    hide TargetImage, Occurs, ParseHeader, Retains;
    var rc := SecureSnapshot(d, F1, before);
    if rc != 0 {
      return Outcome(rc, false, 0, false, 0);
    }
    var started, targetRc := WriteTarget(d, F1, req.candidate, target);
    ghost var last := |d.trail| - 1;
    assert targetRc == 0 && d.faithful && F1 !in d.run.start.saved && !d.dirSyncs ==> !d.PowerGuarded(d.trail[last]);
    var restoreRc := 0;
    if started {
      restoreRc := RestoreOriginal(d, F1, before);
    }
    o := Outcome(Combined(targetRc, restoreRc), started, targetRc, started, restoreRc);
  }

  /** What a command returns if no call fails that it has to report. */
  ghost function ExitCode(d: Device, start: Disk, rung: Rung, req: Request): int {
    if !req.accepted then EPERM
    else if !Acceptable(d, start.boot, req) then Refusal(d, start.boot, req)
    else if Snapshot(rung) in start.files then EEXIST
    else 0
  }

  method FlashF1(d: Device, req: Request) returns (o: Outcome)
    requires d.Valid()
    modifies d
    ensures d.Valid() && d.run == Run(F1, old(d.Now()), |old(d.trail)|) && d.Safe() && old(d.trail) <= d.trail
    ensures d.StepSafe(d.Now()) && Retains(d.Now(), old(d.Now())) && OnlyOwn(d.Now(), old(d.Now()), F1)
    ensures !req.accepted ==> d.Now() == old(d.Now()) && d.trail == old(d.trail)
    ensures d.quiet && req.accepted ==> Temp(F1) !in d.files
    ensures d.quiet && o.rc == 0 ==>
              Snapshot(F1) !in d.files && d.files == old(d.files) - {Temp(F1)} && d.saved == old(d.saved) - {F1}
    ensures o.rc == 0 ==> o.started && o.restoreRc == 0
    ensures o.rc == 0 ==> Acceptable(d, old(d.boot), req)
                          && d.readbacks == old(d.readbacks) + [d.sha(old(d.boot)),
                                                                d.sha(TargetImage(old(d.boot), req.candidate)),
                                                                d.sha(old(d.boot))]
    ensures o.started <==> o.restoreAttempted
    ensures Snapshot(F1) in old(d.files) ==> !o.started && o.rc < 0
    ensures o.started <==> d.opens > old(d.opens)
    ensures o.started && o.restoreRc == 0 ==>
        d.sha(d.boot) == d.sha(old(d.boot)) && (d.faithful ==> d.boot == old(d.boot))
    ensures !o.started ==> d.boot == old(d.boot) && d.writes == old(d.writes)
    ensures o.started && o.rc != 0 ==> Kept(d, F1, old(d.boot))
    ensures d.quiet || o.rc == 0 ==> d.faults == old(d.faults)
    ensures d.faults == old(d.faults) ==>
              var code := ExitCode(d, old(d.Now()), F1, req);
              o.rc == code || (code == 0 && !d.faithful && o.rc == EIO)
    ensures o.started ==> o.rc == Combined(o.targetRc, o.restoreRc)
    ensures o.rc == 0 && d.faithful && F1 !in old(d.saved) ==> (Exposed(d, d.trail) <==> !d.dirSyncs)
  {
    hide TargetImage, Occurs, ParseHeader, Retains, OnlyOwn, Acceptable, SameSnapshots, Untouched, Armed, Exposed;
    d.run := Run(F1, d.Now(), |d.trail|);
    RetainsItself(d.Now(), F1);
    StartsUntouched(d);
    var p := Preflight(d, req);
    if p.Refused? {
      return Outcome(p.rc, false, 0, false, 0);
    }
    if p.Stopped? {
      o := Outcome(p.rc, false, 0, false, 0);
    } else {
      o := RoundTrip(d, req, p.before, p.target);
    }
    if o.started {
      ArmedSnapshot(d, F1);
    }
    ghost var trail := d.trail;
    ReportF1(d, o.rc == 0);
    if d.quiet && o.rc == 0 {
      LeftClean(d.Now(), d.run.start);
    }
    if d.dirSyncs {
      SyncedNotExposed(d);
    } else if Exposed(d, trail) {
      ExposedStill(d, trail, d.trail);
    }
  }

  /** What a command that succeeded leaves in the directory, if nothing failed. */
  lemma LeftClean(d: Disk, start: Disk)
    requires OnlyOwn(d, start, F1) && Snapshot(F1) !in start.files
    requires Snapshot(F1) !in d.files && Temp(F1) !in d.files && F1 !in d.saved
    ensures d.files == start.files - {Temp(F1)} && d.saved == start.saved - {F1}
  {
    assert d.saved == d.saved - {F1};
  }

  /** F1 gives back all that it needs: without faults it can be repeated any number of times. */
  method FlashF1Repeatedly(d: Device, req: Request, times: nat) returns (codes: seq<int>)
    requires d.Valid() && d.quiet && d.faithful && req.accepted && Acceptable(d, d.boot, req)
    requires Snapshot(F1) !in d.files
    modifies d
    ensures d.Valid() && d.boot == old(d.boot) && |codes| == times && forall k :: 0 <= k < times ==> codes[k] == 0
    ensures times > 0 ==> d.files == old(d.files) - {Temp(F1)} && d.saved == old(d.saved) - {F1}
    ensures |d.readbacks| == |old(d.readbacks)| + 3 * times
  {
    hide Acceptable;
    codes := [];
    for k := 0 to times
      invariant d.Valid() && d.boot == old(d.boot) && Snapshot(F1) !in d.files
      invariant |codes| == k && forall i :: 0 <= i < k ==> codes[i] == 0
      invariant k == 0 ==> d.files == old(d.files) && d.saved == old(d.saved)
      invariant k > 0 ==> d.files == old(d.files) - {Temp(F1)} && d.saved == old(d.saved) - {F1}
      invariant |d.readbacks| == |old(d.readbacks)| + 3 * k
    {
      var o := FlashF1(d, req);
      codes := codes + [o.rc];
    }
  }

  /** Removes the temporary file and, after a success, the snapshot. */
  method ReportF1(d: Device, done: bool)
    requires d.Valid() && d.Safe() && d.run.rung == F1 && Retains(d.Now(), d.run.start) && d.StepSafe(d.Now())
    requires done ==> Snapshot(F1) !in d.run.start.files
                      && d.sha(d.boot) == d.sha(d.run.start.boot) && (d.faithful ==> d.boot == d.run.start.boot)
    modifies d`files, d`saved, d`trail
    ensures d.Valid() && d.Safe() && old(d.trail) <= d.trail && Retains(d.Now(), d.run.start) && d.StepSafe(d.Now())
    ensures OnlyOwn(d.Now(), d.run.start, F1)
    ensures !done ==> SameSnapshots(d.files, old(d.files)) && d.saved == old(d.saved)
    ensures d.quiet ==> Temp(F1) !in d.files && (done ==> Snapshot(F1) !in d.files && F1 !in d.saved)
    ensures var n := Snapshot(F1);
            !done ==> (n in d.files <==> n in old(d.files)) && (n in d.files ==> d.files[n] == old(d.files)[n])
  {
    hide Retains, OnlyOwn;
    Sweep(d, F1);
    if done {
      ghost var before := d.Now();
      var ok := d.UnlinkSnapshot(F1);
      if ok {
        SnapshotDropped(before, d.Now(), d.run.start);
      }
    }
  }

  lemma SnapshotDropped(d: Disk, after: Disk, start: Disk)
    requires Retains(d, start) && OnlyOwn(d, start, F1) && Snapshot(F1) !in start.files
    requires after.files == d.files - {Snapshot(F1)} && after.saved == d.saved - {F1}
    ensures Retains(after, start) && OnlyOwn(after, start, F1)
  {
    assert after.saved - {F1} == d.saved - {F1};
  }

  lemma StartsUntouched(d: Device)
    requires d.Valid() && d.run.start == d.Now() && d.run.from == |d.trail|
    ensures Untouched(d)
  {}

  lemma RetainsItself(d: Disk, rung: Rung)
    ensures Retains(d, d) && OnlyOwn(d, d, rung) && SameSnapshots(d.files, d.files)
  {}

  /** Target written and verified; the original only after a failure. */
  method WriteAndLeave(d: Device, rung: Rung, req: Request, before: string, target: string) returns (o: Outcome)
    requires Untouched(d) && d.run.rung == rung && Acceptable(d, d.boot, req)
    requires before == d.sha(d.boot) && target == d.sha(TargetImage(d.boot, req.candidate))
    modifies d`boot, d`files, d`saved, d`trail, d`writes, d`readbacks, d`faults, d`opens
    ensures d.Valid() && d.Safe() && old(d.trail) <= d.trail && Retains(d.Now(), d.run.start) && d.StepSafe(d.Now())
    ensures o.rc <= 0 && (o.rc == 0 <==> o.started && o.targetRc == 0)
    ensures o.restoreAttempted == (o.started && o.targetRc != 0) && (o.started ==> Armed(d, rung))
    ensures Snapshot(rung) in d.run.start.files ==> !o.started && o.rc == EEXIST
    ensures !o.started ==> d.boot == d.run.start.boot && d.writes == old(d.writes)
    ensures o.rc == 0 ==> d.sha(d.boot) == target && d.readbacks == old(d.readbacks) + [target]
                          && (d.faithful ==> d.boot == TargetImage(d.run.start.boot, req.candidate))
    ensures o.restoreAttempted && o.restoreRc == 0 ==>
        d.sha(d.boot) == before && (d.faithful ==> d.boot == d.run.start.boot)
    ensures old(d.faults) <= d.faults && (d.quiet || o.rc == 0 ==> d.faults == old(d.faults))
    ensures o.started <==> d.opens > old(d.opens)
    ensures d.faults == old(d.faults) && Snapshot(rung) !in d.run.start.files ==>
              o.rc == 0 || (!d.faithful && o.rc == EIO)
    ensures o.started ==> o.rc == Combined(o.targetRc, o.restoreRc)
    ensures o.rc == 0 && d.faithful && rung !in d.run.start.saved ==> (d.PowerGuarded(d.Now()) <==> d.dirSyncs)
  {
    hide TargetImage, Occurs, ParseHeader;
    var rc := SecureSnapshot(d, rung, before);
    if rc != 0 {
      return Outcome(rc, false, 0, false, 0);
    }
    var started, targetRc := WriteTarget(d, rung, req.candidate, target);
    var restoreRc := 0;
    if started && targetRc != 0 {
      restoreRc := RestoreOriginal(d, rung, before);
    }
    o := Outcome(Combined(targetRc, restoreRc), started, targetRc, started && targetRc != 0, restoreRc);
  }

  method FlashLeave(d: Device, rung: Rung, req: Request) returns (o: Outcome)
    requires d.Valid() && rung != F1
    modifies d
    ensures d.Valid() && d.run == Run(rung, old(d.Now()), |old(d.trail)|) && d.Safe() && old(d.trail) <= d.trail
    ensures d.StepSafe(d.Now()) && Retains(d.Now(), old(d.Now())) && OnlyOwn(d.Now(), old(d.Now()), rung)
    ensures !req.accepted ==> d.Now() == old(d.Now()) && d.trail == old(d.trail)
    ensures d.quiet && req.accepted ==> Temp(rung) !in d.files
    ensures o.rc == 0 ==>
        Acceptable(d, old(d.boot), req) && d.sha(d.boot) == d.sha(TargetImage(old(d.boot), req.candidate))
                          && d.readbacks == old(d.readbacks) + [d.sha(old(d.boot)), d.sha(d.boot)]
                          && (d.faithful ==> d.boot == TargetImage(old(d.boot), req.candidate))
    ensures o.rc == 0 ==> o.started && !o.restoreAttempted
    ensures o.restoreAttempted <==> o.started && o.targetRc != 0
    ensures Snapshot(rung) in old(d.files) ==> !o.started && o.rc < 0
    ensures o.started <==> d.opens > old(d.opens)
    ensures o.restoreAttempted && o.restoreRc == 0 ==>
              d.sha(d.boot) == d.sha(old(d.boot)) && (d.faithful ==> d.boot == old(d.boot))
    ensures !o.started ==> d.boot == old(d.boot) && d.writes == old(d.writes)
    ensures o.started ==> Kept(d, rung, old(d.boot))
    ensures o.started && d.dirSyncs ==> rung in d.saved && d.saved[rung] == d.files[Snapshot(rung)]
    ensures d.quiet || o.rc == 0 ==> d.faults == old(d.faults)
    ensures d.faults == old(d.faults) ==>
              var code := ExitCode(d, old(d.Now()), rung, req);
              o.rc == code || (code == 0 && !d.faithful && o.rc == EIO)
    ensures o.started ==> o.rc == Combined(o.targetRc, o.restoreRc)
    ensures o.rc == 0 && d.faithful && rung !in old(d.saved) ==> (d.PowerGuarded(d.Now()) <==> d.dirSyncs)
  {
    hide TargetImage, Occurs, ParseHeader, Retains, OnlyOwn, Acceptable, SameSnapshots;
    d.run := Run(rung, d.Now(), |d.trail|);
    RetainsItself(d.Now(), rung);
    var p := Preflight(d, req);
    if p.Refused? {
      return Outcome(p.rc, false, 0, false, 0);
    }
    if p.Stopped? {
      o := Outcome(p.rc, false, 0, false, 0);
    } else {
      o := WriteAndLeave(d, rung, req, p.before, p.target);
    }
    Sweep(d, rung);
  }

  /** A command of a session, and after how many of its steps the power fails, if it does; a number that it
      does not reach stands for a cut before the next command. */
  datatype Command = Command(rung: Rung, request: Request, cut: Option<nat>)

  predicate Uncut(commands: seq<Command>) {
    forall c :: c in commands ==> c.cut.None?
  }

  /** What a session keeps in every state: the saved snapshots, and without power cuts all of them. */
  predicate Holds(d: Disk, start: Disk, uncut: bool) {
    Survives(d, start) && (uncut ==> Retains(d, start))
  }

  ghost predicate HoldThrough(trail: seq<Disk>, from: nat, start: Disk, uncut: bool) {
    forall i :: from <= i < |trail| ==> Holds(trail[i], start, uncut)
  }

  lemma HoldsOn(d: Disk, now: Disk, start: Disk, uncut: bool, before: bool)
    requires Holds(d, now, uncut) && Holds(now, start, before)
    ensures Holds(d, start, uncut && before)
  {}

  /** The original content is on the partition or in the snapshot file. */
  ghost predicate Recoverable(d: Device, rung: Rung, orig: seq<Byte>, after: Disk) {
    || (d.sha(after.boot) == d.sha(orig) && (d.faithful ==> after.boot == orig))
    || d.Backed(after.files, Snapshot(rung), orig)
  }

  /** What a command makes of the disk: cut off, it leaves a way back if the directory sync works; otherwise it
      touches its own files only, and the partition as its outcome says. */
  ghost predicate Stepped(d: Device, c: Command, before: Disk, after: Disk, o: Outcome) {
    if c.cut.Some? then Synced(after) && (d.dirSyncs ==> Recoverable(d, c.rung, before.boot, after))
    else
      && OnlyOwn(after, before, c.rung) && Recoverable(d, c.rung, before.boot, after)
      && (!o.started ==> after.boot == before.boot)
      && (o.rc == 0 ==>
            && o.started && |c.request.candidate| <= |before.boot|
            && d.sha(after.boot) ==
               d.sha(if c.rung == F1 then before.boot else TargetImage(before.boot, c.request.candidate)))
      && (o.started && o.restoreAttempted && o.restoreRc == 0 ==> d.sha(after.boot) == d.sha(before.boot))
  }

  /** One command, which runs to its end or up to a power cut. */
  method Attempt(d: Device, c: Command) returns (o: Outcome)
    requires d.Valid()
    modifies d
    ensures d.Valid() && old(d.trail) <= d.trail && Holds(d.Now(), old(d.Now()), c.cut.None?)
    ensures HoldThrough(d.trail, |old(d.trail)|, old(d.Now()), c.cut.None?)
    ensures Stepped(d, c, old(d.Now()), d.Now(), o)
  {
    hide Acceptable, TargetImage, Occurs, ParseHeader, Retains, Survives, OnlyOwn;
    ghost var start, from := d.Now(), |d.trail|;
    var steps := |d.trail|;
    if c.rung == F1 {
      o := FlashF1(d, c.request);
    } else {
      o := FlashLeave(d, c.rung, c.request);
    }
    ghost var trail, end := d.trail, d.Now();
    AcceptableFits(d, start.boot, c.request);
    StepsHold(d);
    RetainsHolds(end, start);
    if c.cut.Some? {
      var n := steps + c.cut.value;
      ghost var at := if n < |trail| then trail[n] else end;
      assert d.StepSafe(at);
      d.PowerCut(n);
      CutHolds(at, d.Now(), start);
      if d.dirSyncs {
        CutRecoverable(d, at, d.Now());
      }
    }
  }

  lemma AcceptableFits(d: Device, boot: seq<Byte>, req: Request)
    ensures Acceptable(d, boot, req) ==> |req.candidate| <= |boot|
  {}

  lemma CutRecoverable(d: Device, at: Disk, after: Disk)
    requires d.PowerGuarded(at) && AfterCut(at, after)
    ensures Recoverable(d, d.run.rung, d.run.start.boot, after)
  {}

  lemma StepsHold(d: Device)
    requires d.Safe()
    ensures HoldThrough(d.trail, d.run.from, d.run.start, true)
  {
    forall i | d.run.from <= i < |d.trail|
      ensures Holds(d.trail[i], d.run.start, true)
    {
      assert d.StepSafe(d.trail[i]);
    }
  }

  lemma RetainsHolds(d: Disk, start: Disk)
    requires Retains(d, start)
    ensures Holds(d, start, true)
  {}

  lemma CutHolds(at: Disk, after: Disk, start: Disk)
    requires Holds(at, start, true) && AfterCut(at, after)
    ensures Holds(after, start, false)
  {}

  /** Over any sequence of flash commands with any power cuts between and inside them, a snapshot that has been
      saved is never lost or overwritten, in any state of the session; without cuts, no snapshot is. `states` are
      the disk before each command and at the end. */
  method Session(d: Device, commands: seq<Command>) returns (outcomes: seq<Outcome>, ghost states: seq<Disk>)
    requires d.Valid()
    modifies d
    ensures d.Valid() && old(d.trail) <= d.trail && Holds(d.Now(), old(d.Now()), Uncut(commands))
    ensures HoldThrough(d.trail, |old(d.trail)|, old(d.Now()), Uncut(commands))
    ensures |outcomes| == |commands| && |states| == |commands| + 1
    ensures states[0] == old(d.Now()) && states[|commands|] == d.Now()
    ensures forall k :: 0 <= k < |commands| ==> Stepped(d, commands[k], states[k], states[k + 1], outcomes[k])
  {
    hide Holds, Stepped;
    ghost var start, from := d.Now(), |d.trail|;
    outcomes, states := [], [start];
    RetainsItself(start, F1);
    RetainsHolds(start, start);
    for k := 0 to |commands|
      invariant d.Valid() && old(d.trail) <= d.trail && Holds(d.Now(), start, Uncut(commands[..k]))
      invariant HoldThrough(d.trail, from, start, Uncut(commands[..k]))
      invariant |outcomes| == k && |states| == k + 1 && states[0] == start && states[k] == d.Now()
      invariant forall i :: 0 <= i < k ==> Stepped(d, commands[i], states[i], states[i + 1], outcomes[i])
    {
      ghost var now, trail := d.Now(), d.trail;
      var o := Attempt(d, commands[k]);
      outcomes, states := outcomes + [o], states + [d.Now()];
      assert commands[..k + 1] == commands[..k] + [commands[k]];
      assert Uncut(commands[..k + 1]) == (Uncut(commands[..k]) && commands[k].cut.None?);
      HoldsOn(d.Now(), now, start, commands[k].cut.None?, Uncut(commands[..k]));
      HoldOn(trail, d.trail, from, now, start, commands[k].cut.None?, Uncut(commands[..k]));
    }
    assert commands[..|commands|] == commands;
  }

  lemma HoldOn(trail: seq<Disk>, more: seq<Disk>, from: nat, now: Disk, start: Disk, uncut: bool, before: bool)
    requires trail <= more && from <= |trail| && HoldThrough(trail, from, start, before)
    requires HoldThrough(more, |trail|, now, uncut) && Holds(now, start, before)
    ensures HoldThrough(more, from, start, uncut && before)
  {
    forall i | from <= i < |more|
      ensures Holds(more[i], start, uncut && before)
    {
      if i < |trail| {
        assert more[i] == trail[i] && Holds(trail[i], start, before);
      } else {
        HoldsOn(more[i], now, start, uncut, before);
      }
    }
  }
}
