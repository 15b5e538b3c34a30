/** The flash ladder: a paired round trip (F1) and two runs that leave the target in place (F2, F3).
    Each one captures and re-reads a snapshot before its first partition write. */
module Flash {
  import opened Common
  import opened Bits
  import opened MarkerScan
  import opened TargetPlan
  import opened BootHeader
  import opened FlashDevice

  /** `accepted`: token, staging path, digest syntax and marker length have passed their checks. */
  datatype Request = Request(accepted: bool, candidate: seq<Byte>, expectedSha: string, marker: seq<Byte>)

  datatype Preflighted = Refused(rc: int) | Stopped(rc: int) | Ready(before: string, target: string)

  datatype Outcome = Outcome(rc: int, started: bool, targetRc: int, restoreAttempted: bool, restoreRc: int)

  /** What a candidate has to be before anything is written for it. */
  ghost predicate Acceptable(d: Device, boot: seq<Byte>, req: Request) {
    && SECTOR <= |req.candidate| <= |boot|
    && ParseHeader(boot[..SECTOR]).Header?
    && ParseHeader(req.candidate[..SECTOR]).Header?
    && ParseHeader(req.candidate[..SECTOR]).usedLen <= |req.candidate|
    && d.sha(req.candidate) == req.expectedSha
    && 0 < |req.marker| <= MAX_MARKER && Occurs(req.marker, req.candidate)
    && TargetImage(boot, req.candidate) != boot
  }

  method CheckHeader(d: Device, image: seq<Byte>) returns (rc: int, usedLen: nat)
    modifies d`faults
    ensures rc <= 0 && old(d.faults) <= d.faults && (d.quiet ==> d.faults == old(d.faults))
    ensures rc == 0 ==> |image| >= SECTOR && ParseHeader(image[..SECTOR]) == Header.Header(usedLen)
    ensures rc == 0 ==> d.faults == old(d.faults)
    ensures d.faults == old(d.faults) ==>
              rc == if |image| < SECTOR then EIO else if ParseHeader(image[..SECTOR]).Header? then 0 else EINVAL
  {
    usedLen := 0;
    var f := d.Fails();
    if f || |image| < SECTOR {
      return EIO, 0;
    }
    match ParseHeader(image[..SECTOR])
    case Header(n) => rc, usedLen := 0, n;
    case _ => rc := EINVAL;
  }

  /** The error for a candidate that is not acceptable, when no call fails: that of the first test it does not
      pass. */
  ghost function Refusal(d: Device, boot: seq<Byte>, req: Request): (rc: int)
    ensures rc <= 0 && (rc == 0 <==> Acceptable(d, boot, req))
  {
    if |boot| < SECTOR then EIO
    else if !ParseHeader(boot[..SECTOR]).Header? then EINVAL
    else CandidateRefusal(d, boot, req)
  }

  ghost function CandidateRefusal(d: Device, boot: seq<Byte>, req: Request): int
  {
    var c := req.candidate;
    if |c| < SECTOR || |c| > |boot| then EINVAL
    else if !ParseHeader(c[..SECTOR]).Header? || ParseHeader(c[..SECTOR]).usedLen > |c| then EINVAL
    else if |req.marker| == 0 || |req.marker| > MAX_MARKER then EINVAL
    else if d.sha(c) != req.expectedSha then EIO
    else if !Occurs(req.marker, c) then ENOENT
    else if TargetImage(boot, c) == boot then ENODATA
    else 0
  }

  /** Everything up to the snapshot: read-only. */
  method Preflight(d: Device, req: Request) returns (p: Preflighted)
    requires d.Valid()
    modifies d`readbacks, d`faults
    ensures old(d.faults) <= d.faults && (d.quiet ==> d.faults == old(d.faults))
    ensures (!p.Ready? ==> p.rc < 0) && (!req.accepted ==> p == Refused(EPERM))
    ensures p.Ready? ==> req.accepted && Acceptable(d, d.boot, req) && p.before == d.sha(d.boot)
                         && p.target == d.sha(TargetImage(d.boot, req.candidate))
                         && d.readbacks == old(d.readbacks) + [p.before] && d.faults == old(d.faults)
    ensures req.accepted && d.faults == old(d.faults) ==>
              if Acceptable(d, d.boot, req) then p.Ready? else p == Stopped(Refusal(d, d.boot, req))
  {
    hide TargetImage, Occurs, ParseHeader;
    if !req.accepted {
      return Refused(EPERM);
    }
    var f := d.Fails();
    if f {
      var e := Errno();
      return Refused(e);    // partition not resolved, or no device node
    }
    f := d.Fails();
    if f {
      return Stopped(EPERM);    // not opened, or not confirmed to be the boot partition
    }
    var rc, used := CheckHeader(d, d.boot);
    if rc != 0 {
      return Stopped(rc);
    }
    var before := d.FullSha();
    if before.None? {
      return Stopped(EIO);
    }
    p := PreflightCandidate(d, req, before.value);
  }

  method PreflightCandidate(d: Device, req: Request, before: string) returns (p: Preflighted)
    requires d.Valid() && before == d.sha(d.boot) && d.size >= SECTOR && ParseHeader(d.boot[..SECTOR]).Header?
    modifies d`faults
    ensures old(d.faults) <= d.faults && (d.quiet ==> d.faults == old(d.faults))
    ensures p.Ready? || (p.Stopped? && p.rc < 0)
    ensures p.Ready? ==> Acceptable(d, d.boot, req) && p.before == before && d.faults == old(d.faults)
                         && p.target == d.sha(TargetImage(d.boot, req.candidate))
    ensures d.faults == old(d.faults) ==>
              if Acceptable(d, d.boot, req) then p.Ready? else p == Stopped(CandidateRefusal(d, d.boot, req))
  {
    hide TargetImage, Occurs, ParseHeader;
    var f := d.Fails();
    if f {
      return Stopped(EIO);    // not opened, or not a regular file
    }
    if |req.candidate| < SECTOR || |req.candidate| > d.size {
      return Stopped(EINVAL);
    }
    var rc, used := CheckHeader(d, req.candidate);
    if rc != 0 {
      return Stopped(rc);
    }
    if used > |req.candidate| {
      return Stopped(EINVAL);
    }
    var found, digest;
    rc, found, digest := ScanCandidate(req.candidate, |req.candidate|, req.marker, d.chunk, d.sha, d.quiet);
    if rc == EIO {
      d.Count();
    }
    if rc != 0 {
      return Stopped(rc);
    }
    assert req.candidate[..|req.candidate|] == req.candidate;
    if digest != req.expectedSha {
      return Stopped(EIO);
    }
    if !found {
      return Stopped(ENOENT);
    }
    var plan;
    rc, plan := ComputeTargetPlan(d.boot, req.candidate, d.chunk, d.sha, d.quiet);
    if rc == EIO {
      d.Count();
    }
    if rc != 0 {
      return Stopped(rc);
    }
    if plan.current != before {
      return Stopped(EIO);
    }
    DifferencesZero(TargetImage(d.boot, req.candidate), d.boot);
    if plan.changedBytes == 0 {
      return Stopped(ENODATA);
    }
    p := Ready(before, plan.target);
  }

  // ----- the snapshot

  ghost predicate SameSnapshots(a: map<Name, seq<Byte>>, b: map<Name, seq<Byte>>) {
    forall n: Name :: n.Snapshot? ==> (n in a <==> n in b) && (n in a ==> a[n] == b[n])
  }

  /** Only temporary files may have changed since the command started. */
  ghost predicate Untouched(d: Device)
    reads d`boot, d`files, d`saved, d`trail, d`run
  {
    && d.Valid() && d.Safe() && d.boot == d.run.start.boot
    && SameSnapshots(d.files, d.run.start.files) && d.saved == d.run.start.saved
    && OnlyOwn(d.Now(), d.run.start, d.run.rung)
  }

  /** A change of this rung's temporary file alone leaves every snapshot as it was. */
  lemma TempChanged(d: Disk, after: Disk, start: Disk, rung: Rung)
    requires after.saved == d.saved
    requires forall n :: n != Temp(rung) ==>
               (n in after.files <==> n in d.files) && (n in d.files ==> after.files[n] == d.files[n])
    ensures SameSnapshots(after.files, d.files)
    ensures SameSnapshots(d.files, start.files) ==> SameSnapshots(after.files, start.files)
    ensures Retains(d, start) ==> Retains(after, start)
    ensures OnlyOwn(d, start, rung) ==> OnlyOwn(after, start, rung)
  {}

  lemma UntouchedValid(d: Device)
    requires Untouched(d)
    ensures d.Valid()
  {}

  lemma UntouchedRetains(d: Disk, start: Disk)
    requires SameSnapshots(d.files, start.files) && d.saved == start.saved
    ensures Retains(d, start)
  {}

  /** Removes a stale temporary file. */
  method DropTemp(d: Device, rung: Rung) returns (ok: bool)
    requires Untouched(d) && d.run.rung == rung
    modifies d`files, d`trail, d`faults
    ensures Untouched(d) && (d.quiet ==> ok) && old(d.trail) <= d.trail
    ensures d.faults == old(d.faults) + if ok then 0 else 1
  {
    hide SameSnapshots, Retains, OnlyOwn;
    ghost var before := d.Now();
    ok := d.UnlinkTemp(rung);
    TempChanged(before, d.Now(), d.run.start, rung);
    UntouchedRetains(d.Now(), d.run.start);
  }

  /** Removes the temporary file of a capture that has failed. */
  method AbandonTemp(d: Device, rung: Rung)
    requires Untouched(d) && d.run.rung == rung
    modifies d`files, d`trail
    ensures Untouched(d) && old(d.trail) <= d.trail && (d.quiet ==> Temp(rung) !in d.files)
  {
    hide SameSnapshots, Retains, OnlyOwn;
    ghost var before := d.Now();
    d.SweepTemp(rung);
    TempChanged(before, d.Now(), d.run.start, rung);
    UntouchedRetains(d.Now(), d.run.start);
  }

  method PutTemp(d: Device, rung: Rung, content: seq<Byte>)
    requires Untouched(d) && d.run.rung == rung
    modifies d`files, d`trail
    ensures Untouched(d) && d.files == old(d.files)[Temp(rung) := content] && old(d.trail) <= d.trail
  {
    hide SameSnapshots, Retains, OnlyOwn;
    ghost var before := d.Now();
    d.Put(Temp(rung), content);
    TempChanged(before, d.Now(), d.run.start, rung);
    UntouchedRetains(d.Now(), d.run.start);
  }

  /** f1_write_all_exact: each write stores some of the rest. */
  method WriteAll(d: Device, rung: Rung, buf: seq<Byte>) returns (rc: int)
    requires Untouched(d) && d.run.rung == rung && Temp(rung) in d.files
    modifies d`files, d`trail, d`faults
    ensures Untouched(d) && rc <= 0 && (d.quiet ==> rc == 0) && old(d.trail) <= d.trail
    ensures old(d.faults) <= d.faults && (rc == 0 <==> d.faults == old(d.faults))
    ensures Temp(rung) in d.files
    ensures rc == 0 ==> |d.files[Temp(rung)]| == |old(d.files[Temp(rung)])| + |buf|
    ensures rc == 0 && d.faithful ==> d.files[Temp(rung)] == old(d.files[Temp(rung)]) + buf
  {
    hide Untouched;
    var name := Temp(rung);
    var off := 0;
    ghost var before := d.files[name];
    while off < |buf|
      invariant 0 <= off <= |buf| && Untouched(d) && name in d.files && old(d.trail) <= d.trail
      invariant d.faults == old(d.faults)
      invariant |d.files[name]| == |before| + off
      invariant d.faithful ==> d.files[name] == before + buf[..off]
    {
      var f := d.Fails();
      if f {
        rc := Errno();
        return;
      }
      var n: int := *;
      n := if 1 <= n <= |buf| - off then n else |buf| - off;
      var stored: seq<Byte> := *;
      stored := if d.faithful || |stored| != n then buf[off..off + n] else stored;
      PutTemp(d, rung, d.files[name] + stored);
      assert buf[..off] + buf[off..off + n] == buf[..off + n];
      off := off + n;
    }
    assert buf[..off] == buf;
    rc := 0;
  }

  /** Copies the partition into the temporary file. */
  method CopyPartition(d: Device, rung: Rung) returns (rc: int, hashed: seq<Byte>)
    requires Untouched(d) && d.run.rung == rung
    modifies d`files, d`trail, d`faults
    ensures Untouched(d) && rc <= 0 && (d.quiet ==> rc == 0) && old(d.trail) <= d.trail
    ensures old(d.faults) <= d.faults && (rc == 0 <==> d.faults == old(d.faults))
    ensures rc == 0 ==> hashed == d.boot && Temp(rung) in d.files && |d.files[Temp(rung)]| == d.size
                        && (d.faithful ==> d.files[Temp(rung)] == d.boot)
  {
    hide Untouched;
    UntouchedValid(d);
    var name := Temp(rung);
    PutTemp(d, rung, []);
    hashed := [];
    while |hashed| < d.size
      invariant |hashed| <= d.size && hashed == d.boot[..|hashed|]
      invariant Untouched(d) && name in d.files && old(d.trail) <= d.trail && d.faults == old(d.faults)
      invariant |d.files[name]| == |hashed| && (d.faithful ==> d.files[name] == hashed)
    {
      var want := Min(d.chunk, d.size - |hashed|);
      var f := d.Fails();
      if f {
        rc := Errno();
        return;
      }
      var buf := d.boot[|hashed|..|hashed| + want];
      rc := WriteAll(d, rung, buf);
      if rc != 0 {
        return;
      }
      hashed := hashed + buf;
    }
    assert d.boot[..d.size] == d.boot;
    var f := d.Fails();    // fsync
    rc := if f then EIO else 0;
  }

  /** Copies the partition to a temporary file, then gives it the snapshot name. An existing snapshot is
      never touched. */
  method CaptureSnapshot(d: Device, rung: Rung, before: string) returns (rc: int)
    requires Untouched(d) && d.run.rung == rung && before == d.sha(d.boot)
    modifies d`files, d`saved, d`trail, d`faults
    ensures d.Valid() && d.Safe() && rc <= 0 && old(d.trail) <= d.trail
    ensures rc == 0 ==> Snapshot(rung) !in d.run.start.files && Captured(d, rung)
    ensures rc != 0 ==> Untouched(d)
    ensures d.quiet && Snapshot(rung) !in d.run.start.files ==> rc == 0
    ensures old(d.faults) <= d.faults && (d.quiet ==> d.faults == old(d.faults))
    ensures Snapshot(rung) !in d.run.start.files ==> (rc == 0 <==> d.faults == old(d.faults))
    ensures Snapshot(rung) in d.run.start.files ==> rc == EEXIST && d.Now() == old(d.Now()) && d.trail == old(d.trail)
  {
    hide Captured;
    var f := d.Fails();
    if Snapshot(rung) in d.files || f {
      return EEXIST;    // or lstat failed
    }
    var ok := DropTemp(d, rung);
    f := d.Fails();
    if !ok || f {
      rc := Errno();    // stale temporary file not removed, or new one not opened
      return;
    }
    var hashed;
    rc, hashed := CopyPartition(d, rung);
    if rc == 0 && d.sha(hashed) != before {
      rc := EIO;
    }
    if rc != 0 {
      AbandonTemp(d, rung);
      return;
    }
    rc := PublishTemp(d, rung);
  }

  method PublishTemp(d: Device, rung: Rung) returns (rc: int)
    requires Untouched(d) && d.run.rung == rung && Snapshot(rung) !in d.files
    requires Temp(rung) in d.files && |d.files[Temp(rung)]| == d.size
    requires d.faithful ==> d.files[Temp(rung)] == d.boot
    modifies d`files, d`saved, d`trail, d`faults
    ensures d.Valid() && d.Safe() && rc <= 0 && (d.quiet ==> rc == 0) && old(d.trail) <= d.trail
    ensures old(d.faults) <= d.faults && (rc == 0 <==> d.faults == old(d.faults))
    ensures rc == 0 ==> Captured(d, rung)
    ensures rc != 0 ==> Untouched(d)
  {
    hide Synced, KeepsSaved;
    var ok := d.Rename(Temp(rung), Snapshot(rung));
    RenamedRetains(d.Now(), d.run.start, rung);
    if !ok {
      AbandonTemp(d, rung);
      rc := Errno();
      return;
    }
    d.SyncDirectory(rung);
    SyncedRetains(d.Now(), d.run.start, rung);
    rc := 0;
  }

  lemma RenamedRetains(d: Disk, start: Disk, rung: Rung)
    requires Snapshot(rung) !in start.files && d.saved == start.saved
    requires forall n :: n in start.files && n.Snapshot? ==> n in d.files && d.files[n] == start.files[n]
    ensures Retains(d, start)
  {}

  lemma SyncedRetains(d: Disk, start: Disk, rung: Rung)
    requires Snapshot(rung) !in start.files && Snapshot(rung) in d.files
    requires d.saved == start.saved || d.saved == start.saved[rung := d.files[Snapshot(rung)]]
    requires forall n :: n in start.files && n.Snapshot? ==> n in d.files && d.files[n] == start.files[n]
    ensures Retains(d, start)
  {}

  /** The state right after a capture: a full-length snapshot, and otherwise the disk as at the start. */
  ghost predicate Captured(d: Device, rung: Rung)
    reads d`boot, d`files, d`saved, d`trail, d`run
  {
    var name, start := Snapshot(rung), d.run.start;
    && name in d.files && |d.files[name]| == d.size && (d.faithful ==> d.files[name] == start.boot)
    && d.boot == start.boot && Retains(d.Now(), start) && OnlyOwn(d.Now(), start, rung)
    && d.saved == (if d.dirSyncs then start.saved[rung := d.files[name]] else start.saved)
    && d.run.from < |d.trail| && d.trail[|d.trail| - 1] == d.Now()
  }

  // ----- the partition writes

  /** A verified snapshot of the starting content is in place: from here on any partition content is
      recoverable. */
  ghost predicate Armed(d: Device, rung: Rung)
    reads d`boot, d`files, d`saved, d`trail, d`run
  {
    && d.Valid() && d.Safe() && d.run.rung == rung && Snapshot(rung) !in d.run.start.files
    && d.Backed(d.files, Snapshot(rung), d.run.start.boot) && Retains(d.Now(), d.run.start)
    && OnlyOwn(d.Now(), d.run.start, rung)
    && (d.dirSyncs ==> rung in d.saved && d.saved[rung] == d.files[Snapshot(rung)])
    && d.run.from < |d.trail| && d.trail[|d.trail| - 1] == d.Now()
  }

  lemma ArmedSnapshot(d: Device, rung: Rung)
    requires Armed(d, rung)
    ensures d.Valid() && d.Backed(d.files, Snapshot(rung), d.run.start.boot)
  {}

  method WriteChunk(d: Device, rung: Rung, off: nat, buf: seq<Byte>) returns (ok: bool, ghost stored: seq<Byte>)
    requires Armed(d, rung) && off + |buf| <= d.size
    modifies d`boot, d`trail, d`writes, d`faults
    ensures Armed(d, rung) && old(d.trail) <= d.trail && (d.quiet ==> ok)
    ensures d.faults == old(d.faults) + if ok then 0 else 1
    ensures |stored| <= |buf| && d.boot == Spliced(old(d.boot), off, stored)
    ensures d.faithful ==> stored <= buf && (ok ==> stored == buf)
  {
    ok, stored := d.Pwrite(off, buf);
  }

  /** f1_write_full_image_chunks: the snapshot with the candidate laid over its front, chunk by chunk. An
      empty candidate writes the snapshot back. */
  method WriteImage(d: Device, rung: Rung, candidate: seq<Byte>) returns (rc: int)
    requires Armed(d, rung) && |candidate| <= d.size
    modifies d`boot, d`trail, d`writes, d`faults
    ensures Armed(d, rung) && old(d.trail) <= d.trail && rc <= 0 && (d.quiet ==> rc == 0)
    ensures old(d.faults) <= d.faults && (rc == 0 <==> d.faults == old(d.faults))
    ensures rc == 0 && d.faithful ==> d.boot == TargetImage(d.run.start.boot, candidate)
  {
    hide Armed, TargetImage, Overlaid, Spliced;
    ArmedSnapshot(d, rung);
    var snapshot := d.files[Snapshot(rung)];
    ghost var image := TargetImage(snapshot, candidate);
    var off := 0;
    while off < d.size
      invariant Armed(d, rung) && d.Valid() && old(d.trail) <= d.trail && 0 <= off <= d.size
      invariant d.faults == old(d.faults)
      invariant d.faithful ==> d.boot[..off] == image[..off]
    {
      var want := Min(d.chunk, d.size - off);
      var snapshotFails := d.Fails();
      var candidateFails := d.Fails();
      if snapshotFails || candidateFails {
        rc := Errno();
        return;
      }
      var buf := Overlaid(snapshot[off..off + want], candidate, off);
      OverlaidIsTarget(snapshot, candidate, off, want);
      ghost var before := d.boot;
      ghost var stored;
      var ok;
      ok, stored := WriteChunk(d, rung, off, buf);
      ArmedSnapshot(d, rung);
      if !ok {
        rc := Errno();
        return;
      }
      if d.faithful {
        PrefixWritten(before, image, off, buf);
      }
      off := off + want;
    }
    if d.faithful {
      assert d.boot[..d.size] == d.boot && image[..d.size] == image;
    }
    var f := d.Fails();    // fsync
    rc := if f then EIO else 0;
  }

  lemma PrefixWritten(b: seq<Byte>, image: seq<Byte>, off: nat, s: seq<Byte>)
    requires |b| == |image| && off + |s| <= |b| && b[..off] == image[..off] && s == image[off..off + |s|]
    ensures Spliced(b, off, s)[..off + |s|] == image[..off + |s|]
  {}

  /** Opens the partition, writes the target image and reads its digest back. */
  method WriteTarget(d: Device, rung: Rung, candidate: seq<Byte>, target: string) returns (started: bool, rc: int)
    requires Armed(d, rung) && |candidate| <= d.size
    modifies d`boot, d`trail, d`writes, d`readbacks, d`faults, d`opens
    ensures Armed(d, rung) && old(d.trail) <= d.trail && rc <= 0
    ensures old(d.faults) <= d.faults && (d.quiet ==> d.faults == old(d.faults))
    ensures d.opens == old(d.opens) + (if started then 1 else 0) && (rc == 0 ==> d.faults == old(d.faults))
    ensures !started ==> rc < 0 && d.boot == old(d.boot) && d.writes == old(d.writes)
    ensures rc == 0 ==> d.sha(d.boot) == target && d.readbacks == old(d.readbacks) + [target]
                        && (d.faithful ==> d.boot == TargetImage(d.run.start.boot, candidate))
    ensures d.faults == old(d.faults) ==> rc == 0 || rc == EIO
    ensures d.faults == old(d.faults) && d.faithful && target == d.sha(TargetImage(d.run.start.boot, candidate)) ==>
              rc == 0
  {
    hide Armed, TargetImage;
    ArmedSnapshot(d, rung);
    started := d.OpenForWriting();
    if !started {
      rc := Errno();
      return;
    }
    rc := WriteImage(d, rung, candidate);
    ArmedSnapshot(d, rung);
    if rc == 0 {
      var after := d.FullSha();
      if after != Some(target) {
        rc := EIO;
      }
    }
  }

  /** Writes the snapshot back and reads the original digest back. */
  method RestoreOriginal(d: Device, rung: Rung, before: string) returns (rc: int)
    requires Armed(d, rung) && before == d.sha(d.run.start.boot)
    modifies d`boot, d`trail, d`writes, d`readbacks, d`faults, d`opens
    ensures Armed(d, rung) && old(d.trail) <= d.trail && rc <= 0 && old(d.opens) <= d.opens
    ensures old(d.faults) <= d.faults && (d.quiet || rc == 0 ==> d.faults == old(d.faults))
    ensures rc == 0 ==> d.sha(d.boot) == before && d.readbacks == old(d.readbacks) + [before]
                        && (d.faithful ==> d.boot == d.run.start.boot)
    ensures d.faults == old(d.faults) ==> rc == 0 || rc == EIO
    ensures d.faults == old(d.faults) && d.faithful ==> rc == 0
  {
    hide Armed;
    ArmedSnapshot(d, rung);
    var ok := d.OpenForWriting();
    if !ok {
      rc := Errno();
      return;
    }
    rc := WriteImage(d, rung, []);
    ArmedSnapshot(d, rung);
    if rc == 0 {
      assert d.faithful ==> d.boot == d.run.start.boot;
      var after := d.FullSha();
      if after != Some(before) {
        rc := EIO;
      }
    }
  }

  /** Captures the snapshot, reopens it and compares its digest. */
  method SecureSnapshot(d: Device, rung: Rung, before: string) returns (rc: int)
    requires Untouched(d) && d.run.rung == rung && before == d.sha(d.boot)
    modifies d`files, d`saved, d`trail, d`faults
    ensures d.Valid() && d.Safe() && rc <= 0 && old(d.trail) <= d.trail && Retains(d.Now(), d.run.start)
    ensures rc == 0 ==> Armed(d, rung) && (!d.dirSyncs ==> d.saved == d.run.start.saved)
    ensures old(d.faults) <= d.faults && (d.quiet || rc == 0 ==> d.faults == old(d.faults))
    ensures d.faults == old(d.faults) && Snapshot(rung) !in d.run.start.files ==> rc == 0 || (!d.faithful && rc == EIO)
    ensures OnlyOwn(d.Now(), d.run.start, rung)
    ensures Snapshot(rung) in d.run.start.files ==> rc == EEXIST && d.Now() == old(d.Now()) && d.trail == old(d.trail)
  {
    rc := CaptureSnapshot(d, rung, before);
    if rc != 0 {
      return;
    }
    var f := d.Fails();
    if f {
      rc := Errno();
      return;
    }
    var snapshot := d.files[Snapshot(rung)];
    var digest := d.StreamSha(snapshot);
    assert snapshot[..d.size] == snapshot;
    if digest != Some(before) {
      rc := EIO;
    }
  }
}
