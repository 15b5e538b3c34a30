/** The boot partition, the staging directory with the snapshots taken before a flash, and the I/O
    primitives that a flash run is made of.

    Every primitive that changes the disk adds the new state to `trail`, so a statement about the trail
    is a statement about every point at which a run may be cut off. A write may stop after any prefix of
    its buffer. Unless the device is `faithful` it may even store other bytes and report success; reads
    either fail or return what is stored. Unless the device is `quiet`, any call may fail. */
module FlashDevice {
  import opened Common
  import opened Bits

  datatype Rung = F1 | F2 | F3

  datatype Name = Snapshot(rung: Rung) | Temp(rung: Rung)

  /** `saved` is what the synced part of the staging directory holds: what a power cut is certain to
      leave under each snapshot name. */
  datatype Disk = Disk(boot: seq<Byte>, files: map<Name, seq<Byte>>, saved: map<Rung, seq<Byte>>)

  /** Where a partition write goes. */
  datatype Span = Span(off: nat, len: nat)

  /** Which command is running, and the disk and trail length when it started. */
  datatype Run = Run(rung: Rung, start: Disk, from: nat)

  /** What is saved under a snapshot name is what stands there. */
  predicate Synced(d: Disk) {
    forall r :: r in d.saved ==> Snapshot(r) in d.files && d.files[Snapshot(r)] == d.saved[r]
  }

  /** What a power cut was certain to leave, it still is. */
  predicate KeepsSaved(d: Disk, start: Disk) {
    forall r :: r in start.saved ==> r in d.saved && d.saved[r] == start.saved[r]
  }

  /** Every saved snapshot still stands under its name, and is still saved. */
  predicate Survives(d: Disk, start: Disk) {
    Synced(start) ==> Synced(d) && KeepsSaved(d, start)
  }

  /** No snapshot that was there has been lost or overwritten, saved or not. */
  predicate Retains(d: Disk, start: Disk) {
    && (forall n :: n in start.files && n.Snapshot? ==> n in d.files && d.files[n] == start.files[n])
    && Survives(d, start)
  }

  /** Nothing but the snapshot and the temporary file of this rung differs. */
  ghost predicate OnlyOwn(d: Disk, start: Disk, rung: Rung) {
    && (forall n :: n != Snapshot(rung) && n != Temp(rung) ==>
          (n in d.files <==> n in start.files) && (n in d.files ==> d.files[n] == start.files[n]))
    && d.saved - {rung} == start.saved - {rung}
  }

  /** A power cut leaves the saved snapshots; whether anything else is left in the directory is open. */
  predicate AfterCut(before: Disk, after: Disk) {
    after.boot == before.boot && after.saved == before.saved && Synced(after)
  }

  /** A snapshot is certain to be left by a power cut exactly if it has been saved. */
  lemma LeftByCut(d: Disk, r: Rung)
    requires Snapshot(r) in d.files
    ensures (forall after :: AfterCut(d, after) ==>
               Snapshot(r) in after.files && after.files[Snapshot(r)] == d.files[Snapshot(r)]) <==>
            r in d.saved && d.saved[r] == d.files[Snapshot(r)]
  {
    var after := Disk(d.boot, map q | q in d.saved :: Snapshot(q) := d.saved[q], d.saved);
    assert AfterCut(d, after);
  }

  function Spliced(b: seq<Byte>, off: nat, s: seq<Byte>): (r: seq<Byte>)
    requires off + |s| <= |b|
    ensures |r| == |b|
  {
    b[..off] + s + b[off + |s|..]
  }

  class Device {
    const size: nat
    const chunk: nat
    const sha: seq<Byte> -> string
    const faithful: bool
    const quiet: bool
    const dirSyncs: bool    // whether fsync of the staging directory works
    var boot: seq<Byte>
    var files: map<Name, seq<Byte>>
    var saved: map<Rung, seq<Byte>>
    var trail: seq<Disk>
    ghost var readbacks: seq<string>    // digests obtained by reading the whole partition
    ghost var writes: seq<Span>         // partition writes issued
    ghost var run: Run
    ghost var faults: nat               // failed calls, but for those whose outcome nobody looks at
    ghost var opens: nat                // times the partition was opened for writing

    function Now(): Disk
      reads this`boot, this`files, this`saved
    {
      Disk(boot, files, saved)
    }

    /** The partition is as it was, or the snapshot of it is complete. */
    ghost predicate Guarded(d: Disk)
      reads this`run
    {
      var orig := run.start.boot;
      || (sha(d.boot) == sha(orig) && (faithful ==> d.boot == orig))
      || Backed(d.files, Snapshot(run.rung), orig)
    }

    ghost predicate Backed(files: map<Name, seq<Byte>>, name: Name, orig: seq<Byte>) {
      && name in files && |files[name]| == size && sha(files[name]) == sha(orig)
      && (faithful ==> files[name] == orig)
    }

    /** The same, judged by what a power cut is certain to leave. */
    ghost predicate PowerGuarded(d: Disk)
      reads this`run
    {
      var orig := run.start.boot;
      || (sha(d.boot) == sha(orig) && (faithful ==> d.boot == orig))
      || (run.rung in d.saved && |d.saved[run.rung]| == size && sha(d.saved[run.rung]) == sha(orig)
          && (faithful ==> d.saved[run.rung] == orig))
    }

    ghost predicate StepSafe(d: Disk)
      reads this`run
    {
      && |d.boot| == size && Guarded(d) && Retains(d, run.start) && OnlyOwn(d, run.start, run.rung)
      && (Snapshot(run.rung) in run.start.files ==> d.boot == run.start.boot)
      && (dirSyncs ==> PowerGuarded(d))
    }

    /** Every state since the command started is safe. */
    ghost predicate Safe()
      reads this`run, this`trail
    {
      && run.from <= |trail|
      && (forall i :: run.from <= i < |trail| ==> StepSafe(trail[i]))
    }

    ghost predicate Valid()
      reads this`boot
    {
      |boot| == size && chunk > 0
    }

    constructor (boot: seq<Byte>, files: map<Name, seq<Byte>>, chunk: nat, sha: seq<Byte> -> string,
                 faithful: bool, quiet: bool, dirSyncs: bool)
      requires chunk > 0
      ensures Valid() && this.boot == boot && this.files == files
      ensures saved == map[] && trail == [] && readbacks == [] && writes == []
      ensures size == |boot| && this.chunk == chunk && this.sha == sha
      ensures this.faithful == faithful && this.quiet == quiet && this.dirSyncs == dirSyncs
    {
      size, this.chunk, this.sha, this.faithful, this.quiet, this.dirSyncs :=
          |boot|, chunk, sha, faithful, quiet, dirSyncs;
      this.boot, this.files, saved := boot, files, map[];
      trail, readbacks, writes, faults, opens := [], [], [], 0, 0;
      run := Run(F1, Disk([], map[], map[]), 0);
    }

    /** Whether some other call fails. */
    method Fails() returns (f: bool)
      modifies this`faults
      ensures (quiet ==> !f) && faults == old(faults) + if f then 1 else 0
    {
      f := Fault(quiet);
      if f {
        faults := faults + 1;
      }
    }

    /** A call that failed elsewhere. */
    ghost method Count()
      modifies this`faults
      ensures faults == old(faults) + 1
    {
      faults := faults + 1;
    }

    /** Opens the partition for writing and confirms that it is the boot partition. */
    method OpenForWriting() returns (ok: bool)
      modifies this`faults, this`opens
      ensures quiet ==> ok
      ensures faults == old(faults) + (if ok then 0 else 1) && opens == old(opens) + (if ok then 1 else 0)
    {
      ok := Fails();
      ok := !ok;
      if ok {
        opens := opens + 1;
      }
    }

    /** The power fails in a state of the trail, or now, and the device starts again. */
    method PowerCut(n: nat)
      requires Valid() && (n < |trail| ==> |trail[n].boot| == size)
      modifies this`boot, this`files, this`saved, this`trail
      ensures Valid() && AfterCut(if n < |old(trail)| then old(trail[n]) else old(Now()), Now())
      ensures trail == old(trail)[..Min(n + 1, |old(trail)|)] + [Now()]
    {
      var at := if n < |trail| then trail[n] else Now();
      var found: map<Name, seq<Byte>> := *;
      boot, saved := at.boot, at.saved;
      files := found + map r | r in saved :: Snapshot(r) := saved[r];
      trail := trail[..Min(n + 1, |trail|)] + [Now()];
    }

    /** One pwrite on the partition. */
    method Pwrite(off: nat, buf: seq<Byte>) returns (ok: bool, ghost stored: seq<Byte>)
      requires Valid() && off + |buf| <= size
      modifies this`boot, this`trail, this`writes, this`faults
      ensures Valid() && trail == old(trail) + [Now()] && writes == old(writes) + [Span(off, |buf|)] && (quiet ==> ok)
      ensures faults == old(faults) + if ok then 0 else 1
      ensures |stored| <= |buf| && boot == Spliced(old(boot), off, stored)
      ensures faithful ==> stored <= buf && (ok ==> stored == buf)
    {
      ok := Fails();
      ok := !ok;
      var n: int := *;
      var bytes: seq<Byte> := *;
      if faithful || |bytes| > |buf| {
        bytes := if ok || n < 0 || n > |buf| then buf else buf[..n];
      }
      boot := Spliced(boot, off, bytes);
      stored := bytes;
      writes := writes + [Span(off, |buf|)];
      trail := trail + [Now()];
    }

    /** Creates or replaces a file in the staging directory. */
    method Put(name: Name, content: seq<Byte>)
      modifies this`files, this`trail
      ensures files == old(files)[name := content] && trail == old(trail) + [Now()]
    {
      files := files[name := content];
      trail := trail + [Now()];
    }

    /** unlink of a temporary file: a failure leaves it; the directory is not synced. */
    method UnlinkTemp(rung: Rung) returns (ok: bool)
      modifies this`files, this`trail, this`faults
      ensures (quiet ==> ok) && faults == old(faults) + if ok then 0 else 1
      ensures files == (if ok then old(files) - {Temp(rung)} else old(files)) && trail == old(trail) + [Now()]
    {
      ok := Fails();
      ok := !ok;
      if ok {
        files := files - {Temp(rung)};
      }
      trail := trail + [Now()];
    }

    /** The same where the outcome is not looked at. */
    method SweepTemp(rung: Rung)
      modifies this`files, this`trail
      ensures files == old(files) || files == old(files) - {Temp(rung)}
      ensures (quiet ==> files == old(files) - {Temp(rung)}) && trail == old(trail) + [Now()]
    {
      var f := Fault(quiet);
      if !f {
        files := files - {Temp(rung)};
      }
      trail := trail + [Now()];
    }

    /** unlink of a snapshot, after which a power cut is no longer certain to leave it. */
    method UnlinkSnapshot(rung: Rung) returns (ok: bool)
      modifies this`files, this`saved, this`trail
      ensures quiet ==> ok
      ensures files == (if ok then old(files) - {Snapshot(rung)} else old(files))
      ensures saved == (if ok then old(saved) - {rung} else old(saved)) && trail == old(trail) + [Now()]
    {
      ok := Fault(quiet);
      ok := !ok;
      if ok {
        files, saved := files - {Snapshot(rung)}, saved - {rung};
      }
      trail := trail + [Now()];
    }

    method Rename(from: Name, to: Name) returns (ok: bool)
      requires from in files && from != to
      modifies this`files, this`trail, this`faults
      ensures (quiet ==> ok) && faults == old(faults) + if ok then 0 else 1
      ensures files == (if ok then old(files)[to := old(files)[from]] - {from} else old(files))
      ensures trail == old(trail) + [Now()]
    {
      ok := Fails();
      ok := !ok;
      if ok {
        files := files[to := files[from]] - {from};
      }
      trail := trail + [Now()];
    }

    /** fsync of the staging directory; a failure is only reported on the console. */
    method SyncDirectory(rung: Rung)
      requires Snapshot(rung) in files
      modifies this`saved, this`trail
      ensures saved == (if dirSyncs then old(saved)[rung := files[Snapshot(rung)]] else old(saved))
      ensures trail == old(trail) + [Now()]
    {
      if dirSyncs {
        saved := saved[rung := files[Snapshot(rung)]];
      }
      trail := trail + [Now()];
    }

    /** The digest of the whole partition through a fresh descriptor; reads may come back in pieces. */
    method FullSha() returns (digest: Option<string>)
      requires Valid()
      modifies this`readbacks, this`faults
      ensures (quiet ==> digest.Some?) && faults == old(faults) + if digest.Some? then 0 else 1
      ensures digest.Some? ==> digest.value == sha(boot) && readbacks == old(readbacks) + [digest.value]
      ensures digest.None? ==> readbacks == old(readbacks)
    {
      var hashed: seq<Byte> := [];
      while |hashed| < size
        invariant |hashed| <= size && hashed == boot[..|hashed|] && readbacks == old(readbacks)
        invariant faults == old(faults)
      {
        var f := Fails();
        if f {
          return None;
        }
        var want := Min(chunk, size - |hashed|);
        var got: nat := *;
        got := if 1 <= got <= want then got else want;
        hashed := hashed + boot[|hashed|..|hashed| + got];
      }
      assert boot[..size] == boot;
      digest := Some(sha(hashed));
      readbacks := readbacks + [sha(hashed)];
    }

    /** The digest of the first `size` bytes of a file, read in exact chunks. */
    method StreamSha(content: seq<Byte>) returns (digest: Option<string>)
      requires chunk > 0
      modifies this`faults
      ensures digest.Some? ==> size <= |content| && digest.value == sha(content[..size])
      ensures quiet && size <= |content| ==> digest.Some?
      ensures size <= |content| ==> faults == old(faults) + if digest.Some? then 0 else 1
      ensures digest.Some? ==> faults == old(faults)
    {
      var hashed: seq<Byte> := [];
      while |hashed| < size
        invariant |hashed| <= size && |hashed| <= |content| && hashed == content[..|hashed|]
        invariant faults == old(faults)
      {
        var want := Min(chunk, size - |hashed|);
        var f := Fails();
        if f || |hashed| + want > |content| {
          return None;
        }
        hashed := hashed + content[|hashed|..|hashed| + want];
      }
      digest := Some(sha(hashed));
    }
  }
}
