/** The write-probe rungs: each reads bytes of the boot partition and writes the same bytes back. */
module IdentityRungs {
  import opened Common
  import opened Bits
  import opened BootHeader
  import opened FlashDevice
  import opened SpreadIndex

  const FOOTER_GUARD: nat := 0x10_0000
  const MAX_CANDIDATES: nat := 1024

  /** No state since `from` differs from `boot` on the partition. */
  ghost predicate Steady(d: Device, boot: seq<Byte>, from: nat)
    reads d`boot, d`trail
  {
    && d.Valid() && d.faithful && d.boot == boot && from <= |d.trail|
    && forall i :: from <= i < |d.trail| ==> d.trail[i].boot == boot
  }

  lemma SpliceOfPrefix(b: seq<Byte>, off: nat, len: nat, s: seq<Byte>)
    requires off + len <= |b| && s <= b[off..off + len]
    ensures Spliced(b, off, s) == b
  {
    assert s == b[off..off + |s|];
  }

  /** Writing back what is there changes nothing, wherever the write stops. */
  method WriteBack(d: Device, off: nat, bytes: seq<Byte>, ghost boot: seq<Byte>, ghost from: nat) returns (ok: bool)
    requires Steady(d, boot, from) && off + |bytes| <= d.size && bytes == d.boot[off..off + |bytes|]
    modifies d`boot, d`trail, d`writes, d`faults
    ensures Steady(d, boot, from) && d.writes == old(d.writes) + [Span(off, |bytes|)] && (d.quiet ==> ok)
    ensures d.faults == old(d.faults) + if ok then 0 else 1
  {
    ghost var stored;
    ok, stored := d.Pwrite(off, bytes);
    SpliceOfPrefix(boot, off, |bytes|, stored);
  }

  // ----- the slack window

  /** The sectors past the image and before the footer guard. */
  predicate InWindow(boot: seq<Byte>, off: nat)
    requires |boot| >= SECTOR && ParseHeader(boot[..SECTOR]).Header?
  {
    var used := ParseHeader(boot[..SECTOR]).usedLen;
    used <= off && off % SECTOR == 0 && off + SECTOR <= |boot| - FOOTER_GUARD
  }

  predicate IsZero(bytes: seq<Byte>) {
    forall i :: 0 <= i < |bytes| ==> bytes[i] == 0
  }

  /** Offsets of the all-zero sectors from `off` on, in order. */
  function ZeroSectors(boot: seq<Byte>, off: nat, end: nat): seq<nat>
    requires end <= |boot|
    decreases end - off
  {
    if off + SECTOR > end then []
    else (if IsZero(boot[off..off + SECTOR]) then [off] else []) + ZeroSectors(boot, off + SECTOR, end)
  }

  predicate Ascending(offsets: seq<nat>) {
    forall i, j :: 0 <= i < j < |offsets| ==> offsets[i] + SECTOR <= offsets[j]
  }

  /** An aligned sector of zeros from `off` on. */
  predicate ZeroFrom(boot: seq<Byte>, off: nat, end: nat, o: nat)
    requires end <= |boot|
  {
    off <= o && o + SECTOR <= end && o % SECTOR == 0 && IsZero(boot[o..o + SECTOR])
  }

  lemma {:induction false} ZeroSectorsInRange(boot: seq<Byte>, off: nat, end: nat)
    requires end <= |boot| && off % SECTOR == 0
    ensures Ascending(ZeroSectors(boot, off, end))
    ensures forall o: nat :: o in ZeroSectors(boot, off, end) <==> ZeroFrom(boot, off, end, o)
    decreases end - off
  {
    hide Ascending, IsZero, ZeroFrom;
    if off + SECTOR <= end {
      var rest := ZeroSectors(boot, off + SECTOR, end);
      NextAligned(off);
      ZeroSectorsInRange(boot, off + SECTOR, end);
      forall o: nat
        ensures o in rest ==> off + SECTOR <= o
        ensures ZeroFrom(boot, off, end, o) <==> o in rest || (o == off && IsZero(boot[off..off + SECTOR]))
      {
        ZeroFromEarlier(boot, off, end, o);
      }
      forall j | 0 <= j < |rest|
        ensures off + SECTOR <= rest[j]
      {
        assert rest[j] in rest;
      }
      AscendingCons(off, rest);
      EmptyBefore(rest);
    } else {
      AscendingEmpty();
      NoneFrom(boot, off, end);
    }
  }

  lemma NoneFrom(boot: seq<Byte>, off: nat, end: nat)
    requires end <= |boot| && off + SECTOR > end
    ensures forall o: nat :: !ZeroFrom(boot, off, end, o)
  {}

  lemma NextAligned(off: nat)
    requires off % SECTOR == 0
    ensures (off + SECTOR) % SECTOR == 0
  {}

  lemma ZeroFromEarlier(boot: seq<Byte>, off: nat, end: nat, o: nat)
    requires end <= |boot| && off + SECTOR <= end && off % SECTOR == 0
    ensures ZeroFrom(boot, off + SECTOR, end, o) ==> off + SECTOR <= o
    ensures ZeroFrom(boot, off, end, o) <==>
            ZeroFrom(boot, off + SECTOR, end, o) || (o == off && IsZero(boot[off..off + SECTOR]))
  {
    hide IsZero;
  }

  lemma AscendingCons(off: nat, rest: seq<nat>)
    requires Ascending(rest) && forall j :: 0 <= j < |rest| ==> off + SECTOR <= rest[j]
    ensures Ascending([off] + rest)
  {
    var all := [off] + rest;
    forall i, j | 0 <= i < j < |all|
      ensures all[i] + SECTOR <= all[j]
    {
      assert all[j] == rest[j - 1];
      if i > 0 {
        assert all[i] == rest[i - 1];
      }
    }
  }

  lemma EmptyBefore(rest: seq<nat>)
    ensures [] + rest == rest
  {}

  lemma AscendingEmpty()
    ensures Ascending([])
  {}

  /** E1: the first zero sector, without a limit on how many there are. */
  method FindZeroSector(d: Device, start: nat, end: nat) returns (rc: int, found: seq<nat>)
    requires d.Valid() && end <= d.size
    modifies d`faults
    ensures rc <= 0 && |found| == (if rc == 0 then 1 else 0) && found <= ZeroSectors(d.boot, start, end)
    ensures old(d.faults) <= d.faults && (d.quiet || rc == 0 ==> d.faults == old(d.faults))
    ensures d.faults == old(d.faults) ==> rc == if ZeroSectors(d.boot, start, end) == [] then ENOSPC else 0
  {
    var off := start;
    while off + SECTOR <= end
      invariant start <= off && ZeroSectors(d.boot, off, end) == ZeroSectors(d.boot, start, end)
      invariant d.faults == old(d.faults)
    {
      var f := d.Fails();
      if f {
        return EIO, [];
      }
      if IsZero(d.boot[off..off + SECTOR]) {
        return 0, [off];
      }
      off := off + SECTOR;
    }
    return ENOSPC, [];
  }

  /** E2 and E3a: all of them, up to a limit. */
  method ScanZeroSectors(d: Device, start: nat, end: nat) returns (rc: int, offsets: seq<nat>)
    requires d.Valid() && end <= d.size
    modifies d`faults
    ensures rc <= 0 && (rc == 0 ==> offsets == ZeroSectors(d.boot, start, end) && |offsets| <= MAX_CANDIDATES)
    ensures old(d.faults) <= d.faults && (d.quiet || rc == 0 ==> d.faults == old(d.faults))
    ensures d.faults == old(d.faults) ==>
              rc == if |ZeroSectors(d.boot, start, end)| <= MAX_CANDIDATES then 0 else E2BIG
  {
    hide ZeroSectors, IsZero;
    offsets := [];
    ghost var zeros := ZeroSectors(d.boot, start, end);
    var off := start;
    while off + SECTOR <= end
      invariant start <= off && |offsets| <= MAX_CANDIDATES
      invariant offsets + ZeroSectors(d.boot, off, end) == zeros
      invariant d.faults == old(d.faults)
    {
      ZerosNext(d.boot, off, end);
      var f := d.Fails();
      if f {
        return EIO, offsets;
      }
      if IsZero(d.boot[off..off + SECTOR]) {
        if |offsets| >= MAX_CANDIDATES {
          return E2BIG, offsets;
        }
        offsets := offsets + [off];
      }
      off := off + SECTOR;
    }
    ZerosEnd(d.boot, off, end);
    rc := 0;
  }

  lemma ZerosNext(boot: seq<Byte>, off: nat, end: nat)
    requires off + SECTOR <= end <= |boot|
    ensures var rest := ZeroSectors(boot, off + SECTOR, end);
            ZeroSectors(boot, off, end) == if IsZero(boot[off..off + SECTOR]) then [off] + rest else rest
  {
    EmptyBefore(ZeroSectors(boot, off + SECTOR, end));
  }

  lemma ZerosEnd(boot: seq<Byte>, off: nat, end: nat)
    requires end <= |boot| && off + SECTOR > end
    ensures ZeroSectors(boot, off, end) == []
  {}

  /** The evenly spread choice, as far as it has been made. */
  predicate AtPicked(offsets: seq<nat>, count: nat, targets: seq<nat>)
    requires count <= |offsets|
  {
    && |targets| <= count
    && forall k :: 0 <= k < |targets| ==>
         0 <= Picked(|offsets|, count, k) < |offsets| && targets[k] == offsets[Picked(|offsets|, count, k)]
  }

  lemma AtPickedAscending(offsets: seq<nat>, count: nat, targets: seq<nat>)
    requires 2 <= count <= |offsets| && Ascending(offsets) && AtPicked(offsets, count, targets)
    ensures Ascending(targets) && forall o :: o in targets ==> o in offsets
  {
    forall i, j | 0 <= i < j < |targets|
      ensures targets[i] + SECTOR <= targets[j]
    {
      PickedAscending(|offsets|, count, i, j);
    }
  }

  /** Chooses `count` of the zero sectors, spread evenly, and re-reads each. */
  method PickTargets(d: Device, offsets: seq<nat>, count: nat) returns (rc: int, targets: seq<nat>)
    requires d.Valid() && 2 <= count <= |offsets| && Ascending(offsets)
    requires forall o :: o in offsets ==> o + SECTOR <= d.size
    modifies d`faults
    ensures old(d.faults) <= d.faults && (d.quiet || rc == 0 ==> d.faults == old(d.faults))
    ensures rc <= 0 && (rc == 0 ==> |targets| == count) && AtPicked(offsets, count, targets)
    ensures forall o :: o in targets ==> o + SECTOR <= d.size && IsZero(d.boot[o..o + SECTOR])
    ensures d.faults == old(d.faults) && (forall o :: o in offsets ==> IsZero(d.boot[o..o + SECTOR])) ==> rc == 0
  {
    hide Select;
    targets := [];
    var previous := 0;
    for i := 0 to count
      invariant |targets| == i && AtPicked(offsets, count, targets) && d.faults == old(d.faults)
      invariant forall o :: o in targets ==> o + SECTOR <= d.size && IsZero(d.boot[o..o + SECTOR])
      invariant previous == if i == 0 then 0 else Picked(|offsets|, count, i - 1)
    {
      var idx := Select(|offsets|, count, i, previous);
      PickedIsEven(|offsets|, count, i);
      assert idx == Picked(|offsets|, count, i);
      var off := offsets[idx];
      assert off in offsets;
      var f := d.Fails();
      if f || !IsZero(d.boot[off..off + SECTOR]) {
        return EIO, targets;
      }
      targets := targets + [off];
      previous := idx;
    }
    rc := 0;
  }

  function Spans(targets: seq<nat>): seq<Span> {
    seq(|targets|, i requires 0 <= i < |targets| => Span(targets[i], SECTOR))
  }

  /** Writes the chosen sectors back one after the other. */
  method WriteTargets(d: Device, targets: seq<nat>, ghost boot: seq<Byte>, ghost from: nat)
    returns (rc: int, ghost done: nat)
    requires Steady(d, boot, from) && forall o :: o in targets ==> o + SECTOR <= d.size
    modifies d`boot, d`trail, d`writes, d`faults
    ensures Steady(d, boot, from) && rc <= 0 && done <= |targets|
    ensures (rc == 0 ==> done == |targets|) && (d.quiet ==> rc == 0)
    ensures old(d.faults) <= d.faults && (rc == 0 <==> d.faults == old(d.faults))
    ensures d.writes == old(d.writes) + Spans(targets[..done])
  {
    done := 0;
    for i := 0 to |targets|
      invariant Steady(d, boot, from) && done == i && d.writes == old(d.writes) + Spans(targets[..i])
      invariant d.faults == old(d.faults)
    {
      var off := targets[i];
      assert off in targets;
      var ok := WriteBack(d, off, d.boot[off..off + SECTOR], boot, from);
      assert Spans(targets[..i + 1]) == Spans(targets[..i]) + [Span(off, SECTOR)];
      done := i + 1;
      if !ok {
        rc := Errno();
        return;
      }
    }
    var f := d.Fails();
    rc := if f then EIO else 0;
  }

  // ----- the commands

  /** The window's bounds, or why there is none. */
  method SlackWindow(d: Device) returns (rc: int, start: nat, end: nat)
    requires d.Valid() && d.size >= FOOTER_GUARD
    modifies d`faults
    ensures old(d.faults) <= d.faults && (d.quiet || rc == 0 ==> d.faults == old(d.faults))
    ensures rc <= 0
    ensures rc == 0 ==> ParseHeader(d.boot[..SECTOR]).Header? && ParseHeader(d.boot[..SECTOR]).usedLen <= start
                        && start % SECTOR == 0 && end == d.size - FOOTER_GUARD
                        && start == RoundUp(ParseHeader(d.boot[..SECTOR]).usedLen, SECTOR)
    ensures d.faults == old(d.faults) ==> rc == if ParseHeader(d.boot[..SECTOR]).Header? then 0 else EINVAL
  {
    start, end := 0, 0;
    var f := d.Fails();
    if f {
      return EIO, 0, 0;
    }
    var header := ParseHeader(d.boot[..SECTOR]);
    if !header.Header? {
      return EINVAL, 0, 0;
    }
    RoundUpLeast(header.usedLen, SECTOR);
    rc, start, end := 0, RoundUp(header.usedLen, SECTOR), d.size - FOOTER_GUARD;
  }

  /** Where E1, E2 and E3a may write: distinct zero sectors of the slack window. */
  ghost predicate Chosen(boot: seq<Byte>, targets: seq<nat>) {
    && |boot| >= SECTOR && Ascending(targets)
    && (targets != [] ==> ParseHeader(boot[..SECTOR]).Header?)
    && forall o :: o in targets ==> InWindow(boot, o) && IsZero(boot[o..o + SECTOR])
  }

  /** The zero sectors of the slack window. */
  function WindowZeros(boot: seq<Byte>): seq<nat>
    requires |boot| >= FOOTER_GUARD && ParseHeader(boot[..SECTOR]).Header?
  {
    ZeroSectors(boot, RoundUp(ParseHeader(boot[..SECTOR]).usedLen, SECTOR), |boot| - FOOTER_GUARD)
  }

  /** A rung finds its targets exactly when there are enough of them, and for a spread not too many. */
  predicate Feasible(boot: seq<Byte>, count: nat)
    requires |boot| >= FOOTER_GUARD
  {
    && ParseHeader(boot[..SECTOR]).Header? && |WindowZeros(boot)| >= count
    && (count > 1 ==> |WindowZeros(boot)| <= MAX_CANDIDATES)
  }

  /** What such a rung returns if no call fails. */
  function SlackCode(boot: seq<Byte>, count: nat): (rc: int)
    requires |boot| >= FOOTER_GUARD && count > 0
    ensures rc == 0 <==> Feasible(boot, count)
  {
    if !ParseHeader(boot[..SECTOR]).Header? then EINVAL
    else if count > 1 && |WindowZeros(boot)| > MAX_CANDIDATES then E2BIG
    else if |WindowZeros(boot)| < count then ENOSPC
    else 0
  }

  /** What a rung writes to: the first zero sector of the window, or the even spread over all of them, as far as
      it got. */
  predicate Spread(boot: seq<Byte>, count: nat, targets: seq<nat>)
    requires |boot| >= FOOTER_GUARD && Feasible(boot, count)
  {
    if count == 1 then targets <= WindowZeros(boot)[..1] else AtPicked(WindowZeros(boot), count, targets)
  }

  /** The first zero sector, or an even spread over all of them. */
  method ChooseTargets(d: Device, count: nat) returns (rc: int, targets: seq<nat>)
    requires d.Valid() && d.size >= FOOTER_GUARD && count > 0
    modifies d`faults
    ensures old(d.faults) <= d.faults && (d.quiet || rc == 0 ==> d.faults == old(d.faults))
    ensures rc <= 0 && Chosen(d.boot, targets) && (rc == 0 ==> |targets| == count && Feasible(d.boot, count))
    ensures targets != [] ==> Feasible(d.boot, count) && Spread(d.boot, count, targets)
    ensures d.faults == old(d.faults) ==> rc == SlackCode(d.boot, count)
  {
    hide ParseHeader, IsZero;
    targets := [];
    var start, end, offsets;
    rc, start, end := SlackWindow(d);
    if rc != 0 {
      return;
    }
    if start + SECTOR > end {
      return ENOSPC, targets;
    }
    ZeroSectorsInRange(d.boot, start, end);
    if count == 1 {
      rc, targets := FindZeroSector(d, start, end);
      assert forall o :: o in targets ==> o in ZeroSectors(d.boot, start, end);
      return;
    }
    rc, offsets := ScanZeroSectors(d, start, end);
    if rc != 0 {
      return;
    }
    if |offsets| < count {
      return ENOSPC, targets;
    }
    rc, targets := PickTargets(d, offsets, count);
    AtPickedAscending(offsets, count, targets);
  }

  lemma ChosenPrefix(boot: seq<Byte>, targets: seq<nat>, n: nat)
    requires Chosen(boot, targets) && n <= |targets|
    ensures Chosen(boot, targets[..n])
    ensures forall o :: o in targets ==> o + SECTOR <= |boot|
  {
    hide ParseHeader, IsZero;
    assert forall o :: o in targets[..n] ==> o in targets;
    assert forall o :: o in targets ==> InWindow(boot, o);
  }

  lemma SpreadPrefix(boot: seq<Byte>, count: nat, targets: seq<nat>, n: nat)
    requires |boot| >= FOOTER_GUARD && Feasible(boot, count) && Spread(boot, count, targets) && n <= |targets|
    ensures Spread(boot, count, targets[..n])
  {
    hide ParseHeader, ZeroSectors, Picked;
  }

  /** E1 (one sector), E2 (four) and E3a (sixteen). */
  method SlackRung(d: Device, count: nat) returns (rc: int, ghost targets: seq<nat>)
    requires d.Valid() && d.faithful && d.size >= FOOTER_GUARD && count > 0
    modifies d`boot, d`trail, d`writes, d`readbacks, d`faults
    ensures Steady(d, old(d.boot), |old(d.trail)|) && rc <= 0
    ensures Chosen(d.boot, targets) && d.writes == old(d.writes) + Spans(targets)
    ensures rc == 0 ==> |targets| == count
    ensures targets != [] ==> Feasible(d.boot, count) && Spread(d.boot, count, targets)
    ensures d.faults == old(d.faults) ==> rc == SlackCode(d.boot, count)
    ensures rc == 0 ==> d.readbacks == old(d.readbacks) + [d.sha(d.boot), d.sha(d.boot)]
    ensures old(d.faults) <= d.faults && (d.quiet || rc == 0 ==> d.faults == old(d.faults))
  {
    hide ParseHeader, IsZero, Feasible, Chosen, Spread, SlackCode;
    targets := [];
    ghost var boot, from := d.boot, |d.trail|;
    var chosen;
    rc, chosen := ChooseTargets(d, count);
    ChosenPrefix(boot, chosen, 0);
    assert chosen[..0] == [];
    if rc != 0 {
      return;
    }
    var before := d.FullSha();
    if before.None? {
      rc := EIO;
      return;
    }
    ghost var done;
    rc, done := WriteTargets(d, chosen, boot, from);
    targets := chosen[..done];
    ChosenPrefix(boot, chosen, done);
    if done > 0 {
      SpreadPrefix(boot, count, chosen, done);
    }
    var after := d.FullSha();
    if rc == 0 && after != before {
      rc := EIO;
    }
  }

  /** The common end of E3b and E4: one block, with the partition digest before and after. */
  method ProbeBlock(d: Device, off: nat, len: nat) returns (rc: int)
    requires d.Valid() && d.faithful && off + len <= d.size
    modifies d`boot, d`trail, d`writes, d`readbacks, d`faults
    ensures Steady(d, old(d.boot), |old(d.trail)|) && rc <= 0 && (d.quiet ==> rc == 0)
    ensures old(d.faults) <= d.faults && (rc == 0 <==> d.faults == old(d.faults))
    ensures rc == 0 ==> d.readbacks == old(d.readbacks) + [d.sha(d.boot), d.sha(d.boot)]
    ensures d.writes == old(d.writes) || d.writes == old(d.writes) + [Span(off, len)]
    ensures rc == 0 ==> d.writes == old(d.writes) + [Span(off, len)]
  {
    var before := d.FullSha();
    var f := d.Fails();
    if before.None? || f {
      return EIO;
    }
    ghost var boot, from := d.boot, |d.trail|;
    var ok := WriteBack(d, off, d.boot[off..off + len], boot, from);
    var after := d.FullSha();
    if !ok {
      rc := Errno();
    } else {
      rc := if after != before then EIO else 0;
    }
  }

  /** Whole sectors right after the image, before the last MiB and not all of them zero. */
  predicate Contiguous(boot: seq<Byte>, len: nat)
    requires |boot| >= FOOTER_GUARD
  {
    var header := ParseHeader(boot[..SECTOR]);
    && header.Header? && len > 0 && len % SECTOR == 0
    && var start := RoundUp(header.usedLen, SECTOR);
       start + len <= |boot| - FOOTER_GUARD && !IsZero(boot[start..start + len])
  }

  function ContiguousCode(boot: seq<Byte>, len: nat): (rc: int)
    requires |boot| >= FOOTER_GUARD
    ensures rc == 0 <==> Contiguous(boot, len)
  {
    var header := ParseHeader(boot[..SECTOR]);
    if !header.Header? then EINVAL
    else if len == 0 || len % SECTOR != 0 || RoundUp(header.usedLen, SECTOR) + len > |boot| - FOOTER_GUARD then ENOSPC
    else if IsZero(boot[RoundUp(header.usedLen, SECTOR)..RoundUp(header.usedLen, SECTOR) + len]) then ENODATA
    else 0
  }

  /** E3b: `len` bytes right after the image, not all of them zero. */
  method ContiguousRung(d: Device, len: nat) returns (rc: int)
    requires d.Valid() && d.faithful && d.size >= FOOTER_GUARD
    modifies d`boot, d`trail, d`writes, d`readbacks, d`faults
    ensures Steady(d, old(d.boot), |old(d.trail)|) && rc <= 0
    ensures d.writes == old(d.writes) || Contiguous(d.boot, len)
    ensures d.writes == old(d.writes) ||
            d.writes == old(d.writes) + [Span(RoundUp(ParseHeader(d.boot[..SECTOR]).usedLen, SECTOR), len)]
    ensures rc == 0 ==> d.writes != old(d.writes)
    ensures rc == 0 ==> d.readbacks == old(d.readbacks) + [d.sha(d.boot), d.sha(d.boot)]
    ensures d.faults == old(d.faults) ==> rc == ContiguousCode(d.boot, len)
    ensures old(d.faults) <= d.faults && (d.quiet || rc == 0 ==> d.faults == old(d.faults))
  {
    hide ParseHeader, IsZero, RoundUp;
    var start, end;
    rc, start, end := SlackWindow(d);
    if rc != 0 {
      return;
    }
    if len == 0 || len % SECTOR != 0 || start + len > end {
      return ENOSPC;
    }
    if IsZero(d.boot[start..start + len]) {
      return ENODATA;
    }
    rc := ProbeBlock(d, start, len);
  }

  /** E4: the header sector. */
  method HeaderRung(d: Device) returns (rc: int)
    requires d.Valid() && d.faithful && d.size >= SECTOR
    modifies d`boot, d`trail, d`writes, d`readbacks, d`faults
    ensures Steady(d, old(d.boot), |old(d.trail)|) && rc <= 0
    ensures d.writes == old(d.writes) || d.writes == old(d.writes) + [Span(0, SECTOR)]
    ensures rc == 0 ==> d.writes == old(d.writes) + [Span(0, SECTOR)] && ParseHeader(d.boot[..SECTOR]).Header?
    ensures rc == 0 ==> d.readbacks == old(d.readbacks) + [d.sha(d.boot), d.sha(d.boot)]
    ensures d.faults == old(d.faults) ==> rc == if ParseHeader(d.boot[..SECTOR]).Header? then 0 else EINVAL
    ensures old(d.faults) <= d.faults && (d.quiet || rc == 0 ==> d.faults == old(d.faults))
  {
    if !ParseHeader(d.boot[..SECTOR]).Header? {
      return EINVAL;
    }
    rc := ProbeBlock(d, 0, SECTOR);
  }

  /** Writes that follow one another from the start of the partition up to `end`. */
  predicate Tiles(spans: seq<Span>, end: nat) {
    if spans == [] then end == 0
    else
      var last := spans[|spans| - 1];
      last.off + last.len == end && Tiles(spans[..|spans| - 1], last.off)
  }

  /** E5: the whole partition, chunk by chunk. */
  method StreamRung(d: Device) returns (rc: int, ghost made: seq<Span>)
    requires d.Valid() && d.faithful && d.size >= SECTOR && d.size % d.chunk == 0
    modifies d`boot, d`trail, d`writes, d`readbacks, d`faults
    ensures Steady(d, old(d.boot), |old(d.trail)|) && rc <= 0
    ensures d.writes == old(d.writes) + made
    ensures rc == 0 ==> Tiles(made, d.size) && ParseHeader(d.boot[..SECTOR]).Header?
    ensures rc == 0 ==> d.readbacks == old(d.readbacks) + [d.sha(d.boot), d.sha(d.boot)]
    ensures d.faults == old(d.faults) ==> rc == if ParseHeader(d.boot[..SECTOR]).Header? then 0 else EINVAL
    ensures old(d.faults) <= d.faults && (d.quiet || rc == 0 ==> d.faults == old(d.faults))
  {
    made := [];
    if !ParseHeader(d.boot[..SECTOR]).Header? {
      rc := EINVAL;
      return;
    }
    var before := d.FullSha();
    var source := d.StreamSha(d.boot);
    assert d.boot[..d.size] == d.boot;
    if before.None? || source != before {
      rc := EIO;
      return;
    }
    rc, made := StreamBack(d, d.boot, |d.trail|);
    var after := d.FullSha();
    if rc == 0 && after != before {
      rc := EIO;
    }
  }

  method StreamBack(d: Device, ghost boot: seq<Byte>, ghost from: nat) returns (rc: int, ghost made: seq<Span>)
    requires Steady(d, boot, from)
    modifies d`boot, d`trail, d`writes, d`faults
    ensures Steady(d, boot, from) && rc <= 0 && (d.quiet ==> rc == 0)
    ensures old(d.faults) <= d.faults && (rc == 0 <==> d.faults == old(d.faults))
    ensures d.writes == old(d.writes) + made && (rc == 0 ==> Tiles(made, d.size))
  {
    var off := 0;
    made := [];
    while off < d.size
      invariant Steady(d, boot, from) && 0 <= off <= d.size && d.faults == old(d.faults)
      invariant d.writes == old(d.writes) + made && Tiles(made, off)
    {
      var want := Min(d.chunk, d.size - off);
      var f := d.Fails();
      if f {
        rc := Errno();
        return;
      }
      var ok := WriteBack(d, off, d.boot[off..off + want], boot, from);
      assert (made + [Span(off, want)])[..|made|] == made;
      made := made + [Span(off, want)];
      if !ok {
        rc := Errno();
        return;
      }
      off := off + want;
    }
    var f := d.Fails();
    rc := if f then EIO else 0;
  }
}
