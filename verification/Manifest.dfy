/** Validation of a calibration manifest against the table of planned slots, and the allocation and ION
    request plans built from it. A manifest is given as its classified lines. */
module Manifest {
  import opened Common

  const MANIFEST_VERSION: int := 1

  datatype File = File(path: string, size: int, sha: string)

  const NO_FILE := File("-", 0, "-")

  datatype Item = Item(sequence: int, calType: int, role: string, payloadFlag: int, arg: File, payload: File)

  /** `Malformed`: an entry line without its ten fields. */
  datatype Line = Ignored | Version(number: int) | Profile(id: string) | EntryCount(count: int)
                | Entry(item: Item) | Malformed | Unknown

  datatype Slot = Slot(calType: int, role: string, payload: bool)

  type Table = seq<Slot>

  /** Which files are allowed, present and have the digest asked for, and which can be read whole. */
  datatype Disk = Disk(verifies: File -> bool, loads: File -> bool)

  // ----- what a manifest must be

  predicate FileFits(disk: Disk, f: File, required: bool) {
    if required then f.path != "-" && f.size > 0 && f.sha != "-" && disk.verifies(f) else f == NO_FILE
  }

  predicate FileLoads(disk: Disk, f: File, required: bool) {
    required ==> f.path != "-" && f.size > 0 && disk.loads(f)
  }

  predicate InTable(table: Table, it: Item) {
    0 <= it.sequence < |table|
  }

  predicate Planned(table: Table, it: Item)
    requires InTable(table, it)
  {
    var slot := table[it.sequence];
    it.calType == slot.calType && it.role == slot.role && it.payloadFlag == if slot.payload then 1 else 0
  }

  predicate FilesFit(table: Table, disk: Disk, load: bool, it: Item)
    requires InTable(table, it)
  {
    var payload := table[it.sequence].payload;
    && FileFits(disk, it.arg, true) && FileFits(disk, it.payload, payload)
    && (load ==> FileLoads(disk, it.arg, true) && FileLoads(disk, it.payload, payload))
  }

  predicate Fits(table: Table, disk: Disk, load: bool, it: Item) {
    InTable(table, it) && Planned(table, it) && FilesFit(table, disk, load, it)
  }

  predicate AllInTable(table: Table, items: seq<Item>) {
    forall i :: 0 <= i < |items| ==> InTable(table, items[i])
  }

  predicate AllFit(table: Table, disk: Disk, load: bool, items: seq<Item>) {
    forall i :: 0 <= i < |items| ==> Fits(table, disk, load, items[i])
  }

  predicate Distinct(items: seq<Item>) {
    forall i, j :: 0 <= i < j < |items| ==> items[i].sequence != items[j].sequence
  }

  predicate Has(items: seq<Item>, s: int) {
    exists i :: 0 <= i < |items| && items[i].sequence == s
  }

  predicate Covers(table: Table, items: seq<Item>) {
    forall s :: 0 <= s < |table| ==> Has(items, s)
  }

  function Items(lines: seq<Line>): seq<Item> {
    if lines == [] then []
    else
      var last := lines[|lines| - 1];
      Items(lines[..|lines| - 1]) + if last.Entry? then [last.item] else []
  }

  predicate Legible(lines: seq<Line>) {
    forall i :: 0 <= i < |lines| ==> !lines[i].Malformed? && !lines[i].Unknown?
  }

  /** The setting lines; a later one overrides an earlier one. */
  datatype Settings = Settings(version: int, profile: string, count: int)

  function Configured(lines: seq<Line>): Settings {
    if lines == [] then Settings(-1, "", -1) else Override(Configured(lines[..|lines| - 1]), lines[|lines| - 1])
  }

  function Override(s: Settings, line: Line): Settings {
    match line
    case Version(number) => s.(version := number)
    case Profile(id) => s.(profile := id)
    case EntryCount(count) => s.(count := count)
    case _ => s
  }

  /** Each setting is that of the last line of its kind, or the default if there is none. */
  lemma {:induction false} LastSetting(lines: seq<Line>, k: int)
    requires -1 <= k < |lines|
    ensures (k >= 0 ==> lines[k].Version?) && (forall j :: k < j < |lines| ==> !lines[j].Version?) ==>
              Configured(lines).version == if k < 0 then -1 else lines[k].number
    ensures (k >= 0 ==> lines[k].Profile?) && (forall j :: k < j < |lines| ==> !lines[j].Profile?) ==>
              Configured(lines).profile == if k < 0 then "" else lines[k].id
    ensures (k >= 0 ==> lines[k].EntryCount?) && (forall j :: k < j < |lines| ==> !lines[j].EntryCount?) ==>
              Configured(lines).count == if k < 0 then -1 else lines[k].count
  {
    if k < |lines| - 1 {
      var front, n := lines[..|lines| - 1], |lines| - 1;
      assert forall j :: 0 <= j < n ==> front[j] == lines[j];
      LastSetting(front, k);
    }
  }

  /** The items are those of just the entry lines, in their order. */
  lemma {:induction false} ItemsAre(lines: seq<Line>) returns (at: seq<nat>)
    ensures Picks(lines, Items(lines), at, ItemOf)
  {
    hide Picks, Items;
    at := [];
    if lines == [] {
      NoItems();
      PicksNone(lines, Items(lines), ItemOf);
    } else {
      var n, front := |lines| - 1, lines[..|lines| - 1];
      at := ItemsAre(front);
      PicksNext(front, Items(front), at, ItemOf, lines[n]);
      assert lines == front + [lines[n]];
      ItemsSnoc(front, lines[n]);
      at := if lines[n].Entry? then at + [n] else at;
    }
  }

  function ItemOf(line: Line): Option<Item> {
    if line.Entry? then Some(line.item) else None
  }

  lemma NoItems()
    ensures Items([]) == []
  {}

  /** Lines that give no error by themselves: all legible, every entry as planned, no slot twice. */
  predicate Clean(table: Table, disk: Disk, load: bool, lines: seq<Line>) {
    Legible(lines) && AllFit(table, disk, load, Items(lines)) && Distinct(Items(lines))
  }

  predicate Accepted(table: Table, disk: Disk, load: bool, profile: Option<string>, lines: seq<Line>) {
    && Clean(table, disk, load, lines)
    && |Items(lines)| == |table| && Covers(table, Items(lines))
    && profile.Some? && Configured(lines) == Settings(MANIFEST_VERSION, profile.value, |table|)
  }

  // ----- what comes of it

  type Slots = seq<Option<Item>>

  /** The items, each in the slot it names. */
  function Stored(items: seq<Item>, n: nat): (slots: Slots)
    requires forall i :: 0 <= i < |items| ==> 0 <= items[i].sequence < n
    ensures |slots| == n
  {
    if items == [] then seq(n, i => None)
    else
      var last := items[|items| - 1];
      Stored(items[..|items| - 1], n)[last.sequence := Some(last)]
  }

  datatype Totals = Totals(entries: int, argEntries: int, payloadEntries: int, argBytes: int, payloadBytes: int)

  const NOTHING := Totals(0, 0, 0, 0, 0)

  function Positive(n: int): int {
    if n > 0 then n else 0
  }

  function Counted(t: Totals, it: Item): Totals {
    var bytes := t.argBytes + Positive(it.arg.size);
    var u := t.(entries := t.entries + 1, argEntries := t.argEntries + 1, argBytes := bytes);
    if it.payloadFlag != 0
    then u.(payloadEntries := t.payloadEntries + 1, payloadBytes := t.payloadBytes + Positive(it.payload.size))
    else u
  }

  function SlotTotals(slots: Slots): Totals {
    if slots == [] then NOTHING
    else
      var before, last := SlotTotals(slots[..|slots| - 1]), slots[|slots| - 1];
      if last.None? then before else Counted(before, last.value)
  }

  function Sum(s: seq<int>): int {
    if s == [] then 0 else Sum(s[..|s| - 1]) + s[|s| - 1]
  }

  /** The sizes of the arguments, or of the payloads that are flagged, slot by slot. */
  function ArgSizes(slots: Slots): seq<int> {
    seq(|slots|, s requires 0 <= s < |slots| => if slots[s].Some? then Positive(slots[s].value.arg.size) else 0)
  }

  predicate HasPayload(slot: Option<Item>) {
    slot.Some? && slot.value.payloadFlag != 0
  }

  function PayloadSizes(slots: Slots): seq<int> {
    seq(|slots|, s requires 0 <= s < |slots| =>
          if HasPayload(slots[s]) then Positive(slots[s].value.payload.size) else 0)
  }

  lemma TotalsStep(slots: Slots)
    requires slots != []
    ensures var t, u, last := SlotTotals(slots[..|slots| - 1]), SlotTotals(slots), slots[|slots| - 1];
            && u.entries == t.entries + (if last.Some? then 1 else 0)
            && u.argEntries == t.argEntries + (if last.Some? then 1 else 0)
            && u.payloadEntries == t.payloadEntries + (if HasPayload(last) then 1 else 0)
            && u.argBytes == t.argBytes + (if last.Some? then Positive(last.value.arg.size) else 0)
            && u.payloadBytes == t.payloadBytes + (if HasPayload(last) then Positive(last.value.payload.size) else 0)
  {}

  /** The totals are numbers of slots and sums of sizes. */
  lemma {:induction false} EntriesCounted(slots: Slots)
    ensures SlotTotals(slots).entries == SlotTotals(slots).argEntries == |Where(slots, (o: Option<Item>) => o.Some?)|
  {
    hide SlotTotals, HasPayload, Positive, Where;
    if slots == [] {
      NoTotals();
      WhereNone(slots, (o: Option<Item>) => o.Some?);
    } else {
      EntriesCounted(slots[..|slots| - 1]);
      TotalsStep(slots);
      WhereLast(slots, (o: Option<Item>) => o.Some?);
    }
  }

  lemma {:induction false} PayloadsCounted(slots: Slots)
    ensures SlotTotals(slots).payloadEntries == |Where(slots, HasPayload)|
  {
    hide SlotTotals, HasPayload, Positive, Where;
    if slots == [] {
      NoTotals();
      WhereNone(slots, HasPayload);
    } else {
      PayloadsCounted(slots[..|slots| - 1]);
      TotalsStep(slots);
      WhereLast(slots, HasPayload);
    }
  }

  lemma NoTotals()
    ensures SlotTotals([]) == NOTHING
  {}

  lemma {:induction false} TotalsAreSums(slots: Slots)
    ensures SlotTotals(slots).argBytes == Sum(ArgSizes(slots))
    ensures SlotTotals(slots).payloadBytes == Sum(PayloadSizes(slots))
  {
    hide HasPayload, Positive;
    if slots != [] {
      var n, front := |slots| - 1, slots[..|slots| - 1];
      TotalsAreSums(front);
      TotalsStep(slots);
      assert ArgSizes(slots)[..n] == ArgSizes(front);
      assert PayloadSizes(slots)[..n] == PayloadSizes(front);
    }
  }

  lemma {:induction false} StoredIs(items: seq<Item>, n: nat)
    requires Distinct(items) && forall i :: 0 <= i < |items| ==> 0 <= items[i].sequence < n
    ensures forall i :: 0 <= i < |items| ==> Stored(items, n)[items[i].sequence] == Some(items[i])
    ensures forall s :: 0 <= s < n && Stored(items, n)[s].Some? ==>
                          Stored(items, n)[s].value in items && Stored(items, n)[s].value.sequence == s
  {
    if items != [] {
      StoredIs(items[..|items| - 1], n);
    }
  }

  lemma {:induction false} TotalsOfNone(n: nat)
    ensures SlotTotals(seq(n, i => None)) == NOTHING
  {
    if n > 0 {
      var slots: Slots := seq(n, i => None);
      assert slots[..n - 1] == seq(n - 1, i => None);
      TotalsOfNone(n - 1);
    }
  }

  /** Filling an empty slot adds its item to the totals, whichever slot it is. */
  lemma {:induction false} FillSlot(slots: Slots, s: nat, it: Item)
    requires s < |slots| && slots[s].None?
    ensures SlotTotals(slots[s := Some(it)]) == Counted(SlotTotals(slots), it)
    decreases |slots|
  {
    var n := |slots| - 1;
    var filled := slots[s := Some(it)];
    if s == n {
      assert filled[..n] == slots[..n];
    } else {
      assert filled[..n] == slots[..n][s := Some(it)];
      FillSlot(slots[..n], s, it);
    }
  }

  // ----- the order of the entry lines does not matter

  lemma {:induction false} Twice<T>(s: seq<T>, i: nat, j: nat)
    requires i < j < |s| && s[i] == s[j]
    ensures multiset(s)[s[i]] >= 2
  {
    var t := s[..|s| - 1];
    assert s == t + [s[|s| - 1]];
    if j < |s| - 1 {
      Twice(t, i, j);
    } else {
      assert t[i] in t;
    }
  }

  lemma {:induction false} TwiceAt<T>(s: seq<T>, x: T) returns (i: nat, j: nat)
    requires multiset(s)[x] >= 2
    ensures i < j < |s| && s[i] == x == s[j]
  {
    var t := s[..|s| - 1];
    assert s == t + [s[|s| - 1]];
    if multiset(t)[x] >= 2 {
      i, j := TwiceAt(t, x);
    } else {
      assert x in t;
      i :| 0 <= i < |t| && t[i] == x;
      j := |s| - 1;
    }
  }

  lemma DistinctPermuted(a: seq<Item>, b: seq<Item>)
    requires multiset(a) == multiset(b) && Distinct(a)
    ensures Distinct(b)
  {
    forall i, j | 0 <= i < j < |b|
      ensures b[i].sequence != b[j].sequence
    {
      if b[i] == b[j] {
        Twice(b, i, j);
        var k, l := TwiceAt(a, b[i]);
      } else {
        assert b[i] in multiset(b) && b[j] in multiset(b);
        assert b[i] in a && b[j] in a;
      }
    }
  }

  ghost predicate Same(a: seq<Item>, b: seq<Item>) {
    |a| == |b| && forall it :: it in a <==> it in b
  }

  lemma PermutedIsSame(a: seq<Item>, b: seq<Item>)
    requires multiset(a) == multiset(b)
    ensures Same(a, b)
  {
    assert |a| == |multiset(a)| == |multiset(b)| == |b|;
    forall it
      ensures it in a <==> it in b
    {
      assert it in a <==> it in multiset(a);
      assert it in b <==> it in multiset(b);
    }
  }

  lemma SameFits(table: Table, disk: Disk, load: bool, a: seq<Item>, b: seq<Item>)
    requires Same(a, b) && AllFit(table, disk, load, a)
    ensures AllFit(table, disk, load, b)
  {
    hide Fits;
    forall i | 0 <= i < |b|
      ensures Fits(table, disk, load, b[i])
    {
      assert b[i] in a;
    }
  }

  lemma SameCovers(table: Table, a: seq<Item>, b: seq<Item>)
    requires Same(a, b) && Covers(table, a)
    ensures Covers(table, b)
  {
    forall s | 0 <= s < |table|
      ensures Has(b, s)
    {
      assert Has(a, s);
      var i :| 0 <= i < |a| && a[i].sequence == s;
      assert a[i] in b;
    }
  }

  lemma SameStored(table: Table, a: seq<Item>, b: seq<Item>)
    requires Same(a, b) && Distinct(a) && Distinct(b)
    requires AllInTable(table, a) && AllInTable(table, b) && Covers(table, a)
    ensures Stored(a, |table|) == Stored(b, |table|)
  {
    StoredIs(a, |table|);
    StoredIs(b, |table|);
    forall s | 0 <= s < |table|
      ensures Stored(a, |table|)[s] == Stored(b, |table|)[s]
    {
      assert Has(a, s);
      var i :| 0 <= i < |a| && a[i].sequence == s;
      assert a[i] in b;
    }
  }

  lemma AcceptedPermuted(table: Table, disk: Disk, load: bool, profile: Option<string>, a: seq<Line>, b: seq<Line>)
    requires multiset(Items(a)) == multiset(Items(b)) && Configured(a) == Configured(b) && Legible(a) == Legible(b)
    requires Accepted(table, disk, load, profile, a)
    ensures Accepted(table, disk, load, profile, b)
    ensures Stored(Items(b), |table|) == Stored(Items(a), |table|)
  {
    hide Items, Same, Distinct, Covers, Legible, Configured, Stored;
    var x, y := Items(a), Items(b);
    PermutedIsSame(x, y);
    SameLength(x, y);
    SameFits(table, disk, load, x, y);
    SameCovers(table, x, y);
    DistinctPermuted(x, y);
    SameStored(table, x, y);
  }

  lemma SameLength(a: seq<Item>, b: seq<Item>)
    requires Same(a, b)
    ensures |a| == |b|
  {}

  /** The lines that are not entries, in order. */
  function OtherLines(lines: seq<Line>): seq<Line> {
    if lines == [] then []
    else
      var before, last := OtherLines(lines[..|lines| - 1]), lines[|lines| - 1];
      if last.Entry? then before else before + [last]
  }

  /** Settings and legibility depend on those lines only. */
  lemma {:induction false} EntriesSetNothing(lines: seq<Line>)
    ensures Configured(lines) == Configured(OtherLines(lines))
    ensures Legible(lines) <==> Legible(OtherLines(lines))
  {
    hide Legible;
    if lines != [] {
      var front, last := lines[..|lines| - 1], lines[|lines| - 1];
      EntriesSetNothing(front);
      assert lines == front + [last];
      LegibleSnoc(front, last);
      if !last.Entry? {
        var others := OtherLines(front);
        assert (others + [last])[..|others|] == others;
        LegibleSnoc(others, last);
      }
    }
  }

  lemma LegibleSnoc(lines: seq<Line>, line: Line)
    ensures Legible(lines + [line]) <==> Legible(lines) && !line.Malformed? && !line.Unknown?
  {
    var more := lines + [line];
    assert more[|lines|] == line && forall i :: 0 <= i < |lines| ==> more[i] == lines[i];
  }

  /** Permuting the entry lines of a manifest, wherever they stand among the others, changes neither
      whether it is accepted nor its plan nor its totals. */
  lemma EntryOrderIrrelevant(table: Table, disk: Disk, load: bool, profile: Option<string>, a: seq<Line>, b: seq<Line>)
    requires multiset(Items(a)) == multiset(Items(b)) && OtherLines(a) == OtherLines(b)
    ensures Accepted(table, disk, load, profile, a) <==> Accepted(table, disk, load, profile, b)
    ensures Accepted(table, disk, load, profile, a) ==>
              && Stored(Items(a), |table|) == Stored(Items(b), |table|)
              && SlotTotals(Stored(Items(a), |table|)) == SlotTotals(Stored(Items(b), |table|))
  {
    EntriesSetNothing(a);
    EntriesSetNothing(b);
    if Accepted(table, disk, load, profile, a) {
      AcceptedPermuted(table, disk, load, profile, a, b);
    } else if Accepted(table, disk, load, profile, b) {
      AcceptedPermuted(table, disk, load, profile, b, a);
    }
  }

  // ----- verification

  class Plan {
    const slots: array<Option<Item>>
    var settings: Settings
    var totals: Totals
    var loadTotals: Totals
    var valid: bool

    constructor (n: nat)
      ensures slots.Length == n && fresh(slots) && forall s :: 0 <= s < n ==> slots[s] == None
      ensures settings == Settings(-1, "", -1) && totals == loadTotals == NOTHING && !valid
    {
      slots := new Option<Item>[n](i => None);
      settings, totals, loadTotals, valid := Settings(-1, "", -1), NOTHING, NOTHING, false;
    }
  }

  /** Verifies one entry and stores it in its slot. */
  method VerifyEntry(table: Table, disk: Disk, load: bool, known: bool, it: Item,
                     seen: array<bool>, plan: Plan) returns (rc: int)
    requires seen.Length == plan.slots.Length == |table|
    modifies seen, plan`totals, plan`loadTotals, plan.slots
    ensures rc == 0 || rc == EINVAL
    ensures rc == 0 <==> known && Fits(table, disk, load, it) && !old(seen[it.sequence])
    ensures seen[..] == if InTable(table, it) then old(seen[..])[it.sequence := true] else old(seen[..])
    ensures rc == 0 ==>
              && plan.slots[..] == old(plan.slots[..])[it.sequence := Some(it)]
              && plan.totals == Counted(old(plan.totals), it)
              && plan.loadTotals == if load then Counted(old(plan.loadTotals), it) else old(plan.loadTotals)
  {
    if it.sequence < 0 || it.sequence >= |table| {
      return EINVAL;
    }
    if seen[it.sequence] {
      return EINVAL;
    }
    seen[it.sequence] := true;
    var slot := table[it.sequence];
    if !known || it.calType != slot.calType || it.role != slot.role
        || it.payloadFlag != (if slot.payload then 1 else 0) {
      return EINVAL;
    }
    plan.totals := Counted(plan.totals, it);
    rc := 0;
    if !FileFits(disk, it.arg, true) {
      rc := EINVAL;
    }
    if !FileFits(disk, it.payload, slot.payload) {
      rc := EINVAL;
    }
    if load && rc == 0 {
      if !FileLoads(disk, it.arg, true) {
        rc := EINVAL;
      }
      if !FileLoads(disk, it.payload, slot.payload) {
        rc := EINVAL;
      }
      if rc == 0 {
        plan.loadTotals := Counted(plan.loadTotals, it);
      }
    }
    if rc == 0 {
      plan.slots[it.sequence] := Some(it);
    }
  }

  lemma ItemsSnoc(lines: seq<Line>, line: Line)
    ensures Items(lines + [line]) == if line.Entry? then Items(lines) + [line.item] else Items(lines)
    ensures Configured(lines + [line]) == Override(Configured(lines), line)
  {
    assert (lines + [line])[..|lines|] == lines;
  }

  /** Which lines keep a clean manifest clean. */
  lemma CleanSnoc(table: Table, disk: Disk, load: bool, lines: seq<Line>, line: Line)
    ensures Clean(table, disk, load, lines + [line]) <==>
            && Clean(table, disk, load, lines) && !line.Malformed? && !line.Unknown?
            && (line.Entry? ==> Fits(table, disk, load, line.item) && !Has(Items(lines), line.item.sequence))
  {
    hide Fits, Items, AllFit, Distinct, Has;
    ItemsSnoc(lines, line);
    LegibleSnoc(lines, line);
    if line.Entry? {
      AllFitSnoc(table, disk, load, Items(lines), line.item);
      DistinctSnoc(Items(lines), line.item);
    }
  }

  lemma AllFitSnoc(table: Table, disk: Disk, load: bool, items: seq<Item>, it: Item)
    ensures AllFit(table, disk, load, items + [it]) <==> AllFit(table, disk, load, items) && Fits(table, disk, load, it)
  {
    hide Fits;
    var more := items + [it];
    assert more[|items|] == it && forall i :: 0 <= i < |items| ==> more[i] == items[i];
  }

  lemma DistinctSnoc(items: seq<Item>, it: Item)
    ensures Distinct(items + [it]) <==> Distinct(items) && !Has(items, it.sequence)
  {
    var more := items + [it];
    assert more[|items|] == it && forall i :: 0 <= i < |items| ==> more[i] == items[i];
  }

  /** The plan after the items of a clean manifest, with the slots that were seen. */
  ghost predicate Tracks(table: Table, items: seq<Item>, slots: Slots, seen: seq<bool>, totals: Totals) {
    && AllInTable(table, items) && Distinct(items)
    && slots == Stored(items, |table|) && totals == SlotTotals(slots)
    && |seen| == |table| && forall s :: 0 <= s < |table| ==> seen[s] == slots[s].Some?
  }

  lemma TracksNone(table: Table)
    ensures Tracks(table, [], seq(|table|, i => None), seq(|table|, i => false), NOTHING)
  {
    TotalsOfNone(|table|);
  }

  lemma TracksNext(table: Table, items: seq<Item>, slots: Slots, seen: seq<bool>, totals: Totals, it: Item)
    requires Tracks(table, items, slots, seen, totals) && InTable(table, it) && !seen[it.sequence]
    ensures Tracks(table, items + [it], slots[it.sequence := Some(it)], seen[it.sequence := true], Counted(totals, it))
  {
    SeenIsHas(table, items, slots, seen, totals, it.sequence);
    FillSlot(slots, it.sequence, it);
    assert (items + [it])[..|items|] == items;
  }

  lemma SeenIsHas(table: Table, items: seq<Item>, slots: Slots, seen: seq<bool>, totals: Totals, s: nat)
    requires Tracks(table, items, slots, seen, totals) && s < |table|
    ensures seen[s] <==> Has(items, s)
  {
    StoredIs(items, |table|);
    if Has(items, s) {
      var i :| 0 <= i < |items| && items[i].sequence == s;
      assert slots[items[i].sequence].Some?;
    }
  }

  /** An entry, with all its fields or not. */
  predicate IsEntryLine(line: Line) {
    line.Entry? || line.Malformed?
  }

  function EntryLines(lines: seq<Line>): nat {
    if lines == [] then 0 else EntryLines(lines[..|lines| - 1]) + if IsEntryLine(lines[|lines| - 1]) then 1 else 0
  }

  lemma {:induction false} EntryLinesCounted(lines: seq<Line>)
    ensures EntryLines(lines) == |Where(lines, IsEntryLine)|
    ensures Legible(lines) ==> EntryLines(lines) == |Items(lines)|
  {
    hide Legible, Where;
    if lines == [] {
      WhereNone(lines, IsEntryLine);
    } else {
      var n, front := |lines| - 1, lines[..|lines| - 1];
      EntryLinesCounted(front);
      assert lines == front + [lines[n]];
      LegibleSnoc(front, lines[n]);
      WhereLast(lines, IsEntryLine);
    }
  }

  /** A slot is seen as soon as some entry names it, whether that entry is as planned or not. */
  ghost predicate Seen(items: seq<Item>, seen: seq<bool>) {
    forall s :: 0 <= s < |seen| ==> (seen[s] <==> Has(items, s))
  }

  lemma SeenCovers(table: Table, items: seq<Item>, seen: seq<bool>)
    requires Seen(items, seen) && |seen| == |table|
    ensures (forall s :: 0 <= s < |seen| ==> seen[s]) <==> Covers(table, items)
  {
    hide Has;
  }

  lemma TracksMeans(table: Table, items: seq<Item>, slots: Slots, seen: seq<bool>, totals: Totals)
    requires Tracks(table, items, slots, seen, totals)
    ensures AllInTable(table, items) && slots == Stored(items, |table|) && totals == SlotTotals(slots)
  {}

  lemma CleanLegible(table: Table, disk: Disk, load: bool, lines: seq<Line>)
    requires Clean(table, disk, load, lines)
    ensures Legible(lines)
  {}

  lemma NothingSet()
    ensures Configured([]) == Settings(-1, "", -1)
  {}

  lemma NoneSeen(n: nat)
    ensures Seen([], seq(n, i => false))
  {}

  lemma SeenNext(items: seq<Item>, seen: seq<bool>, it: Item)
    requires Seen(items, seen)
    ensures Seen(items + [it], if 0 <= it.sequence < |seen| then seen[it.sequence := true] else seen)
  {
    var more := items + [it];
    assert more[|items|] == it && forall i :: 0 <= i < |items| ==> more[i] == items[i];
    forall s | 0 <= s < |seen|
      ensures Has(more, s) <==> Has(items, s) || s == it.sequence
    {
      if Has(items, s) {
        var i :| 0 <= i < |items| && items[i].sequence == s;
        assert more[i].sequence == s;
      }
    }
  }

  /** Goes through the lines. `parsed` counts the entry lines. */
  method VerifyLines(table: Table, disk: Disk, load: bool, known: bool, lines: seq<Line>, seen: array<bool>, plan: Plan)
    returns (rc: int, parsed: nat)
    requires seen.Length == plan.slots.Length == |table| && plan.settings == Configured([])
    requires Tracks(table, [], plan.slots[..], seen[..], NOTHING) && plan.totals == plan.loadTotals == NOTHING
    requires Seen([], seen[..])
    modifies seen, plan, plan.slots
    ensures (rc == 0 || rc == EINVAL) && (rc == 0 ==> Clean(table, disk, load, lines))
    ensures parsed == EntryLines(lines) && Seen(Items(lines), seen[..])
    ensures (known && Clean(table, disk, load, lines) ==> rc == 0)
    ensures plan.settings == Configured(lines) && plan.valid == old(plan.valid)
    ensures rc == 0 ==>
              && parsed == |Items(lines)| && plan.loadTotals == (if load then plan.totals else NOTHING)
              && Tracks(table, Items(lines), plan.slots[..], seen[..], plan.totals)
  {
    hide Fits, Tracks, Clean, Counted, Configured, Override, Items, Seen;
    rc, parsed := 0, 0;
    CleanNone(table, disk, load);
    for k := 0 to |lines|
      invariant plan.settings == Configured(lines[..k]) && plan.valid == old(plan.valid) && (rc == 0 || rc == EINVAL)
      invariant parsed == EntryLines(lines[..k]) && Seen(Items(lines[..k]), seen[..])
      invariant rc == 0 ==> Clean(table, disk, load, lines[..k])
      invariant known && Clean(table, disk, load, lines[..k]) ==> rc == 0
      invariant rc == 0 ==> parsed == |Items(lines[..k])| && plan.loadTotals == (if load then plan.totals else NOTHING)
      invariant rc == 0 ==> Tracks(table, Items(lines[..k]), plan.slots[..], seen[..], plan.totals)
    {
      var line := lines[k];
      assert lines[..k + 1] == lines[..k] + [line];
      assert lines[..k + 1][..k] == lines[..k];
      ItemsSnoc(lines[..k], line);
      CleanSnoc(table, disk, load, lines[..k], line);
      plan.settings := Override(plan.settings, line);
      match line
      case Entry(it) =>
        rc := TakeEntry(table, disk, load, known, it, Items(lines[..k]), seen, plan, rc);
        parsed := parsed + 1;
      case Malformed =>
        rc, parsed := EINVAL, parsed + 1;
      case Unknown =>
        rc := EINVAL;
      case _ =>
    }
    assert lines[..|lines|] == lines;
  }

  lemma CleanNone(table: Table, disk: Disk, load: bool)
    ensures Clean(table, disk, load, []) && Items([]) == []
  {}

  /** An entry line: the manifest stays free of errors if the entry is as planned and its slot is new. */
  method TakeEntry(table: Table, disk: Disk, load: bool, known: bool, it: Item, ghost items: seq<Item>,
                   seen: array<bool>, plan: Plan, before: int) returns (rc: int)
    requires seen.Length == plan.slots.Length == |table| && (before == 0 || before == EINVAL) && Seen(items, seen[..])
    requires before == 0 ==> Tracks(table, items, plan.slots[..], seen[..], plan.totals)
    requires before == 0 ==> plan.loadTotals == if load then plan.totals else NOTHING
    modifies seen, plan`totals, plan`loadTotals, plan.slots
    ensures (rc == 0 || rc == EINVAL) && (before < 0 ==> rc < 0) && Seen(items + [it], seen[..])
    ensures before == 0 ==> (rc == 0 <==> known && Fits(table, disk, load, it) && !Has(items, it.sequence))
    ensures rc == 0 ==> plan.loadTotals == if load then plan.totals else NOTHING
    ensures rc == 0 ==> Tracks(table, items + [it], plan.slots[..], seen[..], plan.totals)
  {
    hide Planned, FilesFit, Tracks, Counted, Has;
    ghost var slots, marks, totals := plan.slots[..], seen[..], plan.totals;
    SeenNext(items, marks, it);
    var verdict := VerifyEntry(table, disk, load, known, it, seen, plan);
    if before == 0 && InTable(table, it) {
      SeenIsHas(table, items, slots, marks, totals, it.sequence);
    }
    rc := if verdict < 0 then EINVAL else before;
    if rc == 0 {
      TracksNext(table, items, slots, marks, totals, it);
    }
  }

  /** Whether all slots were seen. */
  method AllSeen(seen: array<bool>) returns (all: bool)
    ensures all <==> forall s :: 0 <= s < seen.Length ==> seen[s]
  {
    all := true;
    for s := 0 to seen.Length
      invariant all <==> forall k :: 0 <= k < s ==> seen[k]
    {
      if !seen[s] {
        all := false;
      }
    }
  }

  /** Verifies a manifest. It is marked valid exactly when it is accepted and could be read to its end,
      and then the plan holds each item in its slot, with totals that depend on the slots only. */
  method Verify(table: Table, disk: Disk, load: bool, profile: Option<string>, lines: seq<Line>, readFails: bool)
    returns (rc: int, plan: Plan)
    ensures fresh(plan) && fresh(plan.slots) && plan.slots.Length == |table|
    ensures rc == 0 <==> !readFails && Accepted(table, disk, load, profile, lines)
    ensures rc == 0 || rc == EIO || rc == EINVAL
    ensures rc == EIO <==>
            && readFails && profile.Some? && Configured(lines) == Settings(MANIFEST_VERSION, profile.value, |table|)
            && EntryLines(lines) == |table| && Covers(table, Items(lines))
    ensures plan.valid <==> rc == 0
    ensures plan.valid ==>
              && plan.slots[..] == Stored(Items(lines), |table|) && plan.totals == SlotTotals(plan.slots[..])
              && plan.loadTotals == (if load then plan.totals else NOTHING) && plan.settings == Configured(lines)
  {
    hide Clean, Items, Stored, SlotTotals, Seen, Covers, Tracks, EntryLines, Configured;
    plan := new Plan(|table|);
    var seen := new bool[|table|](i => false);
    assert seen[..] == seq(|table|, i => false) && plan.slots[..] == seq(|table|, i => None);
    TracksNone(table);
    EntryLinesCounted(lines);
    NoneSeen(|table|);
    NothingSet();
    var parsed: nat;
    rc, parsed := VerifyLines(table, disk, load, profile.Some?, lines, seen, plan);
    var clean := rc == 0;
    if readFails {
      rc := EIO;
    }
    if plan.settings.version != MANIFEST_VERSION || profile.None? || plan.settings.profile != profile.value {
      rc := EINVAL;
    }
    if plan.settings.count != |table| || parsed != |table| {
      rc := EINVAL;
    }
    var all := AllSeen(seen);
    if !all {
      rc := EINVAL;
    }
    SeenCovers(table, Items(lines), seen[..]);
    if clean {
      TracksMeans(table, Items(lines), plan.slots[..], seen[..], plan.totals);
      CleanLegible(table, disk, load, lines);
    }
    plan.valid := rc == 0;
  }

  // ----- the allocation and request plans

  datatype Request = Request(sequence: int, calType: int, length: nat)

  /** The items with a payload, in slot order. */
  function Flagged(slots: Slots): seq<Item> {
    if slots == [] then []
    else
      var last := slots[|slots| - 1];
      Flagged(slots[..|slots| - 1]) + if last.Some? && last.value.payloadFlag != 0 then [last.value] else []
  }

  function Requested(items: seq<Item>): seq<Request> {
    if items == [] then []
    else
      var last := items[|items| - 1];
      Requested(items[..|items| - 1]) +
      if last.payload.size > 0 then [Request(last.sequence, last.calType, last.payload.size)] else []
  }

  function Length(requests: seq<Request>): nat {
    if requests == [] then 0 else Length(requests[..|requests| - 1]) + requests[|requests| - 1].length
  }

  function PayloadBytes(items: seq<Item>): int {
    if items == [] then 0 else PayloadBytes(items[..|items| - 1]) + Positive(items[|items| - 1].payload.size)
  }

  method BuildAllocation(plan: Plan) returns (items: seq<Item>, total: int)
    ensures items == if plan.valid then Flagged(plan.slots[..]) else []
    ensures total == PayloadBytes(items)
  {
    hide Flagged, PayloadBytes, Positive, HasPayload;
    items, total := [], 0;
    NoneFlagged();
    NoBytes();
    if !plan.valid {
      return;
    }
    assert plan.slots[..0] == [];
    for k := 0 to plan.slots.Length
      invariant items == Flagged(plan.slots[..k]) && total == PayloadBytes(items)
    {
      ghost var now := plan.slots[..k + 1];
      assert now[..k] == plan.slots[..k] && now[k] == plan.slots[k];
      FlaggedStep(now);
      var slot := plan.slots[k];
      if slot.Some? && slot.value.payloadFlag != 0 {
        BytesSnoc(items, slot.value);
        items := items + [slot.value];
        total := total + Positive(slot.value.payload.size);
      }
    }
    assert plan.slots[..plan.slots.Length] == plan.slots[..];
  }

  lemma NoBytes()
    ensures PayloadBytes([]) == 0
  {}

  lemma BytesSnoc(items: seq<Item>, it: Item)
    ensures PayloadBytes(items + [it]) == PayloadBytes(items) + Positive(it.payload.size)
  {
    assert (items + [it])[..|items|] == items;
  }

  method BuildRequests(items: seq<Item>) returns (requests: seq<Request>, total: nat)
    ensures requests == Requested(items) && total == Length(requests)
  {
    requests, total := [], 0;
    for k := 0 to |items|
      invariant requests == Requested(items[..k]) && total == Length(requests)
    {
      assert items[..k + 1][..k] == items[..k];
      if items[k].payload.size > 0 {
        var request := Request(items[k].sequence, items[k].calType, items[k].payload.size);
        assert (requests + [request])[..|requests|] == requests;
        requests := requests + [request];
        total := total + request.length;
      }
    }
    assert items[..|items|] == items;
  }

  lemma {:induction false} RequestedLength(items: seq<Item>)
    ensures Length(Requested(items)) == PayloadBytes(items)
  {
    if items != [] {
      var n := |items| - 1;
      RequestedLength(items[..n]);
      var before, all := Requested(items[..n]), Requested(items);
      assert items[n].payload.size > 0 ==> all[..|all| - 1] == before;
      assert items[n].payload.size <= 0 ==> all == before;
    }
  }

  lemma {:induction false} RequestedAll(items: seq<Item>)
    requires forall it :: it in items ==> it.payload.size > 0
    ensures |Requested(items)| == |items|
    ensures forall i :: 0 <= i < |items| ==>
              Requested(items)[i] == Request(items[i].sequence, items[i].calType, items[i].payload.size)
  {
    if items != [] {
      RequestedAll(items[..|items| - 1]);
    }
  }

  lemma {:induction false} FlaggedTotals(slots: Slots)
    ensures PayloadBytes(Flagged(slots)) == SlotTotals(slots).payloadBytes
    ensures |Flagged(slots)| == SlotTotals(slots).payloadEntries
    ensures forall it :: it in Flagged(slots) ==> Some(it) in slots && it.payloadFlag != 0
  {
    if slots != [] {
      var n := |slots| - 1;
      FlaggedTotals(slots[..n]);
      var before, all := Flagged(slots[..n]), Flagged(slots);
      if slots[n].Some? && slots[n].value.payloadFlag != 0 {
        assert all[..|all| - 1] == before;
      } else {
        assert all == before;
      }
    }
  }

  /** The flagged items are those of just the slots with a payload, in slot order. */
  lemma {:induction false} FlaggedAre(slots: Slots) returns (at: seq<nat>)
    ensures Picks(slots, Flagged(slots), at, PayloadItem)
  {
    hide Picks, Flagged, HasPayload, PayloadItem;
    at := [];
    if slots == [] {
      NoneFlagged();
      PicksNone(slots, Flagged(slots), PayloadItem);
    } else {
      var n, front := |slots| - 1, slots[..|slots| - 1];
      at := FlaggedAre(front);
      FlaggedStep(slots);
      PicksNext(front, Flagged(front), at, PayloadItem, slots[n]);
      assert slots == front + [slots[n]];
      at := if PayloadItem(slots[n]).Some? then at + [n] else at;
    }
  }

  function PayloadItem(slot: Option<Item>): Option<Item> {
    if slot.Some? && HasPayload(slot) then Some(slot.value) else None
  }

  lemma NoneFlagged()
    ensures Flagged([]) == []
  {}

  lemma FlaggedStep(slots: Slots)
    requires slots != []
    ensures var front, last := Flagged(slots[..|slots| - 1]), slots[|slots| - 1];
            && Flagged(slots) == (if HasPayload(last) then front + [last.value] else front)
            && (PayloadItem(last) == if HasPayload(last) then Some(last.value) else None)
    ensures HasPayload(slots[|slots| - 1]) <==>
            slots[|slots| - 1].Some? && slots[|slots| - 1].value.payloadFlag != 0
  {}

  /** The requests of an accepted manifest: one for each slot of the table that has a payload, in slot order, with
      the slot's type and the size that the manifest gives for it. */
  lemma RequestsBySlot(table: Table, disk: Disk, load: bool, profile: Option<string>, lines: seq<Line>)
    returns (at: seq<nat>)
    requires Accepted(table, disk, load, profile, lines)
    ensures var slots := Stored(Items(lines), |table|);
            var requests := Requested(Flagged(slots));
            && |at| == |requests| && (forall i, j :: 0 <= i < j < |at| ==> at[i] < at[j])
            && (forall s :: 0 <= s < |table| ==> (s in at <==> table[s].payload))
            && (forall s :: 0 <= s < |table| ==> slots[s].Some? && slots[s].value in Items(lines))
            && forall k :: 0 <= k < |at| ==>
                 at[k] < |table| && Checked(disk, load, slots[at[k]].value.payload)
                 && requests[k] == Request(at[k], table[at[k]].calType, slots[at[k]].value.payload.size)
  {
    hide Items, Stored, Flagged, Requested, Configured, Covers, HasPayload, Legible;
    var items := Items(lines);
    var slots := Stored(items, |table|);
    SlotsPlanned(table, disk, load, profile, lines);
    at := FlaggedAre(slots);
    PickedSlots(slots, Flagged(slots), at);
    forall it | it in Flagged(slots)
      ensures it.payload.size > 0
    {
      var k :| 0 <= k < |at| && Flagged(slots)[k] == it;
      var s := at[k];
      assert HasPayload(slots[s]) && table[s].payload;
    }
    RequestedAll(Flagged(slots));
  }

  lemma PickedSlots(slots: Slots, items: seq<Item>, at: seq<nat>)
    requires Picks(slots, items, at, PayloadItem)
    ensures |at| == |items| && forall i, j :: 0 <= i < j < |at| ==> at[i] < at[j]
    ensures forall k :: 0 <= k < |at| ==>
              at[k] < |slots| && slots[at[k]].Some? && HasPayload(slots[at[k]]) && items[k] == slots[at[k]].value
    ensures forall s: nat :: s < |slots| && HasPayload(slots[s]) ==> s in at
  {
    forall s: nat | s < |slots| && HasPayload(slots[s])
      ensures s in at
    {
      assert PayloadItem(slots[s]).Some?;
    }
  }

  /** A file that is there with the size and digest the manifest gives, and was read if that was asked for. */
  predicate Checked(disk: Disk, load: bool, f: File) {
    f.path != "-" && f.size > 0 && f.sha != "-" && disk.verifies(f) && (load ==> disk.loads(f))
  }

  /** Each slot of an accepted manifest is filled as planned. */
  lemma SlotsPlanned(table: Table, disk: Disk, load: bool, profile: Option<string>, lines: seq<Line>)
    requires Accepted(table, disk, load, profile, lines)
    ensures var slots := Stored(Items(lines), |table|);
            forall s :: 0 <= s < |table| ==>
              && slots[s].Some? && slots[s].value in Items(lines) && slots[s].value.sequence == s
              && slots[s].value.calType == table[s].calType && slots[s].value.role == table[s].role
              && (HasPayload(slots[s]) <==> table[s].payload)
              && Checked(disk, load, slots[s].value.arg)
              && (table[s].payload ==> Checked(disk, load, slots[s].value.payload))
  {
    hide Items, Stored, Configured, Legible;
    var items := Items(lines);
    StoredIs(items, |table|);
    forall s | 0 <= s < |table|
      ensures var slots := Stored(items, |table|);
              && slots[s].Some? && slots[s].value in items && slots[s].value.sequence == s
              && slots[s].value.calType == table[s].calType && slots[s].value.role == table[s].role
              && (HasPayload(slots[s]) <==> table[s].payload)
              && Checked(disk, load, slots[s].value.arg)
              && (table[s].payload ==> Checked(disk, load, slots[s].value.payload))
    {
      assert Has(items, s);
      var i :| 0 <= i < |items| && items[i].sequence == s;
      assert Fits(table, disk, load, items[i]);
    }
  }

  lemma AcceptedSizes(table: Table, disk: Disk, load: bool, items: seq<Item>, it: Item)
    requires AllFit(table, disk, load, items) && Distinct(items)
    requires Some(it) in Stored(items, |table|) && it.payloadFlag != 0
    ensures it.payload.size > 0
  {
    StoredIs(items, |table|);
  }

  /** From the manifest to the requests: an accepted manifest gives one request for each entry with a
      payload, and together they ask for exactly the payload bytes that were verified. */
  method PlanRequests(table: Table, disk: Disk, load: bool, profile: Option<string>, lines: seq<Line>, readFails: bool)
    returns (rc: int, plan: Plan, requests: seq<Request>, total: nat)
    ensures rc == 0 <==> !readFails && Accepted(table, disk, load, profile, lines)
    ensures rc == 0 ==> total == plan.totals.payloadBytes && |requests| == plan.totals.payloadEntries
    ensures rc == 0 ==>
              var slots := Stored(Items(lines), |table|);
              plan.totals == SlotTotals(slots) && requests == Requested(Flagged(slots))
    ensures rc != 0 ==> requests == [] && total == 0
  {
    hide Fits, Distinct, Stored, Items, Flagged, Covers;
    rc, plan := Verify(table, disk, load, profile, lines, readFails);
    var items, bytes := BuildAllocation(plan);
    requests, total := BuildRequests(items);
    RequestedLength(items);
    if rc == 0 {
      FlaggedTotals(plan.slots[..]);
      forall it | it in items
        ensures it.payload.size > 0
      {
        AcceptedSizes(table, disk, load, Items(lines), it);
      }
      RequestedAll(items);
    }
  }

  // ----- the table of the internal speaker

  const SPEAKER: Table := [
    Slot(39, "CORE_CUSTOM_TOPOLOGIES_BYTE_EXACT_SET", true),
    Slot(20, "AFE_FB_SPKR_PROT_HEADER_REAL_HAL_1", false),
    Slot(20, "AFE_FB_SPKR_PROT_HEADER_REAL_HAL_2", false),
    Slot(13, "APP_META_HEADER", false),
    Slot(9, "AFE_TOPOLOGY_HEADER", false),
    Slot(11, "AUDPROC_COMMON_PAYLOAD", true),
    Slot(12, "VOL_HEADER_NO_PAYLOAD", false),
    Slot(15, "ASM_STREAM_PAYLOAD", true),
    Slot(23, "AFE_TOPOLOGY_ID_HEADER", false),
    Slot(16, "AFE_COMMON_PAYLOAD", true),
    Slot(21, "SPEAKER_VI_HEADER", false)
  ]

  /** How many of the first `n` slots have a payload. */
  function PayloadSlots(table: Table, n: nat): nat
    requires n <= |table|
  {
    if n == 0 then 0 else PayloadSlots(table, n - 1) + if table[n - 1].payload then 1 else 0
  }

  /** Slots filled as planned. */
  predicate Filled(table: Table, slots: Slots) {
    |slots| == |table| && forall s :: 0 <= s < |table| ==>
      slots[s].Some? && slots[s].value.payloadFlag == if table[s].payload then 1 else 0
  }

  lemma {:induction false} FilledTotals(table: Table, slots: Slots, n: nat)
    requires Filled(table, slots) && n <= |table|
    ensures SlotTotals(slots[..n]).entries == n && SlotTotals(slots[..n]).payloadEntries == PayloadSlots(table, n)
  {
    if n > 0 {
      FilledTotals(table, slots, n - 1);
      assert slots[..n][..n - 1] == slots[..n - 1];
    }
  }

  /** Every slot holds the item that names it, of the planned type, role and flag. */
  ghost predicate AsPlanned(table: Table, items: seq<Item>, slots: Slots) {
    |slots| == |table| && forall s :: 0 <= s < |slots| ==>
      slots[s].Some? && slots[s].value in items && slots[s].value.sequence == s && Planned(table, slots[s].value)
  }

  lemma PlannedFills(table: Table, items: seq<Item>, slots: Slots)
    requires AsPlanned(table, items, slots)
    ensures Filled(table, slots)
  {
    forall s | 0 <= s < |table|
      ensures slots[s].Some? && slots[s].value.payloadFlag == if table[s].payload then 1 else 0
    {
      assert Planned(table, slots[s].value);
    }
  }

  /** An accepted manifest fills every slot once, with an item of the planned type, role and flag. */
  lemma AcceptedFills(table: Table, disk: Disk, load: bool, profile: Option<string>, lines: seq<Line>)
    requires Accepted(table, disk, load, profile, lines)
    ensures AsPlanned(table, Items(lines), Stored(Items(lines), |table|))
    ensures SlotTotals(Stored(Items(lines), |table|)).entries == |table|
    ensures SlotTotals(Stored(Items(lines), |table|)).payloadEntries == PayloadSlots(table, |table|)
  {
    hide Items, FilesFit, Planned, Stored, SlotTotals, PayloadSlots, AsPlanned;
    var items := Items(lines);
    SlotsFit(table, disk, load, items);
    var slots := Stored(items, |table|);
    PlannedFills(table, items, slots);
    FilledTotals(table, slots, |table|);
    assert slots[..|table|] == slots;
  }

  lemma SlotsFit(table: Table, disk: Disk, load: bool, items: seq<Item>)
    requires AllFit(table, disk, load, items) && Distinct(items) && Covers(table, items)
    ensures AllInTable(table, items)
    ensures AsPlanned(table, items, Stored(items, |table|))
  {
    hide FilesFit, Planned;
    StoredIs(items, |table|);
    forall s | 0 <= s < |table|
      ensures Stored(items, |table|)[s].Some?
    {
      assert Has(items, s);
      var i :| 0 <= i < |items| && items[i].sequence == s;
      assert Stored(items, |table|)[items[i].sequence] == Some(items[i]);
    }
  }

  /** For the internal speaker: eleven entries, four of them with a payload, hence four requests. */
  method PlanSpeaker(disk: Disk, load: bool, profile: Option<string>, lines: seq<Line>, readFails: bool)
    returns (rc: int, requests: seq<Request>)
    ensures rc == 0 ==> |Items(lines)| == 11 && |requests| == 4
    ensures rc != 0 ==> requests == []
  {
    var plan, total;
    rc, plan, requests, total := PlanRequests(SPEAKER, disk, load, profile, lines, readFails);
    if rc == 0 {
      AcceptedFills(SPEAKER, disk, load, profile, lines);
      assert PayloadSlots(SPEAKER, 11) == 4;
    }
  }
}
