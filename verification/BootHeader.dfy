/** The Android boot image header, versions 0 to 2 (AOSP bootimg.h), and the part of the partition that
    the image it describes occupies. */
module BootHeader {
  import opened Bits

  const SECTOR: nat := 4096
  const KERNEL_SIZE: nat := 8
  const RAMDISK_SIZE: nat := 16
  const SECOND_SIZE: nat := 24
  const PAGE_SIZE: nat := 36
  const HEADER_VERSION: nat := 40
  const RECOVERY_DTBO_SIZE: nat := 1632
  const DTB_SIZE: nat := 1648
  /** "ANDROID!" */
  const BOOT_MAGIC: seq<Byte> := [0x41, 0x4e, 0x44, 0x52, 0x4f, 0x49, 0x44, 0x21]

  datatype Header = NoMagic | BadPageSize | Unsupported | Header(usedLen: nat)

  function ReadU32(b: seq<Byte>, off: nat): (n: nat)
    requires off + 4 <= |b|
    ensures n < 0x1_0000_0000
  {
    LoadLe32(b[off..off + 4])
  }

  function RoundUp(v: nat, a: nat): nat {
    if a == 0 then v else ((v + a - 1) / a) * a
  }

  /** Rounding up gives the least multiple that is not below its argument. */
  lemma RoundUpLeast(v: nat, a: nat)
    requires a > 0
    ensures RoundUp(v, a) % a == 0 && v <= RoundUp(v, a) < v + a
  {
    var q, r := (v + a - 1) / a, (v + a - 1) % a;
    assert v + a - 1 == a * q + r;
    assert q * a == a * q;
    MultipleOf(q, a);
  }

  lemma MultipleOf(q: nat, a: nat)
    requires a > 0
    ensures (q * a) % a == 0
  {
    var x := q * a;
    var d, r := q - x / a, x % a;
    assert x == a * (x / a) + r;
    assert a * d == r;
    if d > 0 {
      Grows(a, d);
    } else if d < 0 {
      Grows(a, -d);
    }
  }

  lemma Grows(a: nat, d: nat)
    requires d > 0
    ensures a * d >= a
  {}

  function UsedLen(h: seq<Byte>, page: nat, version: nat): nat
    requires |h| >= SECTOR
  {
    page + RoundUp(ReadU32(h, KERNEL_SIZE), page) + RoundUp(ReadU32(h, RAMDISK_SIZE), page)
    + RoundUp(ReadU32(h, SECOND_SIZE), page)
    + (if version >= 1 then RoundUp(ReadU32(h, RECOVERY_DTBO_SIZE), page) else 0)
    + (if version >= 2 then RoundUp(ReadU32(h, DTB_SIZE), page) else 0)
  }

  function ParseHeader(h: seq<Byte>): Header
    requires |h| >= SECTOR
  {
    var page, version := ReadU32(h, PAGE_SIZE), ReadU32(h, HEADER_VERSION);
    if h[..8] != BOOT_MAGIC then NoMagic
    else if page < 512 || page > 0x10_0000 then BadPageSize
    else if version > 2 then Unsupported
    else Header.Header(UsedLen(h, page, version))
  }

  /** The source adds the sections up in 64-bit arithmetic: no sum of six can wrap it, and the first
      sector is always counted as used. */
  lemma UsedLenFits(h: seq<Byte>)
    requires |h| >= SECTOR && ParseHeader(h).Header?
    ensures 512 <= ParseHeader(h).usedLen < 0x8_0000_0000
  {
    var page := ReadU32(h, PAGE_SIZE);
    RoundUpLeast(ReadU32(h, KERNEL_SIZE), page);
    RoundUpLeast(ReadU32(h, RAMDISK_SIZE), page);
    RoundUpLeast(ReadU32(h, SECOND_SIZE), page);
    RoundUpLeast(ReadU32(h, RECOVERY_DTBO_SIZE), page);
    RoundUpLeast(ReadU32(h, DTB_SIZE), page);
  }

  /** The sizes of the sections, as the header's fields give them. */
  function SectionSizes(h: seq<Byte>): (s: seq<nat>)
    requires |h| >= SECTOR
    ensures 3 <= |s| <= 5
  {
    var version := ReadU32(h, HEADER_VERSION);
    [ReadU32(h, KERNEL_SIZE), ReadU32(h, RAMDISK_SIZE), ReadU32(h, SECOND_SIZE)]
    + (if version >= 1 then [ReadU32(h, RECOVERY_DTBO_SIZE)] else [])
    + (if version >= 2 then [ReadU32(h, DTB_SIZE)] else [])
  }

  /** `next` is the first page boundary from `end` on. */
  predicate NextPage(end: nat, next: nat, page: nat)
    requires page > 0
  {
    next % page == 0 && end <= next < end + page
  }

  /** The image: a page for the header, then each section from the first page boundary after the one before it,
      and the used length is the page boundary after the last. */
  lemma UsedLenIsLayout(h: seq<Byte>) returns (starts: seq<nat>)
    requires |h| >= SECTOR && ParseHeader(h).Header?
    ensures var page, sizes := ReadU32(h, PAGE_SIZE), SectionSizes(h);
            && 512 <= page <= 0x10_0000 && |starts| == |sizes| + 1
            && starts[0] == page && starts[|sizes|] == ParseHeader(h).usedLen
            && forall i :: 0 <= i < |sizes| ==> NextPage(starts[i] + sizes[i], starts[i + 1], page)
  {
    hide ReadU32, NextPage, RoundUp;
    var page, sizes := ReadU32(h, PAGE_SIZE), SectionSizes(h);
    starts := [page];
    OnePage(page);
    for i := 0 to |sizes|
      invariant |starts| == i + 1 && starts[0] == page && starts[i] % page == 0
      invariant starts[i] == page + Rounded(sizes[..i], page)
      invariant forall k :: 0 <= k < i ==> NextPage(starts[k] + sizes[k], starts[k + 1], page)
    {
      assert sizes[..i + 1][..i] == sizes[..i];
      RoundedIsNext(starts[i], sizes[i], page);
      starts := starts + [starts[i] + RoundUp(sizes[i], page)];
    }
    assert sizes[..|sizes|] == sizes;
    UsedLenIsSum(h, page);
  }

  function Rounded(sizes: seq<nat>, page: nat): nat {
    if sizes == [] then 0 else Rounded(sizes[..|sizes| - 1], page) + RoundUp(sizes[|sizes| - 1], page)
  }

  lemma OnePage(page: nat)
    requires page > 0
    ensures page % page == 0
  {
    MultipleOf(1, page);
  }

  lemma RoundedIsNext(start: nat, size: nat, page: nat)
    requires page > 0 && start % page == 0
    ensures NextPage(start + size, start + RoundUp(size, page), page)
    ensures (start + RoundUp(size, page)) % page == 0
  {
    hide RoundUp;
    RoundUpLeast(size, page);
    var x, y := start / page, RoundUp(size, page) / page;
    assert start + RoundUp(size, page) == (x + y) * page;
    MultipleOf(x + y, page);
  }

  lemma UsedLenIsSum(h: seq<Byte>, page: nat)
    requires |h| >= SECTOR && page == ReadU32(h, PAGE_SIZE)
    ensures UsedLen(h, page, ReadU32(h, HEADER_VERSION)) == page + Rounded(SectionSizes(h), page)
  {
    hide ReadU32, RoundUp;
    var s := SectionSizes(h);
    assert s[..|s| - 1][..|s| - 2] == s[..|s| - 2];
    assert Rounded([], page) == 0;
    RoundedThree(s[0], s[1], s[2], page);
    if |s| == 3 {
      assert s == [s[0], s[1], s[2]];
    } else if |s| == 4 {
      assert s[..3] == [s[0], s[1], s[2]];
    } else {
      assert s[..4][..3] == [s[0], s[1], s[2]] && s[..4][3] == s[3];
    }
  }

  lemma RoundedThree(a: nat, b: nat, c: nat, page: nat)
    ensures Rounded([a, b, c], page) == RoundUp(a, page) + RoundUp(b, page) + RoundUp(c, page)
  {
    hide RoundUp;
    assert [a][..0] == [] && Rounded([a], page) == RoundUp(a, page);
    assert [a, b][..1] == [a] && Rounded([a, b], page) == RoundUp(a, page) + RoundUp(b, page);
    assert [a, b, c][..2] == [a, b];
  }
}
