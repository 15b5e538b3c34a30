/** Which changes of neighbouring bytes of a request the daemons are certain to notice. The checksum stands
    inside the frame, and the length that says how far it reaches is itself among the bytes that may change,
    so the answer depends on where the change is. */
module WireBursts {
  import opened Bits
  import opened Crc32
  import opened Frames
  import opened Tty

  /** Bytes that differ only between `at` and `at + width`. */
  predicate DifferWithin(a: seq<Byte>, b: seq<Byte>, at: nat, width: nat) {
    |a| == |b| && at + width <= |a| && a[..at] == b[..at] && a[at + width..] == b[at + width..]
  }

  /** The bytes of an intact request changed between `at` and `at + width`, and an intact request is read
      from them all the same, given what follows. */
  predicate Missed(f: Frame, bytes: seq<Byte>, rest: seq<Byte>, at: nat, width: nat) {
    && f.Valid() && Intact(REQUEST, f)
    && DifferWithin(Encode(REQUEST, f), bytes, at, width) && bytes != Encode(REQUEST, f)
    && Parse(bytes + rest).Some? && Intact(REQUEST, Parse(bytes + rest).value)
  }

  // ----- how a change of some bytes changes the checksum

  lemma StaysEmpty(n: nat)
    ensures BitRegister(ZERO, NoBits(n)) == ZERO
  {
    ThroughEqualBits(ZERO, n);
  }

  /** The registers of two messages that differ in one place differ by what the difference there, followed
      by zeros, leaves on an empty register: neither the other bits nor the starting register matter. */
  lemma RegisterDifference(reg: Word, head: seq<bool>, v: seq<bool>, w: seq<bool>, tail: seq<bool>)
    requires |v| == |w|
    ensures Xor(BitRegister(reg, head + v + tail), BitRegister(reg, head + w + tail)) ==
            BitRegister(ZERO, XorBits(v, w) + NoBits(|tail|))
  {
    hide BitRegister;
    var d := XorBits(v, w);
    BitRegisterLinear(reg, reg, head + v + tail, head + w + tail);
    assert Xor(reg, reg) == ZERO;
    DifferenceOfWindow(head, v, w, tail);
    assert NoBits(|head|) + d + NoBits(|tail|) == NoBits(|head|) + (d + NoBits(|tail|));
    BitRegisterConcat(ZERO, NoBits(|head|), d + NoBits(|tail|));
    StaysEmpty(|head|);
  }

  lemma ChecksumDifference(head: seq<Byte>, v: seq<Byte>, w: seq<Byte>, tail: seq<Byte>)
    requires |v| == |w|
    ensures Xor(Crc(head + v + tail), Crc(head + w + tail)) ==
            BitRegister(ZERO, XorBits(MessageBits(v), MessageBits(w)) + NoBits(8 * |tail|))
  {
    hide BitRegister, Register, MessageBits;
    var reg := Complement(ZERO);
    MessageBitsConcat(head + v, tail);
    MessageBitsConcat(head, v);
    MessageBitsConcat(head + w, tail);
    MessageBitsConcat(head, w);
    RegisterIsBitRegister(reg, head + v + tail);
    RegisterIsBitRegister(reg, head + w + tail);
    RegisterDifference(reg, MessageBits(head), MessageBits(v), MessageBits(w), MessageBits(tail));
    ComplementsDiffer(Register(reg, head + v + tail), Register(reg, head + w + tail));
  }

  lemma ComplementsDiffer(x: Word, y: Word)
    ensures Xor(Complement(x), Complement(y)) == Xor(x, y)
  {}

  // ----- the stored checksum

  /** All set bits lie between `lo` and `hi`. */
  predicate Inside(r: Word, lo: nat, hi: nat) {
    forall i :: 0 <= i < 32 && (i < lo || hi <= i) ==> !r[i]
  }

  /** The byte with these bits. */
  function Value(b: seq<bool>): (n: Byte)
    requires |b| == 8
    ensures ToBits(n, 8) == b
  {
    ByteWidth();
    ToFromBits(b);
    FromBits(b)
  }

  lemma StoredByte(w: Word, v: Word, j: nat)
    requires j < 4
    ensures StoreWord(w)[j] == StoreWord(v)[j] <==> w[8 * j..8 * j + 8] == v[8 * j..8 * j + 8]
  {
    LoadedByte(StoreWord(w), j);
    LoadedByte(StoreWord(v), j);
    ByteWidth();
    if w[8 * j..8 * j + 8] == v[8 * j..8 * j + 8] {
      ToBitsInjective(StoreWord(w)[j], StoreWord(v)[j], 8);
    }
  }

  lemma LoadedByte(b: seq<Byte>, j: nat)
    requires |b| == 4 && j < 4
    ensures LoadWord(b)[8 * j..8 * j + 8] == ToBits(b[j], 8)
  {
    hide ToBits;
  }

  /** Words whose stored bytes differ only between `k` and `l` differ only in the bits of those bytes. */
  lemma StoredWindow(w: Word, v: Word, k: nat, l: nat)
    requires k <= l <= 4
    ensures DifferWithin(StoreWord(w), StoreWord(v), k, l - k) <==> Inside(Xor(w, v), 8 * k, 8 * l)
  {
    hide StoreWord, LoadWord;
    var a, b, d := StoreWord(w), StoreWord(v), Xor(w, v);
    if DifferWithin(a, b, k, l - k) {
      forall i | 0 <= i < 32 && (i < 8 * k || 8 * l <= i)
        ensures !d[i]
      {
        var j := i / 8;
        assert j < k ==> a[j] == a[..k][j] == b[..k][j] == b[j];
        assert j >= l ==> a[j] == a[l..][j - l] == b[l..][j - l] == b[j];
        StoredByte(w, v, j);
        assert w[i] == w[8 * j..8 * j + 8][i - 8 * j] && v[i] == v[8 * j..8 * j + 8][i - 8 * j];
      }
    }
    if Inside(d, 8 * k, 8 * l) {
      forall j | 0 <= j < 4 && (j < k || l <= j)
        ensures a[j] == b[j]
      {
        assert forall i :: 8 * j <= i < 8 * j + 8 ==> !d[i] && w[i] == v[i];
        assert w[8 * j..8 * j + 8] == v[8 * j..8 * j + 8];
        StoredByte(w, v, j);
      }
    }
  }

  // ----- windows of a frame

  /** The bytes of a frame, from what its checksum covers and the stored checksum. */
  function Laid(data: seq<Byte>, sum: seq<Byte>): seq<Byte>
    requires |data| >= 12 && |sum| == 4
  {
    data[..12] + sum + data[12..]
  }

  /** How many of the first `n` bytes of a frame are covered bytes, and how many are checksum bytes. */
  function DataBytes(n: nat): nat {
    if n <= 12 then n else if n <= 16 then 12 else n - 4
  }

  function SumBytes(n: nat): (k: nat)
    ensures k <= 4 && k + DataBytes(n) == n
  {
    if n <= 12 then 0 else if n <= 16 then n - 12 else 4
  }

  predicate DifferInBoth(data: seq<Byte>, sum: seq<Byte>, data': seq<Byte>, sum': seq<Byte>, at: nat, end: nat)
    requires at <= end
  {
    && DifferWithin(data, data', DataBytes(at), DataBytes(end) - DataBytes(at))
    && DifferWithin(sum, sum', SumBytes(at), SumBytes(end) - SumBytes(at))
  }

  lemma SplitWindow(data: seq<Byte>, sum: seq<Byte>, data': seq<Byte>, sum': seq<Byte>, at: nat, end: nat)
    requires |data| == |data'| >= 12 && |sum| == |sum'| == 4 && at <= end <= |data| + 4
    ensures DifferWithin(Laid(data, sum), Laid(data', sum'), at, end - at) <==>
            DifferInBoth(data, sum, data', sum', at, end)
  {
    hide DifferWithin;
    var a, b := Laid(data, sum), Laid(data', sum');
    Pointwise(a, b, at, end);
    Pointwise(data, data', DataBytes(at), DataBytes(end));
    Pointwise(sum, sum', SumBytes(at), SumBytes(end));
    SplitPointwise(data, sum, data', sum', at, end);
  }

  lemma SplitPointwise(data: seq<Byte>, sum: seq<Byte>, data': seq<Byte>, sum': seq<Byte>, at: nat, end: nat)
    requires |data| == |data'| >= 12 && |sum| == |sum'| == 4 && at <= end <= |data| + 4
    ensures SameOutside(Laid(data, sum), Laid(data', sum'), at, end) <==>
            SameOutside(data, data', DataBytes(at), DataBytes(end)) &&
            SameOutside(sum, sum', SumBytes(at), SumBytes(end))
  {
    var a, b := Laid(data, sum), Laid(data', sum');
    assert forall i :: 0 <= i < 12 ==> data[i] == a[i] && data'[i] == b[i];
    assert forall i :: 0 <= i < 4 ==> sum[i] == a[i + 12] && sum'[i] == b[i + 12];
    assert forall i :: 12 <= i < |data| ==> data[i] == a[i + 4] && data'[i] == b[i + 4];
  }

  predicate SameOutside(a: seq<Byte>, b: seq<Byte>, at: nat, end: nat)
    requires |a| == |b|
  {
    forall i :: 0 <= i < |a| && (i < at || end <= i) ==> a[i] == b[i]
  }

  lemma Pointwise(a: seq<Byte>, b: seq<Byte>, at: nat, end: nat)
    requires |a| == |b| && at <= end <= |a|
    ensures DifferWithin(a, b, at, end - at) <==> SameOutside(a, b, at, end)
  {
    if DifferWithin(a, b, at, end - at) {
      forall i | 0 <= i < |a| && (i < at || end <= i)
        ensures a[i] == b[i]
      {
        assert i < at ==> a[i] == a[..at][i] == b[..at][i] == b[i];
        assert i >= end ==> a[i] == a[end..][i - end] == b[end..][i - end] == b[i];
      }
    }
  }

  // ----- changes that the checksum hides

  predicate HiddenBy(d: seq<bool>, data: nat, lo: nat, hi: nat, after: nat) {
    |d| == 8 * data && !Clear(d) && Inside(BitRegister(ZERO, d + NoBits(8 * after)), lo, hi)
  }

  /** Some difference of `data` bytes, with `after` equal bytes behind it, changes no bit of the checksum
      outside bits `lo` to `hi`. */
  ghost predicate Cancels(data: nat, lo: nat, hi: nat, after: nat) {
    exists d :: HiddenBy(d, data, lo, hi, after)
  }

  /** The covered bytes of a request, and its stored checksum. */
  function Data(f: Frame): (s: seq<Byte>)
    requires f.Valid()
    ensures |s| == 12 + |f.payload|
  {
    Prefix(REQUEST, f.sequence, |f.payload|) + f.payload
  }

  lemma LaidOut(f: Frame)
    requires f.Valid()
    ensures Encode(REQUEST, f) == Laid(Data(f), StoreWord(f.crc))
  {
    hide Prefix, StoreWord;
    var p := Prefix(REQUEST, f.sequence, |f.payload|);
    assert Data(f)[..12] == p && Data(f)[12..] == f.payload;
  }

  /** Whether `Cancels` holds of the part of a frame between `at` and `end`. */
  ghost predicate Hides(at: nat, end: nat, length: nat)
    requires at <= end <= HEADER_SIZE + length
  {
    Cancels(DataBytes(end) - DataBytes(at), 8 * SumBytes(at), 8 * SumBytes(end), 12 + length - DataBytes(end))
  }

  lemma SumDifference(a: seq<Byte>, b: seq<Byte>, p: nat, q: nat)
    requires p <= q <= |a| && DifferWithin(a, b, p, q - p)
    ensures Xor(Crc(a), Crc(b)) ==
        BitRegister(ZERO, XorBits(MessageBits(a[p..q]), MessageBits(b[p..q])) + NoBits(8 * (|a| - q)))
  {
    hide BitRegister, Crc, MessageBits;
    assert a == a[..p] + a[p..q] + a[q..] && b == a[..p] + b[p..q] + a[q..];
    ChecksumDifference(a[..p], a[p..q], b[p..q], a[q..]);
  }

  /** Two different intact requests of one length whose bytes differ only in a window show that it hides. */
  lemma HiddenChange(f: Frame, g: Frame, at: nat, end: nat)
    requires f.Valid() && g.Valid() && |f.payload| == |g.payload| && at <= end
    requires Intact(REQUEST, f) && Intact(REQUEST, g)
    requires DifferWithin(Encode(REQUEST, f), Encode(REQUEST, g), at, end - at)
    requires Encode(REQUEST, f) != Encode(REQUEST, g)
    ensures Hides(at, end, |f.payload|)
  {
    hide Crc, Prefix, StoreWord, MessageBits, BitRegister, Encode, DifferWithin;
    var a, b, p, q := Data(f), Data(g), DataBytes(at), DataBytes(end);
    LaidOut(f);
    LaidOut(g);
    WithinLength(Encode(REQUEST, f), Encode(REQUEST, g), at, end);
    SplitWindow(a, StoreWord(f.crc), b, StoreWord(g.crc), at, end);
    SumDifference(a, b, p, q);
    StoredWindow(f.crc, g.crc, SumBytes(at), SumBytes(end));
    var d := XorBits(MessageBits(a[p..q]), MessageBits(b[p..q]));
    if Clear(d) {
      XorClear(MessageBits(a[p..q]), MessageBits(b[p..q]));
      MessageBitsInjective(a[p..q], b[p..q]);
      SameWindow(a, b, p, q);
      assert false;
    }
    assert HiddenBy(d, q - p, 8 * SumBytes(at), 8 * SumBytes(end), 12 + |f.payload| - q);
  }

  lemma WithinLength(a: seq<Byte>, b: seq<Byte>, at: nat, end: nat)
    requires at <= end && DifferWithin(a, b, at, end - at)
    ensures end <= |a|
  {}

  lemma SameWindow(a: seq<Byte>, b: seq<Byte>, p: nat, q: nat)
    requires p <= q && DifferWithin(a, b, p, q - p) && a[p..q] == b[p..q]
    ensures a == b
  {
    assert a == a[..p] + a[p..q] + a[q..] && b == b[..p] + b[p..q] + b[q..];
  }

  /** The bytes with these bits. */
  function BytesOf(bits: seq<bool>, n: nat): (s: seq<Byte>)
    requires |bits| == 8 * n
    ensures |s| == n
    decreases n
  {
    if n == 0 then [] else BytesOf(bits[..8 * n - 8], n - 1) + [Value(bits[8 * n - 8..])]
  }

  lemma {:induction false} BitsOfBytes(bits: seq<bool>, n: nat)
    requires |bits| == 8 * n
    ensures MessageBits(BytesOf(bits, n)) == bits
    decreases n
  {
    hide MessageBits, Value, ToBits;
    if n == 0 {
      NoBytes();
    } else {
      var front, last := bits[..8 * n - 8], bits[8 * n - 8..];
      BitsOfBytes(front, n - 1);
      MessageBitsSnoc(BytesOf(front, n - 1), Value(last));
      assert bits == front + last;
    }
  }

  /** Covered bytes that keep everything before the sequence number are those of a request. */
  function Rebuilt(data: seq<Byte>, length: nat): (g: Frame)
    requires length <= MAX_PAYLOAD && |data| == 12 + length
    requires data[..8] == MAGIC + [VERSION, REQUEST] + StoreLe16(length)
    ensures g.Valid() && Intact(REQUEST, g) && |g.payload| == length && Data(g) == data
  {
    var n := LoadLe32(data[8..12]);
    Le32Unique(data[8..12], StoreLe32(n));
    assert data == data[..8] + data[8..12] + data[12..];
    Frame(n, data[12..], Crc(data))
  }

  lemma FrontKept(f: Frame, b: seq<Byte>, p: nat)
    requires f.Valid() && 8 <= p <= |Data(f)| && |b| >= p && b[..p] == Data(f)[..p]
    ensures b[..8] == MAGIC + [VERSION, REQUEST] + StoreLe16(|f.payload|)
  {
    hide StoreLe16, StoreLe32;
    assert b[..8] == b[..p][..8] == Data(f)[..p][..8] == Data(f)[..8];
  }

  /** A difference that a window hides, laid over the covered bytes of a request. */
  lemma Altered(f: Frame, d: seq<bool>, p: nat, q: nat) returns (g: Frame)
    requires f.Valid() && 8 <= p <= q <= |Data(f)| && |d| == 8 * (q - p) && !Clear(d)
    ensures g.Valid() && Intact(REQUEST, g) && |g.payload| == |f.payload| && Data(g) != Data(f)
    ensures DifferWithin(Data(f), Data(g), p, q - p)
    ensures Xor(Crc(Data(f)), g.crc) == BitRegister(ZERO, d + NoBits(8 * (|Data(f)| - q)))
  {
    hide Crc, StoreWord, MessageBits, BitRegister, DifferWithin, Data, StoreLe16;
    var a := Data(f);
    var v := MessageBits(a[p..q]);
    var w := BytesOf(XorBits(v, d), q - p);
    BitsOfBytes(XorBits(v, d), q - p);
    var b := a[..p] + w + a[q..];
    FlippedTwice(v, d);
    Replaced(a, p, q, w);
    FrontKept(f, b, p);
    g := Rebuilt(b, |f.payload|);
    SumDifference(a, b, p, q);
    assert v != XorBits(v, d) by { XorClear(v, XorBits(v, d)); }
    CrcOf(g);
  }

  lemma CrcOf(g: Frame)
    requires g.Valid()
    ensures Intact(REQUEST, g) <==> g.crc == Crc(Data(g))
  {
    hide Crc, Prefix;
  }

  /** In a window that hides, every intact request of that length has an undetected change. */
  lemma ChangeHidden(f: Frame, at: nat, end: nat, rest: seq<Byte>) returns (bytes: seq<Byte>)
    requires f.Valid() && Intact(REQUEST, f) && 8 <= at <= end <= Length(f)
    requires Hides(at, end, |f.payload|)
    ensures Missed(f, bytes, rest, at, end - at)
  {
    hide Crc, StoreWord, BitRegister, Encode, DifferWithin, Data, Parse, Inside, Intact;
    var p, q := DataBytes(at), DataBytes(end);
    var d :| HiddenBy(d, q - p, 8 * SumBytes(at), 8 * SumBytes(end), 12 + |f.payload| - q);
    var g := Altered(f, d, p, q);
    CrcOf(f);
    StoredWindow(f.crc, g.crc, SumBytes(at), SumBytes(end));
    LaidOut(f);
    LaidOut(g);
    SplitWindow(Data(f), StoreWord(f.crc), Data(g), StoreWord(g.crc), at, end);
    bytes := Encode(REQUEST, g);
    ParseEncoded(g, rest);
    ParseEncoded(f, rest);
  }

  lemma FlippedTwice(v: seq<bool>, d: seq<bool>)
    requires |v| == |d|
    ensures XorBits(v, XorBits(v, d)) == d
  {}

  lemma Replaced(a: seq<Byte>, p: nat, q: nat, w: seq<Byte>)
    requires p <= q <= |a| && |w| == q - p
    ensures var b := a[..p] + w + a[q..]; DifferWithin(a, b, p, q - p) && b[p..q] == w && b[..p] == a[..p]
  {}

  // ----- windows that hide nothing

  /** A window of at most four covered bytes, or of checksum bytes only, hides nothing. */
  lemma OneSided(at: nat, end: nat, length: nat)
    requires at <= end <= HEADER_SIZE + length
    requires end <= 12 || 12 <= at <= end <= 16 || 16 <= at
    requires end <= at + 4
    ensures !Hides(at, end, length)
  {
    hide BitRegister;
    var data, lo, hi, after :=
      DataBytes(end) - DataBytes(at), 8 * SumBytes(at), 8 * SumBytes(end), 12 + length - DataBytes(end);
    forall d | |d| == 8 * data && !Clear(d)
      ensures !HiddenBy(d, data, lo, hi, after)
    {
      assert lo == hi;
      BitRegisterConcat(ZERO, d, NoBits(8 * after));
      ThroughEqualBits(BitRegister(ZERO, d), 8 * after);
      ShortBurst(ZERO, d);
    }
  }

  /** A register whose set bits are its first `n` is emptied by feeding it those bits. */
  lemma Emptied(r: Word, n: nat)
    requires n <= 32 && Inside(r, 0, n)
    ensures Clear(BitRegister(r, r[..n]))
  {
    hide BitRegister, Steps;
    FeedingBitByBit(r, r[..n]);
    StepsClear(n, FedAll(r, r[..n]));
  }

  /** Without a payload, no window of at most four bytes behind the length field hides anything. */
  lemma EmptyPayload(at: nat, end: nat)
    requires 8 <= at <= end <= HEADER_SIZE && end <= at + 4
    ensures !Hides(at, end, 0)
  {
    hide BitRegister;
    if end <= 12 || 12 <= at {
      OneSided(at, end, 0);
    } else {
      var data, n := 12 - at, 8 * (end - 12);
      forall d | |d| == 8 * data && !Clear(d)
        ensures !HiddenBy(d, data, 0, n, 0)
      {
        assert d + NoBits(0) == d;
        var r := BitRegister(ZERO, d);
        if Inside(r, 0, n) {
          var i :| 0 <= i < |d| && d[i];
          assert (d + r[..n])[i];
          Emptied(r, n);
          BitRegisterConcat(ZERO, d, r[..n]);
          ShortBurst(ZERO, d + r[..n]);
        }
      }
    }
  }

  // ----- any register can be reached by four bytes

  /** The one word that a step takes to `w`. */
  function Unstep(w: Word): (u: Word)
    ensures BitStep(u) == w
  {
    if w[31] then
      var u := [true] + Xor(w, POLYNOMIAL)[..31];
      assert Xor(Shifted(u), POLYNOMIAL) == w;
      u
    else
      var u := [false] + w[..31];
      assert Shifted(u) == w;
      u
  }

  function Unsteps(n: nat, w: Word): (u: Word)
    ensures Steps(n, u) == w
  {
    if n == 0 then w else Unstep(Unsteps(n - 1, w))
  }

  /** Every message has an ending of four bytes that gives it the checksum `goal`. */
  lemma Ending(head: seq<Byte>, goal: Word) returns (q: seq<Byte>)
    ensures |q| == 4 && Crc(head + q) == goal
  {
    hide Register, BitRegister, Steps, StoreWord, LoadWord, Unsteps;
    var reg, want := Register(Complement(ZERO), head), Unsteps(32, Complement(goal));
    var w := Xor(reg, want);
    q := StoreWord(w);
    FourBytes(q);
    RegisterConcat(Complement(ZERO), head, q);
    RegisterIsBitRegister(reg, q);
    FeedingBitByBit(reg, w);
    assert FedAll(reg, w) == want;
    assert Complement(Complement(goal)) == goal;
  }

  // ----- a changed length field

  /** A request's bytes with another number in the length field. */
  function Relabelled(f: Frame, n: nat): (bytes: seq<Byte>)
    requires f.Valid() && n <= MAX_PAYLOAD
    ensures |bytes| == Length(f)
  {
    Prefix(REQUEST, f.sequence, n) + StoreWord(f.crc) + f.payload
  }

  lemma RelabelledByte(f: Frame, n: nat, k: nat)
    requires f.Valid() && n <= MAX_PAYLOAD && k <= 1
    requires StoreLe16(n)[1 - k] == StoreLe16(|f.payload|)[1 - k]
    ensures DifferWithin(Encode(REQUEST, f), Relabelled(f, n), 6 + k, 1)
  {
    hide StoreWord, StoreLe16, StoreLe32;
    Pointwise(Encode(REQUEST, f), Relabelled(f, n), 6 + k, 7 + k);
  }

  function Zeros(n: nat): (z: seq<Byte>)
    ensures |z| == n
  {
    seq(n, _ => 0)
  }

  /** A request that stays intact when its length field says `n`, at least four bytes less than it has. */
  lemma Shortened(sequence: nat, length: nat, n: nat) returns (f: Frame)
    requires sequence < U32_LIMIT && n + 4 <= length <= MAX_PAYLOAD
    ensures f.Valid() && Intact(REQUEST, f) && f.sequence == sequence && |f.payload| == length
    ensures var g := Parse(Relabelled(f, n) + []); g.Some? && |g.value.payload| == n && Intact(REQUEST, g.value)
  {
    hide Crc, Prefix, StoreWord, Parse;
    var front := Zeros(length - 4);
    var crc := Checksum(REQUEST, sequence, front[..n]);
    var q := Ending(Prefix(REQUEST, sequence, length) + front, crc);
    f := Frame(sequence, front + q, crc);
    assert Prefix(REQUEST, sequence, length) + front + q == Data(f);
    CrcOf(f);
    var g := Frame(sequence, front[..n], crc);
    ParseEncoded(g, f.payload[n..]);
    assert f.payload == front[..n] + f.payload[n..];
    assert Relabelled(f, n) + [] == Encode(REQUEST, g) + f.payload[n..];
  }

  /** Every intact request stays intact, before a suitable continuation, when its length field says `n`,
      at least four bytes more than it has. */
  lemma Lengthened(f: Frame, n: nat) returns (rest: seq<Byte>)
    requires f.Valid() && Intact(REQUEST, f) && |f.payload| + 4 <= n <= MAX_PAYLOAD
    ensures var g := Parse(Relabelled(f, n) + rest); g.Some? && |g.value.payload| == n && Intact(REQUEST, g.value)
  {
    hide Crc, Prefix, StoreWord, Parse;
    var front := f.payload + Zeros(n - 4 - |f.payload|);
    var q := Ending(Prefix(REQUEST, f.sequence, n) + front, f.crc);
    var g := Frame(f.sequence, front + q, f.crc);
    assert Prefix(REQUEST, f.sequence, n) + front + q == Data(g);
    CrcOf(g);
    rest := Zeros(n - 4 - |f.payload|) + q;
    ParseEncoded(g, []);
    assert Relabelled(f, n) + rest == Encode(REQUEST, g) + [];
  }

  /** Another length, at least four away, whose field differs from this one's in byte `k` only. */
  lemma OtherLength(length: nat, k: nat) returns (n: nat)
    requires length <= MAX_PAYLOAD && k <= 1 && (k == 0 ==> length < MAX_PAYLOAD)
    ensures n <= MAX_PAYLOAD && (n + 4 <= length || length + 4 <= n)
    ensures StoreLe16(n)[1 - k] == StoreLe16(length)[1 - k]
  {
    hide StoreLe16;
    var b := StoreLe16(length);
    var lo: int, hi: int := b[0], b[1];
    if k == 0 {
      var lo' := if lo < 4 then lo + 4 else lo - 4;
      n := lo' + 256 * hi;
      Le16Unique([lo', hi], StoreLe16(n));
    } else {
      var hi' := if hi == 0 then 1 else 0;
      n := lo + 256 * hi';
      Le16Unique([lo, hi'], StoreLe16(n));
    }
  }

  /** For every sequence number and payload length there is an intact request that a change of either byte
      of its length field can leave intact; only the low byte of the largest length is safe. */
  lemma LengthByteMissed(sequence: nat, length: nat, k: nat)
    returns (f: Frame, bytes: seq<Byte>, rest: seq<Byte>)
    requires sequence < U32_LIMIT && length <= MAX_PAYLOAD && k <= 1 && (k == 0 ==> length < MAX_PAYLOAD)
    ensures f.sequence == sequence && |f.payload| == length
    ensures Missed(f, bytes, rest, 6 + k, 1)
  {
    hide Parse, Encode, Intact, Relabelled, StoreLe16, DifferWithin;
    var n := OtherLength(length, k);
    if n < length {
      f := Shortened(sequence, length, n);
      rest := [];
    } else {
      f := SameRequest(sequence, length);
      rest := Lengthened(f, n);
    }
    bytes := Relabelled(f, n);
    RelabelledByte(f, n, k);
    ParseEncoded(f, rest);
  }

  lemma SameRequest(sequence: nat, length: nat) returns (f: Frame)
    requires sequence < U32_LIMIT && length <= MAX_PAYLOAD
    ensures f.Valid() && Intact(REQUEST, f) && f.sequence == sequence && |f.payload| == length
  {
    f := Frame(sequence, Zeros(length), Checksum(REQUEST, sequence, Zeros(length)));
  }

  // ----- the exact condition

  /** Where every change is noticed: in the magic, version and kind; in those and the low length byte if the
      payload is full; and in every window behind the length field that hides nothing. A window that is empty or
      does not fit the frame has no changes. */
  ghost predicate Safe(at: nat, width: nat, length: nat) {
    var end := at + width;
    if width == 0 || end > HEADER_SIZE + length || end <= 6 then true
    else if end == 7 then length == MAX_PAYLOAD
    else at >= 8 && !Hides(at, end, length)
  }

  lemma KeptWhole(f: Frame, bytes: seq<Byte>, rest: seq<Byte>, at: nat, width: nat) returns (g: Frame)
    requires Missed(f, bytes, rest, at, width) && LoadLe16(bytes[6..8]) == |f.payload|
    ensures g.Valid() && Intact(REQUEST, g) && |g.payload| == |f.payload| && bytes == Encode(REQUEST, g)
  {
    hide Intact, WellFormed, Encode;
    g := Parse(bytes + rest).value;
    assert (bytes + rest)[6..8] == bytes[6..8];
    EncodeParsed(bytes + rest);
    assert (bytes + rest)[..|bytes|] == bytes;
  }

  lemma EncodedFront(f: Frame)
    requires f.Valid()
    ensures Encode(REQUEST, f)[..8] == MAGIC + [VERSION, REQUEST] + StoreLe16(|f.payload|)
    ensures Encode(REQUEST, f)[6..8] == StoreLe16(|f.payload|)
  {
    hide StoreLe16, StoreLe32, StoreWord;
    var e := Encode(REQUEST, f);
    assert e[6..8] == e[..8][6..8];
  }

  /** Nothing is missed in the magic, version and kind, nor with them in the low length byte of a full payload. */
  lemma FrontSafe(f: Frame, bytes: seq<Byte>, rest: seq<Byte>, at: nat, width: nat)
    requires at + width <= 6 || (at + width == 7 && |f.payload| == MAX_PAYLOAD)
    ensures !Missed(f, bytes, rest, at, width)
  {
    hide Intact, Encode, Parse, StoreLe16, DifferWithin;
    if Missed(f, bytes, rest, at, width) {
      var e := Encode(REQUEST, f);
      EncodedFront(f);
      FullLength(f, bytes, rest, at, width);
      var g := KeptWhole(f, bytes, rest, at, width);
      EncodedFront(g);
      BeyondFront(e, bytes, at, width);
      assert false;
    }
  }

  lemma BeyondFront(a: seq<Byte>, b: seq<Byte>, at: nat, width: nat)
    requires DifferWithin(a, b, at, width) && at + width <= 8 <= |a| && a[..8] == b[..8]
    ensures a == b
  {
    assert a == a[..8] + a[at + width..][8 - at - width..] && b == b[..8] + b[at + width..][8 - at - width..];
  }

  lemma FullLength(f: Frame, bytes: seq<Byte>, rest: seq<Byte>, at: nat, width: nat)
    requires at + width <= 6 || (at + width == 7 && |f.payload| == MAX_PAYLOAD)
    requires Missed(f, bytes, rest, at, width)
    ensures LoadLe16(bytes[6..8]) == |f.payload|
  {
    hide Intact, Encode, StoreLe16;
    var e, s := Encode(REQUEST, f), bytes + rest;
    EncodedFront(f);
    Pointwise(e, bytes, at, at + width);
    assert LoadLe16(s[..16][6..8]) <= MAX_PAYLOAD;
    assert s[..16][6..8] == bytes[6..8];
    assert bytes[7] == e[7] == e[6..8][1] && bytes[6..8][1] == bytes[7];
    if at + width <= 6 {
      assert bytes[6..8] == e[6..8];
    }
  }

  /** What is missed behind the length field is hidden. */
  lemma MissedHides(f: Frame, bytes: seq<Byte>, rest: seq<Byte>, at: nat, width: nat)
    requires at >= 8 && Missed(f, bytes, rest, at, width)
    ensures at + width <= Length(f) && Hides(at, at + width, |f.payload|)
  {
    hide Intact, Encode, Parse, StoreLe16, Hides;
    var e := Encode(REQUEST, f);
    EncodedFront(f);
    assert bytes[6..8] == bytes[..at][6..8] == e[..at][6..8] == e[6..8];
    var g := KeptWhole(f, bytes, rest, at, width);
    HiddenChange(f, g, at, at + width);
  }

  lemma Wider(f: Frame, bytes: seq<Byte>, rest: seq<Byte>, at: nat, width: nat, at': nat, width': nat)
    requires Missed(f, bytes, rest, at, width)
    requires at' <= at && at + width <= at' + width' <= Length(f)
    ensures Missed(f, bytes, rest, at', width')
  {
    hide Intact, Encode, Parse;
    Pointwise(Encode(REQUEST, f), bytes, at, at + width);
    Pointwise(Encode(REQUEST, f), bytes, at', at' + width');
  }

  /** A window that is not safe misses a change of some request of that length, for every sequence number. */
  lemma UnsafeMissed(sequence: nat, length: nat, at: nat, width: nat)
    returns (f: Frame, bytes: seq<Byte>, rest: seq<Byte>)
    requires sequence < U32_LIMIT && length <= MAX_PAYLOAD && !Safe(at, width, length)
    ensures f.sequence == sequence && |f.payload| == length && Missed(f, bytes, rest, at, width)
  {
    hide Hides, Missed, Intact;
    if at >= 8 {
      f := SameRequest(sequence, length);
      rest := [];
      bytes := ChangeHidden(f, at, at + width, rest);
    } else {
      var k := if at + width == 7 then 0 else 1;
      f, bytes, rest := LengthByteMissed(sequence, length, k);
      Wider(f, bytes, rest, 6 + k, 1, at, width);
    }
  }

  lemma SafeDetected(f: Frame, bytes: seq<Byte>, rest: seq<Byte>, at: nat, width: nat)
    requires Safe(at, width, |f.payload|)
    ensures !Missed(f, bytes, rest, at, width)
  {
    hide Hides, Intact, Parse;
    if Missed(f, bytes, rest, at, width) {
      if width == 0 {
        SameWindow(Encode(REQUEST, f), bytes, at, at);
        assert false;
      } else if at >= 8 {
        MissedHides(f, bytes, rest, at, width);
        assert false;
      } else {
        FrontSafe(f, bytes, rest, at, width);
        assert false;
      }
    }
  }

  /** Every change of a window is noticed, in every request with that payload length and whatever follows it,
      exactly when the window is safe for that length. */
  lemma BurstsDetected(at: nat, width: nat, length: nat)
    requires length <= MAX_PAYLOAD
    ensures (forall f: Frame, bytes, rest :: |f.payload| == length ==> !Missed(f, bytes, rest, at, width)) <==>
            Safe(at, width, length)
  {
    hide Missed, Safe;
    if Safe(at, width, length) {
      forall f: Frame, bytes, rest | |f.payload| == length
        ensures !Missed(f, bytes, rest, at, width)
      {
        SafeDetected(f, bytes, rest, at, width);
      }
    } else {
      var f, bytes, rest := UnsafeMissed(0, length, at, width);
    }
  }

  /** Windows of at most four bytes that keep clear of the length field are safe on one side of an edge of the
      checksum field, and on both when there is no payload. */
  lemma SafeWindows(at: nat, width: nat, length: nat)
    requires length <= MAX_PAYLOAD && width <= 4 && (at + width <= 6 || at >= 8)
    requires at + width <= 12 || 12 <= at <= at + width <= 16 || at >= 16 || length == 0
    ensures Safe(at, width, length)
  {
    hide Hides;
    if at >= 8 && at + width <= HEADER_SIZE + length {
      if length == 0 {
        EmptyPayload(at, at + width);
      } else {
        OneSided(at, at + width, length);
      }
    }
  }

  /** A changed request at the front of the line is not taken for one if the change lies in a safe window. */
  method ReceiveCorrupted(line: Line, ghost f: Frame, ghost bytes: seq<Byte>, ghost rest: seq<Byte>,
                          ghost at: nat, ghost width: nat) returns (r: Received)
    requires line.Valid() && line.input[line.pos..] == bytes + rest && f.Valid() && Intact(REQUEST, f)
    requires DifferWithin(Encode(REQUEST, f), bytes, at, width) && bytes != Encode(REQUEST, f)
    modifies line`pos
    ensures line.Valid() && (r.Request? ==> Missed(f, bytes, rest, at, width))
    ensures line.quiet ==> (r.Request? <==> Missed(f, bytes, rest, at, width))
    ensures Safe(at, width, |f.payload|) ==> !r.Request?
  {
    hide Parse, Intact, Encode, Safe;
    if Safe(at, width, |f.payload|) {
      SafeDetected(f, bytes, rest, at, width);
    }
    r := Receive(line);
  }
}
