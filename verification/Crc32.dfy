/** The reflected CRC-32 of section 8 of RFC 1952, computed bit by bit as the tty daemons do, and the
    error bursts it is certain to detect. A 32-bit word is its bits, least significant first. */
module Crc32 {
  import opened Bits

  type Word = w: seq<bool> | |w| == 32 witness ToBits(0, 32)

  /** `n` zero bits. */
  function NoBits(n: nat): (z: seq<bool>)
    ensures |z| == n
    ensures forall i :: 0 <= i < n ==> !z[i]
  {
    seq(n, _ => false)
  }

  const ZERO: Word := NoBits(32)

  /** 0xedb88320, low bit first. */
  const POLYNOMIAL: Word := [
    false, false, false, false, false, true, false, false, true, true, false, false, false, false, false, true,
    false, false, false, true, true, true, false, true, true, false, true, true, false, true, true, true]

  function XorBits(a: seq<bool>, b: seq<bool>): (d: seq<bool>)
    requires |a| == |b|
    ensures |d| == |a|
    ensures forall i :: 0 <= i < |a| ==> d[i] == (a[i] != b[i])
  {
    seq(|a|, i requires 0 <= i < |a| => a[i] != b[i])
  }

  function Xor(a: Word, b: Word): Word {
    XorBits(a, b)
  }

  function Complement(a: Word): (c: Word)
    ensures forall i :: 0 <= i < 32 ==> c[i] == !a[i]
  {
    seq(|a|, i requires 0 <= i < |a| => !a[i])
  }

  /** Logical shift right by one. */
  function Shifted(a: Word): Word {
    a[1..] + [false]
  }

  /** One turn of the inner loop: shift right, subtracting the polynomial when a one falls out. */
  function BitStep(crc: Word): Word {
    if crc[0] then Xor(Shifted(crc), POLYNOMIAL) else Shifted(crc)
  }

  function Steps(n: nat, crc: Word): Word {
    if n == 0 then crc else Steps(n - 1, BitStep(crc))
  }

  /** A byte zero-extended to a word. */
  function Extended(b: Byte): Word {
    ToBits(b, 8) + NoBits(24)
  }

  /** The register after a message, without the complements at either end. */
  function Register(reg: Word, data: seq<Byte>): Word {
    if data == [] then reg
    else Steps(8, Xor(Register(reg, data[..|data| - 1]), Extended(data[|data| - 1])))
  }

  function Update(crc: Word, data: seq<Byte>): Word {
    Complement(Register(Complement(crc), data))
  }

  function Crc(data: seq<Byte>): Word {
    Update(ZERO, data)
  }

  // ----- the loops of the source

  method ComputeUpdate(start: Word, data: seq<Byte>) returns (crc: Word)
    ensures crc == Update(start, data)
  {
    hide ToBits, Steps, Extended;
    crc := Complement(start);
    for i := 0 to |data|
      invariant crc == Register(Complement(start), data[..i])
    {
      assert data[..i + 1][..i] == data[..i];
      crc := Xor(crc, Extended(data[i]));
      crc := ComputeSteps(crc);
    }
    assert data[..|data|] == data;
    crc := Complement(crc);
  }

  method ComputeSteps(fed: Word) returns (crc: Word)
    ensures crc == Steps(8, fed)
  {
    crc := fed;
    for bit := 0 to 8
      invariant Steps(8 - bit, crc) == Steps(8, fed)
    {
      var mask := if crc[0] then POLYNOMIAL else ZERO;
      assert !crc[0] ==> Xor(Shifted(crc), ZERO) == Shifted(crc);
      crc := Xor(Shifted(crc), mask);
    }
  }

  /** Both daemons checksum the first twelve header bytes and the payload in two calls. */
  method ComputeFrameCrc(header: seq<Byte>, payload: seq<Byte>) returns (crc: Word)
    requires |header| == 16
    ensures crc == Crc(header[..12] + payload)
  {
    crc := ComputeUpdate(ZERO, header[..12]);
    crc := ComputeUpdate(crc, payload);
    UpdateConcat(ZERO, header[..12], payload);
  }

  // ----- checksumming in pieces

  lemma {:induction false} RegisterConcat(reg: Word, a: seq<Byte>, b: seq<Byte>)
    ensures Register(reg, a + b) == Register(Register(reg, a), b)
    decreases |b|
  {
    if b == [] {
      assert a + b == a;
    } else {
      var m := |b| - 1;
      RegisterConcat(reg, a, b[..m]);
      assert (a + b)[..|a + b| - 1] == a + b[..m];
    }
  }

  lemma UpdateConcat(crc: Word, a: seq<Byte>, b: seq<Byte>)
    ensures Update(crc, a + b) == Update(Update(crc, a), b)
  {
    RegisterConcat(Complement(crc), a, b);
    var r := Register(Complement(crc), a);
    assert Complement(Complement(r)) == r;
  }

  // ----- the same register, fed one bit at a time

  /** The register with one message bit added at its low end. */
  function Fed(reg: Word, bit: bool): Word {
    reg[0 := reg[0] != bit]
  }

  function BitRegister(reg: Word, bits: seq<bool>): Word
    decreases |bits|
  {
    if bits == [] then reg else BitRegister(BitStep(Fed(reg, bits[0])), bits[1..])
  }

  /** The first `n` bits added at the low end in one go, as the source adds a byte. */
  function FedAll(reg: Word, bits: seq<bool>): Word
    requires |bits| <= 32
  {
    Xor(reg, bits + NoBits(32 - |bits|))
  }

  lemma FedAllStep(reg: Word, bits: seq<bool>)
    requires 0 < |bits| <= 32
    ensures BitStep(FedAll(reg, bits)) == FedAll(BitStep(Fed(reg, bits[0])), bits[1..])
  {}

  lemma {:induction false} FeedingBitByBit(reg: Word, bits: seq<bool>)
    requires |bits| <= 32
    ensures BitRegister(reg, bits) == Steps(|bits|, FedAll(reg, bits))
    decreases |bits|
  {
    if bits == [] {
      assert FedAll(reg, bits) == reg;
    } else {
      FeedingBitByBit(BitStep(Fed(reg, bits[0])), bits[1..]);
      FedAllStep(reg, bits);
    }
  }

  lemma {:induction false} BitRegisterConcat(reg: Word, a: seq<bool>, b: seq<bool>)
    ensures BitRegister(reg, a + b) == BitRegister(BitRegister(reg, a), b)
    decreases |a|
  {
    if a == [] {
      assert a + b == b;
    } else {
      BitRegisterConcat(BitStep(Fed(reg, a[0])), a[1..], b);
      assert (a + b)[1..] == a[1..] + b;
    }
  }

  /** Absorbing bytes is absorbing their bits. */
  lemma {:induction false} RegisterIsBitRegister(reg: Word, data: seq<Byte>)
    ensures Register(reg, data) == BitRegister(reg, MessageBits(data))
  {
    if data != [] {
      var m := |data| - 1;
      RegisterIsBitRegister(reg, data[..m]);
      var bits := ToBits(data[m], 8);
      BitRegisterConcat(reg, MessageBits(data[..m]), bits);
      var r := Register(reg, data[..m]);
      FeedingBitByBit(r, bits);
      assert FedAll(r, bits) == Xor(r, Extended(data[m]));
    }
  }

  // ----- linearity: the registers of two messages differ by the register of their difference

  lemma BitStepLinear(x: Word, y: Word)
    ensures BitStep(Xor(x, y)) == Xor(BitStep(x), BitStep(y))
  {}

  lemma FedLinear(x: Word, y: Word, a: bool, b: bool)
    ensures Fed(Xor(x, y), a != b) == Xor(Fed(x, a), Fed(y, b))
  {}

  lemma {:induction false} BitRegisterLinear(x: Word, y: Word, a: seq<bool>, b: seq<bool>)
    requires |a| == |b|
    ensures BitRegister(Xor(x, y), XorBits(a, b)) == Xor(BitRegister(x, a), BitRegister(y, b))
    decreases |a|
  {
    if a != [] {
      var x', y' := Fed(x, a[0]), Fed(y, b[0]);
      FedLinear(x, y, a[0], b[0]);
      BitStepLinear(x', y');
      BitRegisterLinear(BitStep(x'), BitStep(y'), a[1..], b[1..]);
      assert XorBits(a, b)[1..] == XorBits(a[1..], b[1..]);
    }
  }

  // ----- no step loses information

  predicate Clear(bits: seq<bool>) {
    forall i :: 0 <= i < |bits| ==> !bits[i]
  }

  lemma BitStepClear(x: Word)
    ensures Clear(BitStep(x)) <==> Clear(x)
  {
    var s := BitStep(x);
    assert x[0] ==> s[31];
    if Clear(s) {
      forall i | 0 < i < 32
        ensures !x[i]
      {
        assert s[i - 1] == x[i];
      }
    }
  }

  lemma {:induction false} StepsClear(n: nat, x: Word)
    ensures Clear(Steps(n, x)) <==> Clear(x)
  {
    if n > 0 {
      BitStepClear(x);
      StepsClear(n - 1, BitStep(x));
    }
  }

  /** Equal bits on both sides keep equal registers equal and different registers different. */
  lemma {:induction false} ThroughEqualBits(reg: Word, n: nat)
    ensures Clear(BitRegister(reg, NoBits(n))) <==> Clear(reg)
    decreases n
  {
    if n > 0 {
      assert Fed(reg, false) == reg;
      BitStepClear(reg);
      assert NoBits(n)[1..] == NoBits(n - 1);
      ThroughEqualBits(BitStep(reg), n - 1);
    }
  }

  // ----- burst detection

  lemma FedAllClear(empty: Word, burst: seq<bool>)
    requires |burst| <= 32 && Clear(empty)
    ensures Clear(FedAll(empty, burst)) <==> Clear(burst)
  {
    var fed := FedAll(empty, burst);
    assert forall i :: 0 <= i < |burst| ==> fed[i] == burst[i];
  }

  /** Up to 32 bits, not all zero, never leave the empty register empty. */
  lemma ShortBurst(empty: Word, burst: seq<bool>)
    requires |burst| <= 32 && Clear(empty)
    ensures Clear(BitRegister(empty, burst)) <==> Clear(burst)
  {
    FeedingBitByBit(empty, burst);
    StepsClear(|burst|, FedAll(empty, burst));
    FedAllClear(empty, burst);
  }

  /** A burst keeps its mark on the register through the equal bits around it. */
  lemma BurstSurvives(empty: Word, before: nat, burst: seq<bool>, after: nat)
    requires |burst| <= 32 && Clear(empty)
    ensures Clear(BitRegister(empty, NoBits(before) + burst + NoBits(after))) <==> Clear(burst)
  {
    BitRegisterConcat(empty, NoBits(before) + burst, NoBits(after));
    BitRegisterConcat(empty, NoBits(before), burst);
    ThroughEqualBits(empty, before);
    ThroughEqualBits(BitRegister(BitRegister(empty, NoBits(before)), burst), after);
    ShortBurst(BitRegister(empty, NoBits(before)), burst);
  }

  lemma XorClear(v: seq<bool>, w: seq<bool>)
    requires |v| == |w|
    ensures Clear(XorBits(v, w)) <==> v == w
  {
    if Clear(XorBits(v, w)) {
      assert forall i :: 0 <= i < |v| ==> (XorBits(v, w)[i] <==> v[i] != w[i]);
    }
  }

  /** Two messages leave equal registers exactly when their difference leaves the empty one empty. */
  lemma EqualRegisters(reg: Word, a: seq<bool>, b: seq<bool>)
    requires |a| == |b|
    ensures BitRegister(reg, a) == BitRegister(reg, b) <==> Clear(BitRegister(ZERO, XorBits(a, b)))
  {
    BitRegisterLinear(reg, reg, a, b);
    assert Xor(reg, reg) == ZERO;
    XorClear(BitRegister(reg, a), BitRegister(reg, b));
  }

  lemma DifferenceOfWindow(head: seq<bool>, v: seq<bool>, w: seq<bool>, tail: seq<bool>)
    requires |v| == |w|
    ensures XorBits(head + v + tail, head + w + tail) == NoBits(|head|) + XorBits(v, w) + NoBits(|tail|)
  {}

  /** Messages that agree outside one window of at most 32 consecutive bits leave equal registers only
      when they are equal. */
  lemma BurstRegisters(reg: Word, head: seq<bool>, v: seq<bool>, w: seq<bool>, tail: seq<bool>)
    requires |v| == |w| <= 32
    ensures BitRegister(reg, head + v + tail) == BitRegister(reg, head + w + tail) <==> v == w
  {
    EqualRegisters(reg, head + v + tail, head + w + tail);
    DifferenceOfWindow(head, v, w, tail);
    BurstSurvives(ZERO, |head|, XorBits(v, w), |tail|);
    XorClear(v, w);
  }

  /** Messages of equal length that agree outside one window of at most four bytes, and differ inside
      it, have different checksums, whatever checksum they continue from. */
  lemma BurstDetected(crc: Word, head: seq<Byte>, v: seq<Byte>, w: seq<Byte>, tail: seq<Byte>)
    requires |v| == |w| <= 4 && v != w
    ensures Update(crc, head + v + tail) != Update(crc, head + w + tail)
  {
    var reg := Complement(crc);
    var hb, vb, wb, tb := MessageBits(head), MessageBits(v), MessageBits(w), MessageBits(tail);
    MessageBitsConcat(head + v, tail);
    MessageBitsConcat(head, v);
    MessageBitsConcat(head + w, tail);
    MessageBitsConcat(head, w);
    RegisterIsBitRegister(reg, head + v + tail);
    RegisterIsBitRegister(reg, head + w + tail);
    BurstRegisters(reg, hb, vb, wb, tb);
    if vb == wb {
      MessageBitsInjective(v, w);
    }
    ComplementInjective(Register(reg, head + v + tail), Register(reg, head + w + tail));
  }

  lemma ComplementInjective(x: Word, y: Word)
    requires x != y
    ensures Complement(x) != Complement(y)
  {
    var i :| 0 <= i < 32 && x[i] != y[i];
    assert Complement(x)[i] != Complement(y)[i];
  }
}
