/** Numbers as bits, least significant first. */
module Bits {
  import opened Common

  type Byte = b: int | 0 <= b < 256 witness 0

  function Pow2(n: nat): (p: nat)
    ensures p >= 1
  {
    if n == 0 then 1 else 2 * Pow2(n - 1)
  }

  function ToBits(n: nat, width: nat): (s: seq<bool>)
    ensures |s| == width
    decreases width, n
  {
    if width == 0 then [] else [n % 2 == 1] + ToBits(n / 2, width - 1)
  }

  function FromBits(s: seq<bool>): (n: nat)
    ensures n < Pow2(|s|)
  {
    if s == [] then 0 else (if s[0] then 1 else 0) + 2 * FromBits(s[1..])
  }

  lemma {:induction false} FromToBits(n: nat, width: nat)
    requires n < Pow2(width)
    ensures FromBits(ToBits(n, width)) == n
    decreases width
  {
    if width > 0 {
      FromToBits(n / 2, width - 1);
      assert ToBits(n, width)[1..] == ToBits(n / 2, width - 1);
    }
  }

  lemma {:induction false} ToFromBits(s: seq<bool>)
    ensures ToBits(FromBits(s), |s|) == s
  {
    if s != [] {
      ToFromBits(s[1..]);
      assert s == [s[0]] + s[1..];
    }
  }

  lemma {:induction false} ToBitsInjective(m: nat, n: nat, width: nat)
    requires m < Pow2(width) && n < Pow2(width)
    requires ToBits(m, width) == ToBits(n, width)
    ensures m == n
  {
    FromToBits(m, width);
    FromToBits(n, width);
  }

  /** The bits of a message in the order a serial line sends them: byte by byte, low bit first. */
  function MessageBits(data: seq<Byte>): (s: seq<bool>)
    ensures |s| == 8 * |data|
  {
    if data == [] then [] else MessageBits(data[..|data| - 1]) + ToBits(data[|data| - 1], 8)
  }

  lemma MessageBitsSnoc(data: seq<Byte>, b: Byte)
    ensures MessageBits(data + [b]) == MessageBits(data) + ToBits(b, 8)
  {
    assert (data + [b])[..|data + [b]| - 1] == data;
  }

  lemma NoBytes()
    ensures MessageBits([]) == []
  {}

  lemma {:induction false} MessageBitsConcat(a: seq<Byte>, b: seq<Byte>)
    ensures MessageBits(a + b) == MessageBits(a) + MessageBits(b)
    decreases |b|
  {
    hide ToBits;
    if b == [] {
      assert a + b == a;
    } else {
      var c, x := b[..|b| - 1], b[|b| - 1];
      assert b == c + [x] && a + b == (a + c) + [x];
      MessageBitsConcat(a, c);
      MessageBitsSnoc(a + c, x);
      MessageBitsSnoc(c, x);
    }
  }

  lemma {:induction false} MessageBitsInjective(a: seq<Byte>, b: seq<Byte>)
    requires |a| == |b| && MessageBits(a) == MessageBits(b)
    ensures a == b
  {
    if a != [] {
      var m := |a| - 1;
      var a', b', x, y := a[..m], b[..m], a[m], b[m];
      assert a == a' + [x] && b == b' + [y];
      MessageBitsSnoc(a', x);
      MessageBitsSnoc(b', y);
      ConcatInjective(MessageBits(a'), MessageBits(b'), ToBits(x, 8), ToBits(y, 8));
      MessageBitsInjective(a', b');
      ByteWidth();
      ToBitsInjective(x, y, 8);
    }
  }

  lemma ConcatInjective(a: seq<bool>, b: seq<bool>, s: seq<bool>, t: seq<bool>)
    requires |a| == |b| && a + s == b + t
    ensures a == b && s == t
  {
    assert a == (a + s)[..|a|] && b == (b + t)[..|b|];
    assert s == (a + s)[|a|..] && t == (b + t)[|b|..];
  }

  lemma ByteWidth()
    ensures Pow2(8) == 256
  {
    assert Pow2(4) == 16;
  }

  lemma {:induction false} FromBitsConcat(s: seq<bool>, t: seq<bool>)
    ensures FromBits(s + t) == FromBits(s) + Pow2(|s|) * FromBits(t)
  {
    if s == [] {
      assert s + t == t;
    } else {
      FromBitsConcat(s[1..], t);
      assert (s + t)[1..] == s[1..] + t && (s + t)[0] == s[0];
      Doubled(Pow2(|s| - 1), FromBits(t));
    }
  }

  lemma Doubled(a: int, b: int)
    ensures 2 * (a * b) == (2 * a) * b
  {}

  /** Bit `i` is the digit of weight 2^i. */
  lemma {:induction false} BitAt(n: nat, width: nat, i: nat)
    requires i < width
    ensures ToBits(n, width)[i] <==> (n / Pow2(i)) % 2 == 1
    decreases width
  {
    if i > 0 {
      BitAt(n / 2, width - 1, i - 1);
      HalfThenRest(n, Pow2(i - 1));
    }
  }

  lemma HalfThenRest(n: nat, p: nat)
    requires p > 0
    ensures n / 2 / p == n / (2 * p)
  {
    var h := n / 2;
    var q, r := h / p, h % p;
    assert n == 2 * h + n % 2 && h == p * q + r;
    var rest := 2 * r + n % 2;
    assert n == (2 * p) * q + rest && 0 <= rest < 2 * p;
    DivUnique(n, 2 * p, q, rest);
  }

  // ----- little-endian numbers

  const U32_LIMIT: nat := 0x1_0000_0000

  function LoadLe16(b: seq<Byte>): (n: nat)
    requires |b| == 2
    ensures n < 0x1_0000
  {
    var lo: int, hi: int := b[0], b[1];
    lo + 256 * hi
  }

  function LoadLe32(b: seq<Byte>): (n: nat)
    requires |b| == 4
    ensures n < U32_LIMIT
  {
    var b0: int, b1: int, b2: int, b3: int := b[0], b[1], b[2], b[3];
    b0 + 256 * (b1 + 256 * (b2 + 256 * b3))
  }

  function StoreLe16(n: nat): (b: seq<Byte>)
    requires n < 0x1_0000
    ensures |b| == 2 && LoadLe16(b) == n
  {
    [n % 256, n / 256]
  }

  function StoreLe32(n: nat): (b: seq<Byte>)
    requires n < U32_LIMIT
    ensures |b| == 4 && LoadLe32(b) == n
  {
    var n1 := n / 256;
    var n2 := n1 / 256;
    [n % 256, n1 % 256, n2 % 256, n2 / 256]
  }

  /** A little-endian number is the one whose bits the serial line sends, low bit first. */
  lemma {:induction false} LittleEndian(b: seq<Byte>)
    ensures |b| == 1 ==> FromBits(MessageBits(b)) == b[0]
    ensures |b| == 2 ==> FromBits(MessageBits(b)) == LoadLe16(b)
    ensures |b| == 4 ==> FromBits(MessageBits(b)) == LoadLe32(b)
  {
    hide FromBits, ToBits, MessageBits;
    if |b| == 1 {
      OneByte(b[0]);
      assert b == [b[0]];
    } else if |b| == 2 {
      FirstByte(b);
      LittleEndian(b[1..]);
    } else if |b| == 4 {
      FirstByte(b);
      FirstByte(b[1..]);
      FirstByte(b[1..][1..]);
      LittleEndian(b[1..][1..][1..]);
    }
  }

  lemma OneByte(x: Byte)
    ensures FromBits(MessageBits([x])) == x
  {
    hide FromBits, ToBits;
    MessageBitsSnoc([], x);
    assert [] + [x] == [x] && MessageBits([]) == [];
    assert [] + ToBits(x, 8) == ToBits(x, 8);
    ByteWidth();
    FromToBits(x, 8);
  }

  lemma FirstByte(b: seq<Byte>)
    requires b != []
    ensures FromBits(MessageBits(b)) == b[0] + 256 * FromBits(MessageBits(b[1..]))
  {
    hide FromBits, ToBits;
    OneByte(b[0]);
    ByteWidth();
    assert b == [b[0]] + b[1..];
    MessageBitsConcat([b[0]], b[1..]);
    FromBitsConcat(MessageBits([b[0]]), MessageBits(b[1..]));
  }

  lemma Le16Unique(a: seq<Byte>, b: seq<Byte>)
    requires |a| == |b| == 2 && LoadLe16(a) == LoadLe16(b)
    ensures a == b
  {}

  lemma DigitUnique(a: int, m: int, b: int, n: int)
    requires 0 <= a < 256 && 0 <= b < 256 && a + 256 * m == b + 256 * n
    ensures a == b && m == n
  {}

  lemma Le32Unique(a: seq<Byte>, b: seq<Byte>)
    requires |a| == |b| == 4 && LoadLe32(a) == LoadLe32(b)
    ensures a == b
  {
    var a1: int, a2: int, a3: int := a[1], a[2], a[3];
    var b1: int, b2: int, b3: int := b[1], b[2], b[3];
    DigitUnique(a[0], a1 + 256 * (a2 + 256 * a3), b[0], b1 + 256 * (b2 + 256 * b3));
    DigitUnique(a1, a2 + 256 * a3, b1, b2 + 256 * b3);
    DigitUnique(a2, a3, b2, b3);
  }
}
