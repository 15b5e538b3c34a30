/** What the checksum is, apart from how it is computed: the complement of the remainder that is left when
    the message, its first 32 bits inverted and 32 zeros behind it, is divided by the generator polynomial of
    section 8 of RFC 1952 over the field of two elements. A polynomial is its coefficients, highest first. */
module CrcDivision {
  import opened Bits
  import opened Crc32
  import opened HexWords
  import opened Frames

  // ----- polynomials

  /** The powers of x in the generator. */
  predicate Term(n: int) {
    || n == 32 || n == 26 || n == 23 || n == 22 || n == 16 || n == 12 || n == 11 || n == 10
    || n == 8 || n == 7 || n == 5 || n == 4 || n == 2 || n == 1 || n == 0
  }

  function Coefficients(): (g: seq<bool>)
    ensures |g| == 33 && forall i :: 0 <= i < 33 ==> g[i] == Term(32 - i)
  {
    seq(33, i => Term(32 - i))
  }

  const GENERATOR := Coefficients()

  /** `q` times the generator, by long multiplication. */
  function Product(q: seq<bool>): (p: seq<bool>)
    ensures |p| == |q| + 32
  {
    if q == [] then NoBits(32)
    else
      var rest := [false] + Product(q[1..]);
      if q[0] then XorBits(GENERATOR + NoBits(|q| - 1), rest) else rest
  }

  /** The message as a dividend: 32 zeros behind it, and its first 32 bits inverted. */
  function Dividend(m: seq<Byte>): (d: seq<bool>)
    ensures |d| == 8 * |m| + 32
  {
    XorBits(MessageBits(m) + NoBits(32), Complement(ZERO) + NoBits(8 * |m|))
  }

  /** Dividing by the generator leaves a remainder of 32 coefficients. */
  predicate Divides(dividend: seq<bool>, q: seq<bool>, remainder: Word) {
    |dividend| == |q| + 32 && XorBits(dividend, Product(q)) == NoBits(|q|) + remainder
  }

  lemma CoefficientAt(i: nat)
    requires i < 32
    ensures POLYNOMIAL[i] == Term(31 - i)
  {}

  lemma GeneratorIsPolynomial()
    ensures |GENERATOR| == 33 && GENERATOR[0] && GENERATOR[1..] == POLYNOMIAL
  {
    hide Term;
    var p := GENERATOR[1..];
    forall i: nat | i < 32
      ensures p[i] == POLYNOMIAL[i]
    {
      CoefficientAt(i);
    }
    Leading();
  }

  lemma Leading()
    ensures Term(32)
  {}

  /** `a` is `b` with a leading coefficient, and under the generator if that is one. */
  predicate Extends(a: seq<bool>, b: seq<bool>, first: bool) {
    && |a| == |b| + 1 && a[0] == first
    && forall i :: 0 <= i < |b| ==> a[i + 1] == (b[i] != (first && i < 32 && GENERATOR[i + 1]))
  }

  lemma ExtendedSum(a: seq<bool>, b: seq<bool>, x: bool, c: seq<bool>, d: seq<bool>, y: bool)
    requires |a| == |c| && |b| == |d| && Extends(a, b, x) && Extends(c, d, y)
    ensures Extends(XorBits(a, c), XorBits(b, d), x != y)
  {}

  lemma ExtendedEqual(a: seq<bool>, b: seq<bool>, c: seq<bool>, x: bool)
    requires Extends(a, c, x) && Extends(b, c, x)
    ensures a == b
  {
    forall i | 0 <= i < |a|
      ensures a[i] == b[i]
    {
      if i > 0 {
        var first := c[i - 1];
        assert a[i] == (first != (x && i - 1 < 32 && GENERATOR[i])) == b[i];
      }
    }
  }

  lemma ExtendedZeros(n: nat, r: seq<bool>)
    ensures Extends(NoBits(n + 1) + r, NoBits(n) + r, false)
  {}

  // ----- the register divides

  function Quotient(reg: Word, bits: seq<bool>): (q: seq<bool>)
    ensures |q| == |bits|
    decreases |bits|
  {
    if bits == [] then []
    else
      var fed := Fed(reg, bits[0]);
      [fed[0]] + Quotient(BitStep(fed), bits[1..])
  }

  /** The bits still to be fed, over the register. */
  function Left(reg: Word, bits: seq<bool>): (d: seq<bool>)
    ensures |d| == |bits| + 32
  {
    XorBits(bits + NoBits(32), reg + NoBits(|bits|))
  }

  /** One step of the register is one step of the division. */
  lemma LeftStep(reg: Word, bits: seq<bool>)
    requires bits != []
    ensures var fed := Fed(reg, bits[0]); Extends(Left(reg, bits), Left(BitStep(fed), bits[1..]), fed[0])
  {
    GeneratorIsPolynomial();
    var fed := Fed(reg, bits[0]);
    var now, next := Left(reg, bits), Left(BitStep(fed), bits[1..]);
    forall i | 0 <= i < |next|
      ensures now[i + 1] == (next[i] != (fed[0] && i < 32 && GENERATOR[i + 1]))
    {
      assert i < 32 ==> GENERATOR[i + 1] == GENERATOR[1..][i];
      assert (bits[1..] + NoBits(32))[i] == (bits + NoBits(32))[i + 1];
      assert i < 31 ==> BitStep(fed)[i] == (reg[i + 1] != (fed[0] && POLYNOMIAL[i]));
      assert i == 31 ==> BitStep(fed)[i] == (fed[0] && POLYNOMIAL[31]);
    }
  }

  lemma ProductStep(first: bool, rest: seq<bool>)
    ensures Extends(Product([first] + rest), Product(rest), first)
  {
    GeneratorIsPolynomial();
    assert ([first] + rest)[1..] == rest;
  }

  lemma {:induction false} RegisterDivides(reg: Word, bits: seq<bool>)
    ensures Divides(Left(reg, bits), Quotient(reg, bits), BitRegister(reg, bits))
    decreases |bits|
  {
    hide Left, Product, BitStep, Fed, Extends;
    if bits == [] {
      NothingLeft(reg);
    } else {
      var fed := Fed(reg, bits[0]);
      var next, rest := BitStep(fed), bits[1..];
      RegisterDivides(next, rest);
      var q, r := Quotient(next, rest), BitRegister(next, rest);
      LeftStep(reg, bits);
      ProductStep(fed[0], q);
      ExtendedSum(Left(reg, bits), Left(next, rest), fed[0], Product([fed[0]] + q), Product(q), fed[0]);
      ExtendedZeros(|q|, r);
      ExtendedEqual(XorBits(Left(reg, bits), Product([fed[0]] + q)), NoBits(|bits|) + r, NoBits(|q|) + r, false);
    }
  }

  lemma NothingLeft(reg: Word)
    ensures Divides(Left(reg, []), [], reg)
  {}

  // ----- the remainder is unique

  lemma {:induction false} ProductLinear(a: seq<bool>, b: seq<bool>)
    requires |a| == |b|
    ensures XorBits(Product(a), Product(b)) == Product(XorBits(a, b))
    decreases |a|
  {
    hide Product, Extends;
    if a == [] {
      ProductNone();
    } else {
      var d, e := XorBits(a, b), XorBits(a[1..], b[1..]);
      ProductLinear(a[1..], b[1..]);
      assert a == [a[0]] + a[1..] && b == [b[0]] + b[1..] && d == [d[0]] + e;
      ProductStep(a[0], a[1..]);
      ProductStep(b[0], b[1..]);
      ProductStep(d[0], e);
      ExtendedSum(Product(a), Product(a[1..]), a[0], Product(b), Product(b[1..]), b[0]);
      ExtendedEqual(XorBits(Product(a), Product(b)), Product(d), Product(e), d[0]);
    }
  }

  lemma ProductNone()
    ensures Product([]) == NoBits(32) && XorBits(NoBits(32), NoBits(32)) == NoBits(32)
    ensures forall a: seq<bool>, b: seq<bool> :: |a| == |b| == 0 ==> XorBits(a, b) == []
  {}

  /** A product that ends before the generator's length begins is zero. */
  lemma {:induction false} ShortProduct(q: seq<bool>)
    requires forall i :: 0 <= i < |q| ==> !Product(q)[i]
    ensures Clear(q)
    decreases |q|
  {
    hide Product;
    if q != [] {
      assert q == [q[0]] + q[1..];
      ProductStep(q[0], q[1..]);
      forall i | 0 <= i < |q| - 1
        ensures !Product(q[1..])[i]
      {
        assert !Product(q)[i + 1];
      }
      ShortProduct(q[1..]);
      assert forall i :: 1 <= i < |q| ==> q[i] == q[1..][i - 1];
    }
  }

  lemma RemainderUnique(d: seq<bool>, q: seq<bool>, r: Word, q': seq<bool>, r': Word)
    requires Divides(d, q, r) && Divides(d, q', r')
    ensures q == q' && r == r'
  {
    hide Product;
    var p, p', e := Product(q), Product(q'), XorBits(q, q');
    ProductLinear(q, q');
    var s, s' := NoBits(|q|) + r, NoBits(|q|) + r';
    forall i | 0 <= i < |q|
      ensures !Product(e)[i]
    {
      assert XorBits(d, p)[i] == s[i] && XorBits(d, p')[i] == s'[i];
    }
    ShortProduct(e);
    XorClear(q, q');
    assert r == s[|q|..] && r' == s'[|q|..];
  }

  // ----- the checksum

  /** A word is the checksum of a message exactly if its complement is the remainder. */
  lemma CrcIsRemainder(m: seq<Byte>, c: Word)
    ensures c == Crc(m) <==> exists q :: Divides(Dividend(m), q, Complement(c))
  {
    hide BitRegister, Register, Divides, MessageBits;
    var reg := Complement(ZERO);
    RegisterDivides(reg, MessageBits(m));
    RegisterIsBitRegister(reg, m);
    var q0, r := Quotient(reg, MessageBits(m)), Register(reg, m);
    assert Left(reg, MessageBits(m)) == Dividend(m);
    assert Complement(Complement(r)) == r && Complement(Complement(c)) == c;
    if q :| Divides(Dividend(m), q, Complement(c)) {
      RemainderUnique(Dividend(m), q, Complement(c), q0, r);
    }
  }

  // ----- the residue

  const ONES := Hex(NF, NF, NF, NF, NF, NF, NF, NF)
  const AFTER8 := Hex(N2, N7, N0, N1, ND, NF, ND, N2)
  const AFTER16 := Hex(N0, N0, ND, NE, N6, N2, NE, NB)
  const AFTER24 := Hex(ND, NE, N6, N2, NE, NB, N0, N0)
  /** 0xdebb20e3 */
  const GOOD := Hex(N3, NE, N0, N2, NB, NB, NE, ND)

  lemma Turns8()
    ensures Turned(8, ONES) == AFTER8
  {}

  lemma Turns16()
    ensures Turned(8, AFTER8) == AFTER16
  {}

  lemma Turns24()
    ensures Turned(8, AFTER16) == AFTER24
  {}

  lemma Turns32()
    ensures Turned(8, AFTER24) == GOOD
  {}

  lemma AllOnes()
    ensures Complement(ZERO) == WordOf(ONES)
  {}

  lemma FullTurn()
    ensures Steps(32, Complement(ZERO)) == WordOf(GOOD)
  {
    hide Steps, Turned, WordOf;
    AllOnes();
    Turns8();
    Turns16();
    Turns24();
    Turns32();
    StepsAre(8, ONES);
    StepsAre(8, AFTER8);
    StepsAre(8, AFTER16);
    StepsAre(8, AFTER24);
    StepsAdd(8, 8, WordOf(ONES));
    StepsAdd(16, 8, WordOf(ONES));
    StepsAdd(24, 8, WordOf(ONES));
  }

  /** Whatever the message, with its checksum behind it the register ends up with the same word. */
  lemma MessageWithCrc(m: seq<Byte>)
    ensures BitRegister(Complement(ZERO), MessageBits(m + StoreWord(Crc(m)))) == WordOf(GOOD)
  {
    hide BitRegister, Register, Steps, StoreWord, LoadWord, MessageBits, WordOf;
    var start := Complement(ZERO);
    var reg, c := Register(start, m), Crc(m);
    RegisterIsBitRegister(start, m);
    MessageBitsConcat(m, StoreWord(c));
    FourBytes(StoreWord(c));
    BitRegisterConcat(start, MessageBits(m), c);
    FeedingBitByBit(reg, c);
    assert FedAll(reg, c) == Complement(ZERO);
    FullTurn();
  }
}
