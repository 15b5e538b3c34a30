/** Words written in hexadecimal, low digit first, and the steps of the checksum register on them. */
module HexWords {
  import opened Crc32

  // ----- words in hexadecimal, low digit first

  datatype Nibble = Nibble(b0: bool, b1: bool, b2: bool, b3: bool)

  const N0 := Nibble(false, false, false, false)
  const N1 := Nibble(true, false, false, false)
  const N2 := Nibble(false, true, false, false)
  const N3 := Nibble(true, true, false, false)
  const N4 := Nibble(false, false, true, false)
  const N5 := Nibble(true, false, true, false)
  const N6 := Nibble(false, true, true, false)
  const N7 := Nibble(true, true, true, false)
  const N8 := Nibble(false, false, false, true)
  const N9 := Nibble(true, false, false, true)
  const NA := Nibble(false, true, false, true)
  const NB := Nibble(true, true, false, true)
  const NC := Nibble(false, false, true, true)
  const ND := Nibble(true, false, true, true)
  const NE := Nibble(false, true, true, true)
  const NF := Nibble(true, true, true, true)

  datatype Hex = Hex(n0: Nibble, n1: Nibble, n2: Nibble, n3: Nibble, n4: Nibble, n5: Nibble, n6: Nibble, n7: Nibble)

  function Four(n: Nibble): (b: seq<bool>)
    ensures |b| == 4
  {
    [n.b0, n.b1, n.b2, n.b3]
  }

  function Eight(m: Nibble, n: Nibble): (b: seq<bool>)
    ensures |b| == 8
  {
    Four(m) + Four(n)
  }

  function WordOf(h: Hex): Word {
    Eight(h.n0, h.n1) + Eight(h.n2, h.n3) + Eight(h.n4, h.n5) + Eight(h.n6, h.n7)
  }

  const POLY := Hex(N0, N2, N3, N8, N8, NB, ND, NE)
  const NONE := Hex(N0, N0, N0, N0, N0, N0, N0, N0)

  lemma KnownWords()
    ensures POLYNOMIAL == WordOf(POLY) && ZERO == WordOf(NONE)
  {}

  // ----- steps of the register, digit by digit

  /** A digit after a shift: its upper bits and the low bit of the next digit, under a mask. */
  function Becomes(x: Nibble, next: bool, mask: Nibble): Nibble {
    Nibble(x.b1 != mask.b0, x.b2 != mask.b1, x.b3 != mask.b2, next != mask.b3)
  }

  function Next(w: Hex): Hex {
    var m := if w.n0.b0 then POLY else NONE;
    Hex(Becomes(w.n0, w.n1.b0, m.n0), Becomes(w.n1, w.n2.b0, m.n1), Becomes(w.n2, w.n3.b0, m.n2),
        Becomes(w.n3, w.n4.b0, m.n3), Becomes(w.n4, w.n5.b0, m.n4), Becomes(w.n5, w.n6.b0, m.n5),
        Becomes(w.n6, w.n7.b0, m.n6), Becomes(w.n7, false, m.n7))
  }

  function Turned(n: nat, w: Hex): Hex {
    if n == 0 then w else Turned(n - 1, Next(w))
  }

  function Digit(h: Hex, k: nat): Nibble
    requires k < 8
  {
    if k == 0 then h.n0 else if k == 1 then h.n1 else if k == 2 then h.n2 else if k == 3 then h.n3
    else if k == 4 then h.n4 else if k == 5 then h.n5 else if k == 6 then h.n6 else h.n7
  }

  lemma DigitAt(h: Hex, k: nat)
    requires k < 8
    ensures Quad(WordOf(h), 4 * k, Digit(h, k))
  {
    hide Eight, WordOf;
    HalvesAt(WordOf(h), 0, h.n0, h.n1);
    HalvesAt(WordOf(h), 8, h.n2, h.n3);
    HalvesAt(WordOf(h), 16, h.n4, h.n5);
    HalvesAt(WordOf(h), 24, h.n6, h.n7);
    Quarters(h);
  }

  /** The bits of a word from `at` on are those of a digit. */
  predicate Quad(w: Word, at: nat, n: Nibble) {
    at + 4 <= 32 && w[at] == n.b0 && w[at + 1] == n.b1 && w[at + 2] == n.b2 && w[at + 3] == n.b3
  }

  lemma HalvesAt(w: Word, at: nat, m: Nibble, n: Nibble)
    requires at + 8 <= 32
    ensures w[at..at + 8] == Eight(m, n) ==> Quad(w, at, m) && Quad(w, at + 4, n)
  {
    hide Eight;
    EightAt(m, n);
    var b := w[at..at + 8];
    assert b[0] == w[at] && b[1] == w[at + 1] && b[2] == w[at + 2] && b[3] == w[at + 3];
    assert b[4] == w[at + 4] && b[5] == w[at + 5] && b[6] == w[at + 6] && b[7] == w[at + 7];
  }

  lemma Quarters(h: Hex)
    ensures var w := WordOf(h);
            && w[0..8] == Eight(h.n0, h.n1) && w[8..16] == Eight(h.n2, h.n3)
            && w[16..24] == Eight(h.n4, h.n5) && w[24..32] == Eight(h.n6, h.n7)
  {
    hide Eight;
  }

  lemma EightAt(m: Nibble, n: Nibble)
    ensures var b := Eight(m, n);
            && b[0] == m.b0 && b[1] == m.b1 && b[2] == m.b2 && b[3] == m.b3
            && b[4] == n.b0 && b[5] == n.b1 && b[6] == n.b2 && b[7] == n.b3
  {}

  function Mask(w: Hex): Hex {
    if w.n0.b0 then POLY else NONE
  }

  lemma DigitBecomes(w: Hex, k: nat)
    requires k < 8
    ensures Digit(Next(w), k) == Becomes(Digit(w, k), k < 7 && Digit(w, k + 1).b0, Digit(Mask(w), k))
  {
    hide Becomes, Mask;
    NextDigits(w, Mask(w));
  }

  lemma NextDigits(w: Hex, m: Hex)
    requires m == Mask(w)
    ensures Next(w) == Hex(Becomes(w.n0, w.n1.b0, m.n0), Becomes(w.n1, w.n2.b0, m.n1), Becomes(w.n2, w.n3.b0, m.n2),
                           Becomes(w.n3, w.n4.b0, m.n3), Becomes(w.n4, w.n5.b0, m.n4), Becomes(w.n5, w.n6.b0, m.n5),
                           Becomes(w.n6, w.n7.b0, m.n6), Becomes(w.n7, false, m.n7))
  {
    hide Becomes;
  }

  /** Bit `i` of a shifted and masked word. */
  predicate Row(w: Word, m: Word, v: Word, i: nat)
    requires i < 32
  {
    v[i] == ((i < 31 && w[i + 1]) != m[i])
  }

  lemma Rows(w: Hex, i: nat)
    requires i < 32
    ensures Row(WordOf(w), WordOf(Mask(w)), WordOf(Next(w)), i)
  {
    hide Next, Mask, WordOf, Digit;
    var v, m, k := Next(w), Mask(w), i / 4;
    DigitBecomes(w, k);
    DigitAt(w, k);
    DigitAt(m, k);
    DigitAt(v, k);
    if k < 7 {
      DigitAt(w, k + 1);
    }
    assert i == 4 * k || i == 4 * k + 1 || i == 4 * k + 2 || i == 4 * k + 3;
  }

  lemma MaskedStep(w: Word, m: Word, v: Word)
    requires m == if w[0] then POLYNOMIAL else ZERO
    requires forall i: nat :: i < 32 ==> Row(w, m, v, i)
    ensures BitStep(w) == v
  {
    forall i: nat | i < 32
      ensures BitStep(w)[i] == v[i]
    {
      assert Row(w, m, v, i);
    }
  }

  lemma StepIs(w: Hex)
    ensures BitStep(WordOf(w)) == WordOf(Next(w))
  {
    hide Next, WordOf, Row, BitStep;
    KnownWords();
    DigitAt(w, 0);
    var v, m := Next(w), Mask(w);
    forall i: nat | i < 32
      ensures Row(WordOf(w), WordOf(m), WordOf(v), i)
    {
      Rows(w, i);
    }
    MaskedStep(WordOf(w), WordOf(m), WordOf(v));
  }

  lemma {:induction false} StepsAre(n: nat, w: Hex)
    ensures Steps(n, WordOf(w)) == WordOf(Turned(n, w))
  {
    hide Next, WordOf, BitStep;
    if n > 0 {
      StepIs(w);
      StepsAre(n - 1, Next(w));
    }
  }

  lemma {:induction false} StepsAdd(m: nat, n: nat, x: Word)
    ensures Steps(m + n, x) == Steps(n, Steps(m, x))
  {
    if m > 0 {
      StepsAdd(m - 1, n, BitStep(x));
    }
  }

  /** Zeros at the low end fall out without touching the polynomial. */
  lemma {:induction false} ShiftOut(n: nat, w: seq<bool>)
    requires |w| + n == 32
    ensures Steps(n, NoBits(n) + w) == w + NoBits(n)
  {
    if n == 0 {
      assert NoBits(0) + w == w == w + NoBits(0);
    } else {
      assert BitStep(NoBits(n) + w) == NoBits(n - 1) + (w + [false]);
      ShiftOut(n - 1, w + [false]);
      assert w + [false] + NoBits(n - 1) == w + NoBits(n);
    }
  }
}
