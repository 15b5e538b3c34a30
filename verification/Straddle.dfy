/** Why the burst guarantee stops at the edge of the checksum field: the field stands inside the frame, and
    a change of four neighbouring bytes on both sides of its edge can leave an intact frame intact. */
module Straddle {
  import opened Bits
  import opened Crc32
  import opened HexWords
  import opened Frames
  import opened WireBursts

  const DIFFERENCE := Hex(N1, N3, NA, N3, N0, N0, N0, N0)
  const SHIFTED := Hex(N0, N0, N0, N0, NE, ND, N1, N5)

  lemma EightTurns()
    ensures Turned(8, DIFFERENCE) == SHIFTED
  {}

  const RESIDUE := Hex(NE, ND, N1, N5, N0, N0, N0, N0)

  /** What the changed header bytes leave on an empty register once a payload byte has followed. */
  lemma Residue()
    ensures BitRegister(ZERO, Eight(N1, N3) + Eight(NA, N3) + NoBits(8)) == WordOf(RESIDUE)
  {
    hide Steps, Eight, BitStep, BitRegister;
    var bits := Eight(N1, N3) + Eight(NA, N3) + NoBits(8);
    FeedingBitByBit(ZERO, bits);
    ZeroOctet();
    assert FedAll(ZERO, bits) == WordOf(DIFFERENCE);
    StepsAre(8, DIFFERENCE);
    EightTurns();
    StepsAdd(8, 16, WordOf(DIFFERENCE));
    ShiftOut(16, Eight(NE, ND) + Eight(N1, N5));
    assert NoBits(16) + (Eight(NE, ND) + Eight(N1, N5)) == WordOf(SHIFTED);
    assert (Eight(NE, ND) + Eight(N1, N5)) + NoBits(16) == WordOf(RESIDUE);
  }

  lemma ZeroOctet()
    ensures Eight(N0, N0) == NoBits(8)
  {}

  /** A change of the two upper sequence bytes and the two lower checksum bytes goes unnoticed in every intact
      request with a payload of one byte: the burst guarantee stops at the edge of the checksum field. */
  lemma StraddlingUndetected(f: Frame, rest: seq<Byte>) returns (bytes: seq<Byte>)
    requires f.Valid() && Intact(REQUEST, f) && |f.payload| == 1
    ensures Missed(f, bytes, rest, 10, 4) && !Safe(10, 4, 1)
  {
    hide Intact, Missed, BitRegister, Eight;
    var d := Eight(N1, N3) + Eight(NA, N3);
    Residue();
    ZeroOctet();
    assert d[0] by { FirstBit(); }
    assert HiddenBy(d, 2, 0, 16, 1);
    bytes := ChangeHidden(f, 10, 14, rest);
  }

  lemma FirstBit()
    ensures Eight(N1, N3)[0]
  {}
}
