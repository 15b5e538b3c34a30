/** The length-prefixed frames that both tty daemons speak: sixteen header bytes (magic, version, kind,
    payload length, sequence number, checksum) and at most 1024 payload bytes. */
module Frames {
  import opened Common
  import opened Bits
  import opened Crc32

  const MAGIC: seq<Byte> := [0x53, 0x32, 0x4f, 0x30]
  const VERSION: Byte := 1
  const REQUEST: Byte := 1
  const RESPONSE: Byte := 2
  const HEADER_SIZE: nat := 16
  const MAX_PAYLOAD: nat := 1024

  /** A frame as it travels; `crc` is what its header claims, right or wrong. */
  datatype Frame = Frame(sequence: nat, payload: seq<Byte>, crc: Word) {
    predicate Valid() {
      sequence < U32_LIMIT && |payload| <= MAX_PAYLOAD
    }
  }

  /** A little-endian word: the bits of its bytes, in order. */
  function LoadWord(b: seq<Byte>): Word
    requires |b| == 4
  {
    ToBits(b[0], 8) + ToBits(b[1], 8) + ToBits(b[2], 8) + ToBits(b[3], 8)
  }

  function StoreWord(w: Word): (b: seq<Byte>)
    ensures |b| == 4 && LoadWord(b) == w
  {
    ByteWidth();
    ToFromBits(w[..8]);
    ToFromBits(w[8..16]);
    ToFromBits(w[16..24]);
    ToFromBits(w[24..]);
    assert w == w[..8] + w[8..16] + w[16..24] + w[24..];
    [FromBits(w[..8]), FromBits(w[8..16]), FromBits(w[16..24]), FromBits(w[24..])]
  }

  /** The bits of four bytes are those of the word they store. */
  lemma FourBytes(b: seq<Byte>)
    requires |b| == 4
    ensures MessageBits(b) == LoadWord(b)
  {
    hide ToBits, MessageBits;
    NoBytes();
    var b1, b2, b3 := [b[0]], [b[0], b[1]], [b[0], b[1], b[2]];
    assert [] + [b[0]] == b1 && b1 + [b[1]] == b2 && b2 + [b[2]] == b3 && b3 + [b[3]] == b;
    MessageBitsSnoc([], b[0]);
    MessageBitsSnoc(b1, b[1]);
    MessageBitsSnoc(b2, b[2]);
    MessageBitsSnoc(b3, b[3]);
    assert [] + ToBits(b[0], 8) == ToBits(b[0], 8);
  }

  lemma WordUnique(a: seq<Byte>, b: seq<Byte>)
    requires |a| == |b| == 4 && LoadWord(a) == LoadWord(b)
    ensures a == b
  {
    hide ToBits;
    var w, v := LoadWord(a), LoadWord(b);
    ByteWidth();
    forall i | 0 <= i < 4
      ensures a[i] == b[i]
    {
      assert ToBits(a[i], 8) == w[8 * i..8 * i + 8];
      assert ToBits(b[i], 8) == v[8 * i..8 * i + 8];
      ToBitsInjective(a[i], b[i], 8);
    }
  }

  /** The twelve header bytes that the checksum covers. */
  function Prefix(kind: Byte, sequence: nat, length: nat): (h: seq<Byte>)
    requires sequence < U32_LIMIT && length <= MAX_PAYLOAD
    ensures |h| == 12
  {
    MAGIC + [VERSION, kind] + StoreLe16(length) + StoreLe32(sequence)
  }

  function Encode(kind: Byte, f: Frame): (bytes: seq<Byte>)
    requires f.Valid()
    ensures |bytes| == HEADER_SIZE + |f.payload|
  {
    Prefix(kind, f.sequence, |f.payload|) + StoreWord(f.crc) + f.payload
  }

  /** The checksum a frame of this kind ought to carry. */
  function Checksum(kind: Byte, sequence: nat, payload: seq<Byte>): Word
    requires sequence < U32_LIMIT && |payload| <= MAX_PAYLOAD
  {
    Crc(Prefix(kind, sequence, |payload|) + payload)
  }

  predicate Intact(kind: Byte, f: Frame)
    requires f.Valid()
  {
    f.crc == Checksum(kind, f.sequence, f.payload)
  }

  /** The daemons' test of a received header. */
  predicate WellFormed(h: seq<Byte>)
    requires |h| == HEADER_SIZE
  {
    h[..4] == MAGIC && h[4] == VERSION && h[5] == REQUEST && LoadLe16(h[6..8]) <= MAX_PAYLOAD
  }

  lemma HeaderFields(kind: Byte, sequence: nat, length: nat, crc: Word)
    requires sequence < U32_LIMIT && length <= MAX_PAYLOAD
    ensures var h := Prefix(kind, sequence, length) + StoreWord(crc);
            |h| == 16 && h[..4] == MAGIC && h[4] == VERSION && h[5] == kind && h[..12] == Prefix(kind, sequence, length)
            && LoadLe16(h[6..8]) == length && LoadLe32(h[8..12]) == sequence && LoadWord(h[12..16]) == crc
  {
    var p := Prefix(kind, sequence, length);
    var h := p + StoreWord(crc);
    assert h[..4] == MAGIC;
    assert h[6..8] == StoreLe16(length);
    assert h[8..12] == StoreLe32(sequence);
    assert h[12..16] == StoreWord(crc);
    assert h[..12] == p;
  }

  /** A header that passes the daemons' test is the encoding of its own fields. */
  lemma HeaderOfFields(h: seq<Byte>)
    requires |h| == HEADER_SIZE && WellFormed(h)
    ensures LoadLe32(h[8..12]) < U32_LIMIT
    ensures h == Prefix(REQUEST, LoadLe32(h[8..12]), LoadLe16(h[6..8])) + StoreWord(LoadWord(h[12..16]))
  {
    Le16Unique(h[6..8], StoreLe16(LoadLe16(h[6..8])));
    Le32Unique(h[8..12], StoreLe32(LoadLe32(h[8..12])));
    WordUnique(h[12..16], StoreWord(LoadWord(h[12..16])));
    var p := Prefix(REQUEST, LoadLe32(h[8..12]), LoadLe16(h[6..8]));
    assert h[..12] == h[..4] + [h[4], h[5]] + h[6..8] + h[8..12];
    assert h == h[..12] + h[12..16];
  }

  // ----- reading frames back

  function Length(f: Frame): nat {
    HEADER_SIZE + |f.payload|
  }

  function Assembled(header: seq<Byte>, payload: seq<Byte>): (f: Frame)
    requires |header| == HEADER_SIZE && WellFormed(header) && |payload| == LoadLe16(header[6..8])
    ensures f.Valid()
  {
    Frame(LoadLe32(header[8..12]), payload, LoadWord(header[12..16]))
  }

  /** The frame at the front of a stream, if it is complete and its header is well formed. */
  function Parse(stream: seq<Byte>): (r: Option<Frame>)
    ensures r.Some? ==> r.value.Valid() && Length(r.value) <= |stream|
  {
    if |stream| < HEADER_SIZE || !WellFormed(stream[..16]) then None
    else
      var length := LoadLe16(stream[6..8]);
      assert stream[..16][6..8] == stream[6..8];
      if |stream| < HEADER_SIZE + length then None
      else Some(Assembled(stream[..16], stream[16..16 + length]))
  }

  lemma ParseEncoded(f: Frame, rest: seq<Byte>)
    requires f.Valid()
    ensures Parse(Encode(REQUEST, f) + rest) == Some(f)
  {
    var s := Encode(REQUEST, f) + rest;
    HeaderFields(REQUEST, f.sequence, |f.payload|, f.crc);
    assert s[..16] == Prefix(REQUEST, f.sequence, |f.payload|) + StoreWord(f.crc);
    assert s[..16][6..8] == s[6..8];
    assert s[16..16 + |f.payload|] == f.payload;
  }

  /** Parsing loses nothing: what it consumed is the encoding of what it returned. */
  lemma EncodeParsed(stream: seq<Byte>)
    requires Parse(stream).Some?
    ensures stream[..Length(Parse(stream).value)] == Encode(REQUEST, Parse(stream).value)
  {
    var f := Parse(stream).value;
    HeaderOfFields(stream[..16]);
    assert stream[..16][6..8] == stream[6..8];
    assert stream[..Length(f)] == stream[..16] + stream[16..Length(f)];
  }

  /** What a daemon checksums on arrival is what the frame ought to be checksummed over. */
  lemma CoveredBytes(header: seq<Byte>, payload: seq<Byte>)
    requires |header| == HEADER_SIZE && WellFormed(header) && |payload| == LoadLe16(header[6..8])
    ensures Intact(REQUEST, Assembled(header, payload)) <==> Crc(header[..12] + payload) == LoadWord(header[12..16])
  {
    HeaderOfFields(header);
    assert header[..12] == Prefix(REQUEST, LoadLe32(header[8..12]), LoadLe16(header[6..8]));
  }

  /** What the checksum of a frame's bytes covers. */
  function Covered(bytes: seq<Byte>): seq<Byte>
    requires |bytes| >= HEADER_SIZE
  {
    bytes[..12] + bytes[16..]
  }

  lemma EncodedParts(kind: Byte, f: Frame)
    requires f.Valid()
    ensures var bytes := Encode(kind, f);
            Covered(bytes) == Prefix(kind, f.sequence, |f.payload|) + f.payload && bytes[12..16] == StoreWord(f.crc)
  {
    hide Prefix, StoreWord;
  }

  // ----- streams of frames

  function Stream(frames: seq<Frame>): seq<Byte>
    requires forall f :: f in frames ==> f.Valid()
  {
    if frames == [] then [] else Encode(REQUEST, frames[0]) + Stream(frames[1..])
  }
}
