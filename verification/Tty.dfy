/** The serial line and the request loops of the two tty daemons.

    The line may hand over and accept bytes in pieces of any size. When it is not `quiet`, any read or
    write may also time out or fail, after some of its bytes have already been moved. */
module Tty {
  import opened Common
  import opened Bits
  import opened Crc32
  import opened Frames

  class Line {
    const input: seq<Byte>  // everything the host ever sends after the first open
    const quiet: bool
    var pos: nat
    var output: seq<Byte>
    ghost var opens: nat    // attempts to open the device
    ghost var failed: nat   // those of them that failed
    ghost var checks: nat   // times that the idle timeout was looked at
    ghost var idles: nat    // times that it was found to be over

    constructor (input: seq<Byte>, quiet: bool)
      ensures this.input == input && this.quiet == quiet && pos == 0 && output == []
    {
      this.input, this.quiet := input, quiet;
      pos, output, opens, failed, checks, idles := 0, [], 0, 0, 0, 0;
    }

    /** open_tty */
    method Open() returns (ok: bool)
      modifies this`opens, this`failed
      ensures opens == old(opens) + 1 && failed == old(failed) + (if ok then 0 else 1) && (quiet ==> ok)
    {
      var f := Fault(quiet);
      ok := !f;
      opens, failed := opens + 1, failed + if ok then 0 else 1;
    }

    method IdleTooLong() returns (over: bool)
      modifies this`checks, this`idles
      ensures checks == old(checks) + 1 && idles == old(idles) + if over then 1 else 0
    {
      over := *;
      checks, idles := checks + 1, idles + if over then 1 else 0;
    }

    ghost predicate Valid()
      reads this`pos
    {
      pos <= |input|
    }

    /** read_exact: 1 with exactly `len` bytes, 0 on timeout, -1 on failure. */
    method ReadExact(len: nat) returns (rc: int, buf: seq<Byte>)
      requires Valid()
      modifies this`pos
      ensures Valid() && rc in {1, 0, -1} && old(pos) <= pos
      ensures rc == 1 ==> |buf| == len && pos == old(pos) + len && buf == input[old(pos)..pos]
      ensures quiet ==> rc == if old(pos) + len <= |input| then 1 else 0
    {
      buf := [];
      var patience: nat := *;
      while |buf| < len
        invariant Valid() && |buf| <= len && pos == old(pos) + |buf|
        invariant buf == input[old(pos)..pos]
        decreases len - |buf|, patience
      {
        if !quiet {
          var stop: bool := *;
          if stop {
            rc := *;
            rc := if rc == 0 then 0 else -1;
            return;
          }
        }
        var again: bool := *;
        if again && patience > 0 {
          patience := patience - 1;
          continue;
        }
        if pos == |input| {
          return 0, buf;
        }
        var got: nat := *;
        var room := if len - |buf| < |input| - pos then len - |buf| else |input| - pos;
        got := if 1 <= got <= room then got else room;
        buf := buf + input[pos..pos + got];
        pos := pos + got;
      }
      rc := 1;
    }

    /** write_all: 1 when every byte went out, otherwise 0 or -1 with only a prefix written. */
    method WriteAll(buf: seq<Byte>) returns (rc: int)
      modifies this`output
      ensures rc in {1, 0, -1} && (quiet ==> rc == 1)
      ensures exists n: nat :: n <= |buf| && output == old(output) + buf[..n] && (rc == 1 ==> n == |buf|)
    {
      var done := 0;
      var patience: nat := *;
      assert buf[..0] == [];
      while done < |buf|
        invariant done <= |buf| && output == old(output) + buf[..done]
        decreases |buf| - done, patience
      {
        if !quiet {
          var stop: bool := *;
          if stop {
            rc := *;
            rc := if rc == 0 then 0 else -1;
            return;
          }
        }
        var again: bool := *;
        if again && patience > 0 {
          patience := patience - 1;
          continue;
        }
        var sent: nat := *;
        sent := if 1 <= sent <= |buf| - done then sent else |buf| - done;
        output := output + buf[done..done + sent];
        assert buf[..done] + buf[done..done + sent] == buf[..done + sent];
        done := done + sent;
      }
      assert buf[..done] == buf;
      rc := 1;
    }
  }

  datatype Received = Idle | Broken | Malformed | Corrupt(frame: Frame) | Request(frame: Frame)

  /** The first half of either request loop: header, checks, payload, checksum. */
  method Receive(line: Line) returns (r: Received)
    requires line.Valid()
    modifies line`pos
    ensures line.Valid() && old(line.pos) <= line.pos
    ensures r.Corrupt? || r.Request? ==> r.frame.Valid()
    ensures r.Corrupt? || r.Request? ==>
              Parse(line.input[old(line.pos)..]) == Some(r.frame) && line.pos == old(line.pos) + Length(r.frame)
              && (r.Request? <==> Intact(REQUEST, r.frame))
    ensures line.quiet && Parse(line.input[old(line.pos)..]).Some? ==> r.Corrupt? || r.Request?
    ensures r.Malformed? ==> line.pos == old(line.pos) + HEADER_SIZE
                             && !WellFormed(line.input[old(line.pos)..old(line.pos) + HEADER_SIZE])
    ensures var rest := line.input[old(line.pos)..];
            line.quiet ==>
              && (r.Idle? <==> |rest| < HEADER_SIZE)
              && (r.Malformed? <==> |rest| >= HEADER_SIZE && !WellFormed(rest[..16]))
              && (r.Broken? <==> |rest| >= HEADER_SIZE && WellFormed(rest[..16]) && Parse(rest).None?)
  {
    hide Crc;
    ghost var rest := line.input[line.pos..];
    var rc, header := line.ReadExact(HEADER_SIZE);
    if rc == 0 {
      return Idle;
    }
    if rc < 0 {
      return Broken;
    }
    assert header == rest[..16];
    var length := LoadLe16(header[6..8]);
    if header[..4] != MAGIC || header[4] != VERSION || header[5] != REQUEST || length > MAX_PAYLOAD {
      return Malformed;
    }
    var payload;
    rc, payload := line.ReadExact(length);
    if rc <= 0 {
      return Broken;
    }
    assert payload == rest[16..16 + length];
    var crc := ComputeFrameCrc(header, payload);
    var frame := Assembled(header, payload);
    CoveredBytes(header, payload);
    r := if crc != LoadWord(header[12..16]) then Corrupt(frame) else Request(frame);
  }

  /** The second half: turn the request header into a response header and send both parts. */
  method Respond(line: Line, sequence: nat, body: seq<Byte>) returns (ok: bool)
    requires sequence < U32_LIMIT && |body| <= MAX_PAYLOAD
    modifies line`output
    ensures (line.quiet ==> ok) && old(line.output) <= line.output
    ensures ok ==> line.output == old(line.output) + Encode(RESPONSE, Response(sequence, body))
  {
    hide Crc, Prefix, StoreWord, Encode, Response;
    var prefix := Prefix(RESPONSE, sequence, |body|);
    var crc := ComputeFrameCrc(prefix + [0, 0, 0, 0], body);
    assert (prefix + [0, 0, 0, 0])[..12] == prefix;
    ResponseBytes(sequence, body);
    ghost var before := line.output;
    var header := prefix + StoreWord(crc);
    var rc := line.WriteAll(header);
    if rc <= 0 {
      return false;
    }
    assert header[..|header|] == header;
    rc := line.WriteAll(body);
    ok := rc > 0;
    assert body[..|body|] == body;
    assert before + header + body == before + (header + body);
  }

  lemma ResponseBytes(sequence: nat, body: seq<Byte>)
    requires sequence < U32_LIMIT && |body| <= MAX_PAYLOAD
    ensures var prefix := Prefix(RESPONSE, sequence, |body|);
            Encode(RESPONSE, Response(sequence, body)) == prefix + StoreWord(Crc(prefix + body)) + body
  {
    hide Crc, Prefix, StoreWord;
  }

  /** A response on the wire: its fields read back, and its checksum is that of the covered bytes. */
  lemma ResponseOnWire(sequence: nat, body: seq<Byte>)
    requires sequence < U32_LIMIT && |body| <= MAX_PAYLOAD
    ensures var bytes := Encode(RESPONSE, Response(sequence, body));
            && |bytes| == HEADER_SIZE + |body| && bytes[..4] == MAGIC && bytes[4] == VERSION && bytes[5] == RESPONSE
            && LoadLe16(bytes[6..8]) == |body| && LoadLe32(bytes[8..12]) == sequence && bytes[16..] == body
            && Crc(Covered(bytes)) == LoadWord(bytes[12..16])
  {
    hide Crc, Prefix, StoreWord, LoadWord, LoadLe16, LoadLe32, Covered;
    var f := Response(sequence, body);
    var bytes, header := Encode(RESPONSE, f), Prefix(RESPONSE, sequence, |body|) + StoreWord(f.crc);
    HeaderFields(RESPONSE, sequence, |body|, f.crc);
    EncodedParts(RESPONSE, f);
    assert bytes == header + body;
    assert bytes[..4] == header[..4] && bytes[6..8] == header[6..8] && bytes[8..12] == header[8..12];
    assert bytes[12..16] == header[12..16];
  }

  /** The response frame for a request: its sequence number and a matching checksum. */
  function Response(sequence: nat, body: seq<Byte>): (f: Frame)
    requires sequence < U32_LIMIT && |body| <= MAX_PAYLOAD
    ensures f.Valid()
  {
    Frame(sequence, body, Checksum(RESPONSE, sequence, body))
  }
}
