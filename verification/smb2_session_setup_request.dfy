/**
 * SMB2 SessionSetup request body: a 24-byte fixed part (structure size,
 * flags, security mode, capabilities, channel, buffer offset and length,
 * previous session id) followed by the security buffer, which is present
 * only when `buffer_offset` is positive.
 */
module Smb2SessionSetupRequest {
  import opened Bytes
  import opened BitFields
  import Smb2Header
  import Smb2NegotiateRequest

  datatype Request = Request(
    structureSize: nat,
    flags: nat,
    securityMode: nat,
    capabilities: nat,
    channel: nat,
    bufferOffset: nat,
    bufferLength: nat,
    prevSessionId: nat,
    buffer: seq<byte>)

  /** `structure_size` default. */
  const StructureSize: nat := 25

  /** structure_size, flags, security_mode, capabilities, channel, buffer_offset, buffer_length, prev_session_id. */
  const Widths: seq<nat> := [2, 1, 1, 4, 4, 2, 2, 8]

  /** Offset of `buffer` in the body: the size of the fixed part. */
  const BufferOffset: nat := 24

  lemma WidthsTotal()
    ensures Total(Widths) == BufferOffset
  {
  }

  /**
   * A request built with no argument: `security_mode` at the first value of
   * its table, the buffer offset past the fixed part, and the buffer a
   * default GSSAPI object, given here by its DER bytes `gssapi` because the
   * ASN.1 encoder is not part of this model.
   */
  function Default(gssapi: seq<byte>): (r: Request)
    ensures r.buffer == gssapi && r.bufferLength == 0
  {
    Request(StructureSize, 0, Smb2NegotiateRequest.DefaultSecurityMode, 0, 0, Smb2Header.HeaderSize + BufferOffset, 0, 0, gssapi)
  }

  /** The default buffer offset is the header size plus six 32-bit words, so the buffer is present. */
  lemma DefaultBufferOffset(gssapi: seq<byte>)
    ensures Default(gssapi).bufferOffset == 88 == Smb2Header.HeaderSize + 6 * 4
    ensures Present(Default(gssapi))
    ensures Smb2NegotiateRequest.SecurityModeName(Default(gssapi).securityMode) == Known("signing_enabled")
  {
  }

  // ---- bit fields ------------------------------------------------------------

  /** `flags`: 7 reserved bits, then `binding` in the lowest bit. */
  const FlagWidths: seq<nat> := [7, 1]
  /** `capabilities`: 31 reserved bits, then `dfs` in the lowest bit. */
  const CapWidths: seq<nat> := [31, 1]

  /** Value of a bit attribute whose last sub-field is one bit wide. */
  lemma LastFlagIsLowBit(x: nat, ws: seq<nat>)
    requires |ws| == 2 && ws[1] == 1
    ensures Unpack(x, ws)[1] == x % 2
  {
    UnpackLast(x, ws);
    assert Pow2(1) == 2 by { assert Pow2(1) == 2 * Pow2(0); }
  }

  /** `flags_binding?` holds iff the lowest bit of `flags` is set. */
  lemma BindingIsLowBit(flags: nat)
    ensures Unpack(flags, FlagWidths)[1] == 1 <==> flags % 2 == 1
  {
    LastFlagIsLowBit(flags, FlagWidths);
  }

  /** `cap_dfs?` holds iff the lowest bit of `capabilities` is set. */
  lemma DfsIsLowBit(cap: nat)
    ensures Unpack(cap, CapWidths)[1] == 1 <==> cap % 2 == 1
  {
    LastFlagIsLowBit(cap, CapWidths);
  }

  /** Capabilities 1: DFS, and no reserved bit. */
  lemma Capabilities1()
    ensures Unpack(1, CapWidths) == [0, 1]
  {
    LastFlagIsLowBit(1, CapWidths);
    UnpackLast(1, CapWidths);
    assert CapWidths[..1] == [31];
    assert Shr(1, 1) == 0;
    UnpackZero([31]);
    assert Unpack(1, CapWidths)[0] == Unpack(0, [31])[0] == 0;
  }

  // ---- layout ----------------------------------------------------------------

  function Ints(r: Request): seq<nat> {
    [r.structureSize, r.flags, r.securityMode, r.capabilities, r.channel, r.bufferOffset,
     r.bufferLength, r.prevSessionId]
  }

  /** The buffer is on the wire only when its offset is positive. */
  predicate Present(r: Request) {
    r.bufferOffset > 0
  }

  /**
   * Integers fit their widths; a present buffer has the length its field
   * gives, an absent one is empty.
   */
  predicate WellFormed(r: Request) {
    AllFit(Ints(r), Widths) &&
    if Present(r) then |r.buffer| == r.bufferLength else r.buffer == []
  }

  /** The buffer as it is on the wire: empty when the offset is zero. */
  function Wire(r: Request): seq<byte> {
    if Present(r) then r.buffer else []
  }

  /** `to_s`: the fixed part, then the buffer when it is present. */
  function ToBytes(r: Request): (b: seq<byte>)
    ensures Present(r) ==> |b| == BufferOffset + |r.buffer|
    ensures !Present(r) ==> |b| == BufferOffset
  {
    WidthsTotal();
    WriteInts(Ints(r), Widths) + Wire(r)
  }

  function Make(v: seq<nat>, buffer: seq<byte>): (r: Request)
    requires |v| == |Widths|
    ensures Ints(r) == v && r.buffer == buffer
  {
    Request(v[0], v[1], v[2], v[3], v[4], v[5], v[6], v[7], buffer)
  }

  /**
   * Reads a request body: the fixed part needs its 24 bytes; when the buffer
   * offset is positive the buffer takes up to `buffer_length` bytes, and when
   * it is zero nothing more is read.
   */
  function Read(s: seq<byte>): (r: Result<(Request, seq<byte>)>)
    ensures r.Ok? <==> |s| >= BufferOffset
    ensures r.Ok? ==> AllFit(Ints(r.value.0), Widths) && ToBytes(r.value.0) + r.value.1 == s
    ensures r.Ok? ==> Present(r.value.0) || (r.value.0.buffer == [] && r.value.1 == s[BufferOffset..])
  {
    WidthsTotal();
    var v :- ReadInts(s, Widths);
    var buffer := ReadBuffer(v.0[5], v.0[6], v.1);
    var r := Make(v.0, buffer.0);
    ToBytesOfMake(v.0, buffer.0, buffer.1);
    Ok((r, buffer.1))
  }

  /** The buffer read: up to `length` bytes when the offset is positive, nothing otherwise. */
  function ReadBuffer(offset: nat, length: nat, s: seq<byte>): (r: (seq<byte>, seq<byte>))
    ensures r.0 + r.1 == s
    ensures offset == 0 ==> r.0 == []
  {
    if offset > 0 then TakeUpTo(s, length) else ([], s)
  }

  /** The fixed part, then the wire buffer. */
  lemma ToBytesParts(r: Request)
    ensures ToBytes(r) == WriteInts(Ints(r), Widths) + Wire(r)
  {
  }

  /** A built request writes the integers it was built from. */
  lemma FixedOfMake(v: seq<nat>, buffer: seq<byte>)
    requires |v| == |Widths|
    ensures WriteInts(Ints(Make(v, buffer)), Widths) == WriteInts(v, Widths)
  {
  }

  lemma ToBytesOfMake(v: seq<nat>, buffer: seq<byte>, rest: seq<byte>)
    requires |v| == |Widths| && (v[5] == 0 ==> buffer == [])
    ensures ToBytes(Make(v, buffer)) + rest == WriteInts(v, Widths) + (buffer + rest)
  {
    var r := Make(v, buffer);
    ToBytesParts(r);
    FixedOfMake(v, buffer);
    assert Wire(r) == buffer;
    Assoc3(WriteInts(v, Widths), buffer, rest);
  }

  /** A well-formed request is read back from its bytes, whatever follows. */
  lemma ReadToBytes(r: Request, rest: seq<byte>)
    requires WellFormed(r)
    ensures Read(ToBytes(r) + rest) == Ok((r, rest))
  {
    var b := Wire(r);
    ToBytesParts(r);
    Assoc3(WriteInts(Ints(r), Widths), b, rest);
    ReadIntsOfWrite(Ints(r), Widths, b + rest);
    if Present(r) {
      TakeUpToOfPrefix(r.buffer, rest);
    }
    assert Make(Ints(r), r.buffer) == r;
  }

  // ---- calc_length -------------------------------------------------------------

  /**
   * `calc_length`: the buffer length is the size of the buffer; the buffer
   * offset is zero for an empty buffer and otherwise counts from the start of
   * the SMB2 header.
   */
  function CalcLength(r: Request): (c: Request)
    ensures c.bufferLength == |r.buffer|
    ensures c.bufferOffset == 0 <==> |r.buffer| == 0
    ensures |r.buffer| > 0 ==> c.bufferOffset == Smb2Header.HeaderSize + BufferOffset
    ensures c.(bufferOffset := r.bufferOffset, bufferLength := r.bufferLength) == r
  {
    var len := |r.buffer|;
    r.(bufferLength := len, bufferOffset := if len == 0 then 0 else Smb2Header.HeaderSize + BufferOffset)
  }

  /** Computing the lengths twice gives what computing them once gives. */
  lemma CalcLengthIdempotent(r: Request)
    ensures CalcLength(CalcLength(r)) == CalcLength(r)
  {
  }

  /**
   * After `calc_length` the buffer is on the wire exactly when it is
   * non-empty, so no byte of it is lost, and a request whose integers fit is
   * well formed.
   */
  lemma CalcLengthKeepsBuffer(r: Request)
    ensures Present(CalcLength(r)) <==> |r.buffer| > 0
    ensures ToBytes(CalcLength(r)) == WriteInts(Ints(CalcLength(r)), Widths) + r.buffer
    ensures AllFit(Ints(CalcLength(r)), Widths) ==> WellFormed(CalcLength(r))
  {
  }

  /**
   * After `calc_length`, behind any SMB2 header, the buffer offset and length
   * locate a non-empty buffer.
   */
  lemma CalcLengthLocates(r: Request, header: seq<byte>)
    requires |header| == Smb2Header.HeaderSize && |r.buffer| > 0
    ensures var c := CalcLength(r);
      (header + ToBytes(c))[c.bufferOffset..c.bufferOffset + c.bufferLength] == r.buffer
  {
    var c := CalcLength(r);
    WidthsTotal();
    var pre := header + WriteInts(Ints(c), Widths);
    assert header + ToBytes(c) == pre + r.buffer;
    assert (pre + r.buffer)[|pre|..|pre| + |r.buffer|] == r.buffer;
  }
}
