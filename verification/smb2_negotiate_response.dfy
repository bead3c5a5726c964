/**
 * SMB2 Negotiate response body: a 64-byte fixed part (structure size,
 * security mode, dialect, context count, server GUID, capabilities, three
 * maximum sizes, two FILETIMEs, buffer offset and length, context offset),
 * then the security buffer, a pad to the next multiple of 8 and
 * `context_count` negotiate contexts. `calc_length` fills in the offsets
 * and the buffer length.
 */
module Smb2NegotiateResponse {
  import opened Bytes
  import opened BitFields
  import Lists
  import Smb2Base
  import Smb2Guid
  import Smb2Context
  import Smb2NegotiateRequest

  datatype Response = Response(
    structureSize: nat,
    securityMode: nat,
    dialect: nat,
    contextCount: nat,
    serverGuid: Smb2Guid.Guid,
    capabilities: nat,
    maxTransSize: nat,
    maxReadSize: nat,
    maxWriteSize: nat,
    systemTime: nat,
    startTime: nat,
    bufferOffset: nat,
    bufferLength: nat,
    contextOffset: nat,
    buffer: seq<byte>,
    pad: seq<byte>,
    contexts: seq<Smb2Context.Context>)

  /** Size of an SMB2 header built with no argument (`SMB2.new.sz`). */
  const Smb2HeaderSize: nat := 64

  /** `structure_size` default. */
  const StructureSize: nat := 65

  /** Offset of `buffer` in the body: the size of the fixed part. */
  const BufferOffset: nat := 64

  /**
   * A response built with no argument: `security_mode` at the first value of
   * its table and the buffer a default GSSAPI object, given here by its DER
   * bytes `gssapi` because the ASN.1 encoder is not part of this model.
   */
  function Default(gssapi: seq<byte>): (r: Response)
    ensures r.buffer == gssapi && r.contexts == [] && r.pad == Smb2Base.DefaultPad
  {
    Response(StructureSize, Smb2NegotiateRequest.DefaultSecurityMode, 0, 0, Smb2Guid.Guid(0, 0, 0, 0), 0, 0, 0, 0, 0, 0, 0, 0, 0,
             gssapi, Smb2Base.DefaultPad, [])
  }

  /** structure_size, security_mode, dialect, context_count. */
  const HeadWidths: seq<nat> := [2, 2, 2, 2]
  /**
   * capabilities, max_trans_size, max_read_size, max_write_size, system_time,
   * start_time, buffer_offset, buffer_length, context_offset.
   */
  const MidWidths: seq<nat> := [4, 4, 4, 4, 8, 8, 2, 2, 4]

  function HeadInts(r: Response): seq<nat> {
    [r.structureSize, r.securityMode, r.dialect, r.contextCount]
  }

  function MidInts(r: Response): seq<nat> {
    [r.capabilities, r.maxTransSize, r.maxReadSize, r.maxWriteSize, r.systemTime, r.startTime,
     r.bufferOffset, r.bufferLength, r.contextOffset]
  }

  lemma WidthsTotal()
    ensures Total(HeadWidths) + Smb2Guid.Size + Total(MidWidths) == BufferOffset
  {
  }

  /** Length the pad takes when read after an `n`-byte buffer. */
  function PadSize(n: nat): (r: nat)
    ensures r < 8 && (BufferOffset + n + r) % 8 == 0
  {
    Smb2Base.PadAfter(BufferOffset, n)
  }

  /**
   * Integers fit their widths, the buffer has the length its field gives, the
   * pad the length a read gives it, and the count matches the contexts.
   */
  predicate WellFormed(r: Response) {
    AllFit(HeadInts(r), HeadWidths) && Smb2Guid.WellFormed(r.serverGuid) && AllFit(MidInts(r), MidWidths) &&
    |r.buffer| == r.bufferLength && |r.pad| == PadSize(|r.buffer|) &&
    |r.contexts| == r.contextCount &&
    forall i :: 0 <= i < |r.contexts| ==> Smb2Context.WellFormed(r.contexts[i])
  }

  function ContextBytes(cs: seq<Smb2Context.Context>): seq<byte> {
    Lists.Flatten(Smb2Context.ToBytes, cs)
  }

  /** `to_s`: every field in order. */
  function ToBytes(r: Response): seq<byte> {
    WriteInts(HeadInts(r), HeadWidths) + (Smb2Guid.ToBytes(r.serverGuid) + (WriteInts(MidInts(r), MidWidths) +
      (r.buffer + (r.pad + ContextBytes(r.contexts)))))
  }

  function Make(h: seq<nat>, g: Smb2Guid.Guid, m: seq<nat>, buffer: seq<byte>, pad: seq<byte>,
                cs: seq<Smb2Context.Context>): (r: Response)
    requires |h| == |HeadWidths| && |m| == |MidWidths|
    ensures HeadInts(r) == h && MidInts(r) == m && r.serverGuid == g
    ensures r.buffer == buffer && r.pad == pad && r.contexts == cs
  {
    Response(h[0], h[1], h[2], h[3], g, m[0], m[1], m[2], m[3], m[4], m[5], m[6], m[7], m[8], buffer, pad, cs)
  }

  /**
   * Reads a response body: the fixed part needs its 64 bytes, the buffer
   * takes up to `buffer_length` bytes, the pad up to its length, and
   * `context_count` contexts are read, fewer when the body ends.
   */
  function Read(s: seq<byte>): (r: Result<(Response, seq<byte>)>)
    ensures |s| < BufferOffset ==> r.Err?
    ensures r.Ok? ==> ToBytes(r.value.0) + r.value.1 == s
    ensures r.Ok? ==> AllFit(HeadInts(r.value.0), HeadWidths) && AllFit(MidInts(r.value.0), MidWidths) &&
                      Smb2Guid.WellFormed(r.value.0.serverGuid)
    ensures r.Ok? ==> |r.value.0.contexts| <= r.value.0.contextCount
  {
    WidthsTotal();
    var h :- ReadInts(s, HeadWidths);
    var g :- Smb2Guid.Read(h.1);
    var m :- ReadInts(g.1, MidWidths);
    ReadVariable(h.0, g.0, m.0, s, m.1)
  }

  /** The part of `Read` after the fixed part. */
  function ReadVariable(h: seq<nat>, g: Smb2Guid.Guid, m: seq<nat>, ghost s: seq<byte>, t: seq<byte>)
    : (r: Result<(Response, seq<byte>)>)
    requires AllFit(h, HeadWidths) && AllFit(m, MidWidths) && Smb2Guid.WellFormed(g)
    requires s == WriteInts(h, HeadWidths) + (Smb2Guid.ToBytes(g) + (WriteInts(m, MidWidths) + t))
    ensures r.Ok? ==> ToBytes(r.value.0) + r.value.1 == s
    ensures r.Ok? ==> HeadInts(r.value.0) == h && MidInts(r.value.0) == m && r.value.0.serverGuid == g
    ensures r.Ok? ==> |r.value.0.contexts| <= r.value.0.contextCount
  {
    var buffer := TakeUpTo(t, m[7]);
    var pad := TakeUpTo(buffer.1, PadSize(|buffer.0|));
    var cs :- Smb2Context.ReadList(pad.1, h[3]);
    MakeToBytes(h, g, m, buffer.0, pad.0, cs.0, cs.1);
    Ok((Make(h, g, m, buffer.0, pad.0, cs.0), cs.1))
  }

  /** The fixed part takes 64 bytes, then come the buffer, the pad and the contexts. */
  lemma ToBytesLength(r: Response)
    ensures |ToBytes(r)| == BufferOffset + |r.buffer| + |r.pad| + |ContextBytes(r.contexts)|
  {
    WidthsTotal();
  }

  lemma MakeToBytes(h: seq<nat>, g: Smb2Guid.Guid, m: seq<nat>, buffer: seq<byte>, pad: seq<byte>,
                    cs: seq<Smb2Context.Context>, rest: seq<byte>)
    requires |h| == |HeadWidths| && |m| == |MidWidths|
    ensures ToBytes(Make(h, g, m, buffer, pad, cs)) + rest ==
      WriteInts(h, HeadWidths) + (Smb2Guid.ToBytes(g) + (WriteInts(m, MidWidths) +
        (buffer + (pad + (ContextBytes(cs) + rest)))))
  {
    var w1, w2, w3, c := WriteInts(h, HeadWidths), Smb2Guid.ToBytes(g), WriteInts(m, MidWidths), ContextBytes(cs);
    assert ToBytes(Make(h, g, m, buffer, pad, cs)) == w1 + (w2 + (w3 + (buffer + (pad + c))));
    Assoc6(w1, w2, w3, buffer, pad, c, rest);
  }

  /** A well-formed response is read back from its bytes, whatever follows. */
  lemma ReadToBytes(r: Response, rest: seq<byte>)
    requires WellFormed(r)
    ensures Read(ToBytes(r) + rest) == Ok((r, rest))
  {
    WidthsTotal();
    var cb := ContextBytes(r.contexts) + rest;
    var t4 := r.pad + cb;
    var t3 := r.buffer + t4;
    var t2 := WriteInts(MidInts(r), MidWidths) + t3;
    var t1 := Smb2Guid.ToBytes(r.serverGuid) + t2;
    assert Make(HeadInts(r), r.serverGuid, MidInts(r), r.buffer, r.pad, r.contexts) == r;
    MakeToBytes(HeadInts(r), r.serverGuid, MidInts(r), r.buffer, r.pad, r.contexts, rest);
    ReadIntsOfWrite(HeadInts(r), HeadWidths, t1);
    Smb2Guid.ReadToBytes(r.serverGuid, t2);
    ReadIntsOfWrite(MidInts(r), MidWidths, t3);
    TakeUpToOfPrefix(r.buffer, t4);
    TakeUpToOfPrefix(r.pad, cb);
    Smb2Context.ReadListOfConcat(r.contexts, rest, r.contextCount);
  }

  // ---- calc_length -------------------------------------------------------------

  /**
   * `calc_length`: the context offset and the buffer offset count from the
   * start of the SMB2 header (64 bytes before the body), the buffer length
   * is the size of the buffer, and every context gets its own length.
   */
  function CalcLength(r: Response): (c: Response)
    ensures c.bufferOffset == Smb2HeaderSize + BufferOffset && c.bufferLength == |r.buffer|
    ensures c.contextOffset == Smb2HeaderSize + BufferOffset + |r.buffer| + |r.pad|
    ensures |c.contexts| == |r.contexts| &&
            forall i :: 0 <= i < |r.contexts| ==> c.contexts[i] == Smb2Context.CalcLength(r.contexts[i])
    ensures c.(bufferOffset := r.bufferOffset, bufferLength := r.bufferLength, contextOffset := r.contextOffset,
               contexts := r.contexts) == r
  {
    r.(contextOffset := Smb2HeaderSize + BufferOffset + |r.buffer| + |r.pad|,
       bufferOffset := Smb2HeaderSize + BufferOffset,
       bufferLength := |r.buffer|,
       contexts := Smb2Context.CalcAll(r.contexts))
  }

  /** Computing the lengths twice gives what computing them once gives. */
  lemma CalcLengthIdempotent(r: Response)
    ensures CalcLength(CalcLength(r)) == CalcLength(r)
  {
    var c := CalcLength(r);
    assert Smb2Context.CalcAll(c.contexts) == c.contexts;
  }

  /**
   * After `calc_length`, behind any 64-byte SMB2 header, the buffer offset and
   * length locate the buffer and the context offset locates the contexts.
   */
  lemma CalcLengthLocates(r: Response, header: seq<byte>)
    requires |header| == Smb2HeaderSize
    ensures var c := CalcLength(r); var b := header + ToBytes(c);
      b[c.bufferOffset..c.bufferOffset + c.bufferLength] == c.buffer &&
      b[c.contextOffset..] == ContextBytes(c.contexts)
  {
    var c := CalcLength(r);
    WidthsTotal();
    var w1, w2, w3 := WriteInts(HeadInts(c), HeadWidths), Smb2Guid.ToBytes(c.serverGuid), WriteInts(MidInts(c), MidWidths);
    var pre := header + w1 + w2 + w3;
    assert header + ToBytes(c) == pre + (c.buffer + (c.pad + ContextBytes(c.contexts)));
    SlicesOfLayout(pre, c.buffer, c.pad, ContextBytes(c.contexts));
  }

  /**
   * Default response: `calc_length` sets the buffer length to the size of the
   * GSSAPI DER and puts the contexts behind it and the 8 default pad bytes.
   */
  lemma DefaultCalcLength(gssapi: seq<byte>)
    ensures CalcLength(Default(gssapi)).bufferOffset == 128
    ensures CalcLength(Default(gssapi)).bufferLength == |gssapi|
    ensures CalcLength(Default(gssapi)).contextOffset == 136 + |gssapi|
    ensures Smb2NegotiateRequest.SecurityModeName(CalcLength(Default(gssapi)).securityMode) == Known("signing_enabled")
  {
  }

  /**
   * The offsets the SMB2 Negotiate test expects, which hold for an empty
   * security buffer: buffer length 0 and context offset 136.
   */
  lemma EmptyBufferCalcLength()
    ensures CalcLength(Default([])).bufferOffset == 128
    ensures CalcLength(Default([])).bufferLength == 0
    ensures CalcLength(Default([])).contextOffset == 136
  {
    DefaultCalcLength([]);
  }

  /** Capabilities 0x2f of a Windows server: dir_leasing, multi_channel, large_mtu, leasing, dfs. */
  lemma Capabilities0x2f()
    ensures Unpack(0x2f, Smb2NegotiateRequest.CapWidths)[1..] == [0, 1, 0, 1, 1, 1, 1]
  {
    var u := Unpack(0x2f, Smb2NegotiateRequest.CapWidths);
    forall i | 1 <= i < 8
      ensures u[i] == 1 <==> BitSet(0x2f, 7 - i)
    {
      Smb2NegotiateRequest.CapIsBit(0x2f, i);
    }
    assert Shr(0x2f, 1) == 0x17 && Shr(0x2f, 2) == 0xb && Shr(0x2f, 3) == 5;
    assert Shr(0x2f, 4) == 2 && Shr(0x2f, 5) == 1 && Shr(0x2f, 6) == 0;
    assert forall i :: 0 <= i < |u| ==> u[i] < Pow2(Smb2NegotiateRequest.CapWidths[i]);
  }
}
