/**
 * SMB TRANSACTION response body: twelve integer fields (21 bytes), the
 * setup words, `byte_count`, `pad1` up to `data_offset`, and the body.
 */
module SmbTransResponse {
  import opened Bytes
  import SmbTrans
  import SmbHeader

  datatype Response = Response(
    wordCount: nat,
    totalParamCount: nat,
    totalDataCount: nat,
    rsv1: nat,
    paramCount: nat,
    paramOffset: nat,
    paramDisplacement: nat,
    dataCount: nat,
    dataOffset: nat,
    dataDisplacement: nat,
    setupCount: nat,
    rsv2: nat,
    setup: seq<nat>,
    byteCount: nat,
    pad1: seq<byte>,
    body: seq<byte>)

  /** word_count, total_param_count, total_data_count, rsv1, param_count, param_offset, param_displacement. */
  const HeadWidths: seq<nat> := [1, 2, 2, 2, 2, 2, 2]
  /** data_count, data_offset, data_displacement, setup_count, rsv2. */
  const TailWidths: seq<nat> := [2, 2, 2, 1, 1]
  /** `setup_count` is the fourth integer of the second run. */
  const SetupCountIndex: nat := 3

  /** Size of the integer part. */
  const FixedSize: nat := 21

  lemma WidthsTotal()
    ensures Total(HeadWidths) + Total(TailWidths) == FixedSize
  {
  }

  function Params(r: Response): SmbTrans.Params {
    SmbTrans.Params(
      [r.wordCount, r.totalParamCount, r.totalDataCount, r.rsv1, r.paramCount, r.paramOffset, r.paramDisplacement],
      [r.dataCount, r.dataOffset, r.dataDisplacement, r.setupCount, r.rsv2],
      r.setup, r.byteCount)
  }

  function Make(p: SmbTrans.Params, pad1: seq<byte>, body: seq<byte>): (r: Response)
    requires |p.head| == |HeadWidths| && |p.tail| == |TailWidths|
    ensures r.setupCount == p.tail[SetupCountIndex] && r.setup == p.setup && r.dataOffset == p.tail[1]
    ensures r.pad1 == pad1 && r.body == body
  {
    Response(p.head[0], p.head[1], p.head[2], p.head[3], p.head[4], p.head[5], p.head[6],
             p.tail[0], p.tail[1], p.tail[2], p.tail[3], p.tail[4], p.setup, p.byteCount, pad1, body)
  }

  /** `offset_of(:byte_count) + byte_count.sz`: the integers, the setup words and the byte count. */
  function DataStart(r: Response): nat {
    FixedSize + 2 * |r.setup| + 2
  }

  /** Length `pad1` is read with: up to `data_offset`, behind the SMB header and the parameter block. */
  function Pad1Length(r: Response): nat {
    SmbTrans.PadLength(r.dataOffset, DataStart(r))
  }

  /** The parameter block fits and has `setup_count` words, and `pad1` has the length it is read with. */
  predicate WellFormed(r: Response) {
    SmbTrans.ParamsFit(Params(r), HeadWidths, TailWidths, SetupCountIndex) && |r.pad1| == Pad1Length(r)
  }

  /** `to_s`: the parameter block, the pad and the body. */
  function ToBytes(r: Response): seq<byte> {
    SmbTrans.ParamBytes(Params(r), HeadWidths, TailWidths) + (r.pad1 + r.body)
  }

  /** The second stage of `read`: the pad and the body behind a parameter block that could be read. */
  function ReadRest(params: Result<(SmbTrans.Params, seq<byte>)>): (r: Result<Response>)
    requires params.Ok? ==> |params.value.0.head| == |HeadWidths| && |params.value.0.tail| == |TailWidths|
    ensures params.Err? <==> r.Err?
    ensures r.Ok? ==> r.value.setup == params.value.0.setup && r.value.setupCount == params.value.0.tail[SetupCountIndex]
    ensures r.Ok? ==> |r.value.pad1| <= Pad1Length(r.value) && r.value.pad1 + r.value.body == params.value.1
  {
    var p :- params;
    var pad := TakeUpTo(p.1, SmbTrans.PadLength(p.0.tail[1], FixedSize + 2 * |p.0.setup| + 2));
    Ok(Make(p.0, pad.0, pad.1))
  }

  /** The pad and body of a well-formed response, behind its parameter block, give back the response. */
  lemma ReadRestOfData(r: Response)
    requires WellFormed(r)
    ensures ReadRest(Ok((Params(r), r.pad1 + r.body))) == Ok(r)
  {
    TakeUpToOfPrefix(r.pad1, r.body);
    assert Make(Params(r), r.pad1, r.body) == r;
  }

  /**
   * Reads a response body: the parameter block needs its bytes; the pad and
   * the body take what is there.
   */
  function Read(s: seq<byte>): (r: Result<Response>)
    ensures |s| < FixedSize ==> r.Err?
    ensures r.Ok? ==> |r.value.setup| <= r.value.setupCount && |r.value.pad1| <= Pad1Length(r.value)
  {
    WidthsTotal();
    ReadRest(SmbTrans.ReadParams(s, HeadWidths, TailWidths, SetupCountIndex))
  }

  /** A well-formed response is read back from its bytes. */
  lemma ReadToBytes(r: Response)
    requires WellFormed(r)
    ensures Read(ToBytes(r)) == Ok(r)
  {
    SmbTrans.ReadParamsOfBytes(Params(r), HeadWidths, TailWidths, SetupCountIndex, r.pad1 + r.body);
    ReadRestOfData(r);
  }

  /**
   * When `data_offset` lies past the parameter block, `pad1` makes the body
   * start at `data_offset`, counted from the start of the SMB header.
   */
  lemma BodyAtDataOffset(r: Response, header: seq<byte>)
    requires WellFormed(r) && |header| == SmbHeader.HeaderSize
    requires SmbHeader.HeaderSize + DataStart(r) <= r.dataOffset
    ensures r.dataOffset <= |header + ToBytes(r)| && (header + ToBytes(r))[r.dataOffset..] == r.body
  {
    WidthsTotal();
    var pb := SmbTrans.ParamBytes(Params(r), HeadWidths, TailWidths);
    assert |header| + |pb| + |r.pad1| == r.dataOffset;
    assert header + ToBytes(r) == (header + pb + r.pad1) + r.body;
  }

  /** A response built with no argument: 10 words and a 4-byte pad. */
  const Default: Response := Response(10, 0, 0, 0, 0, 0, 0, 0, 0, 0, 0, 0, [], 0, Zeros(4), [])

  /** A captured response: no setup word and a `data_offset` of 56 leave a 1-byte pad. */
  lemma Pad1Vector()
    ensures DataStart(Default) == 23 && Pad1Length(Default.(dataOffset := 56)) == 1
  {
  }
}
