/**
 * SMB TRANSACTION request body: sixteen integer fields (29 bytes), the setup
 * words, `byte_count`, an alignment byte before the name when the SMB header
 * is unicode, the mailslot or pipe name, `pad1` up to `data_offset`, and the
 * body.
 */
module SmbTransRequest {
  import opened Bytes
  import SmbString
  import SmbTrans
  import SmbHeader

  datatype Request = Request(
    wordCount: nat,
    totalParamCount: nat,
    totalDataCount: nat,
    maxParamCount: nat,
    maxDataCount: nat,
    maxSetupCount: nat,
    rsv1: nat,
    flags: nat,
    timeout: nat,
    rsv2: nat,
    paramCount: nat,
    paramOffset: nat,
    dataCount: nat,
    dataOffset: nat,
    setupCount: nat,
    rsv3: nat,
    setup: seq<nat>,
    byteCount: nat,
    padname: Option<nat>,
    name: seq<byte>,
    pad1: seq<byte>,
    body: seq<byte>)

  /** word_count, total_param_count, total_data_count, max_param_count, max_data_count, max_setup_count, rsv1, flags, timeout. */
  const HeadWidths: seq<nat> := [1, 2, 2, 2, 2, 1, 1, 2, 4]
  /** rsv2, param_count, param_offset, data_count, data_offset, setup_count, rsv3. */
  const TailWidths: seq<nat> := [2, 2, 2, 2, 2, 1, 1]
  /** `setup_count` is the sixth integer of the second run. */
  const SetupCountIndex: nat := 5

  /** Size of the integer part. */
  const FixedSize: nat := 29

  lemma WidthsTotal()
    ensures Total(HeadWidths) + Total(TailWidths) == FixedSize
  {
    assert Total(HeadWidths) == 17;
  }

  function Params(r: Request): SmbTrans.Params {
    SmbTrans.Params(
      [r.wordCount, r.totalParamCount, r.totalDataCount, r.maxParamCount, r.maxDataCount, r.maxSetupCount,
       r.rsv1, r.flags, r.timeout],
      [r.rsv2, r.paramCount, r.paramOffset, r.dataCount, r.dataOffset, r.setupCount, r.rsv3],
      r.setup, r.byteCount)
  }

  function Make(p: SmbTrans.Params, padname: Option<nat>, name: seq<byte>, pad1: seq<byte>, body: seq<byte>): (r: Request)
    requires |p.head| == |HeadWidths| && |p.tail| == |TailWidths|
    ensures r.setupCount == p.tail[SetupCountIndex] && r.setup == p.setup && r.dataOffset == p.tail[4]
    ensures r.padname == padname && r.name == name && r.pad1 == pad1 && r.body == body
  {
    Request(p.head[0], p.head[1], p.head[2], p.head[3], p.head[4], p.head[5], p.head[6], p.head[7], p.head[8],
            p.tail[0], p.tail[1], p.tail[2], p.tail[3], p.tail[4], p.tail[5], p.tail[6],
            p.setup, p.byteCount, padname, name, pad1, body)
  }

  /** `offset_of(:name)`: the integers, the setup words, the byte count and the alignment byte. */
  function NameOffset(r: Request): nat {
    FixedSize + 2 * |r.setup| + 2 + SmbString.AlignSize(r.padname)
  }

  /** Length `pad1` is read with: up to `data_offset`, behind the SMB header, the integers and the name. */
  function Pad1Length(r: Request): nat {
    SmbTrans.PadLength(r.dataOffset, NameOffset(r) + |SmbString.Wire(r.name)|)
  }

  /**
   * The parameter block fits and has `setup_count` words, the alignment
   * byte is there exactly for a unicode header, the name can be written
   * back, and `pad1` has the length it is read with.
   */
  predicate WellFormed(r: Request, unicode: bool) {
    SmbTrans.ParamsFit(Params(r), HeadWidths, TailWidths, SetupCountIndex) &&
    (r.padname.Some? <==> unicode) && (r.padname.Some? ==> Fits(r.padname.value, 1)) &&
    SmbString.Valid(r.name) && |r.pad1| == Pad1Length(r)
  }

  /** The SMB data: alignment byte, name, pad and body. */
  function Data(r: Request): seq<byte> {
    SmbString.AlignBytes(r.padname) + (SmbString.Wire(r.name) + (r.pad1 + r.body))
  }

  /** `to_s`: the parameter block, then the data. */
  function ToBytes(r: Request): seq<byte> {
    SmbTrans.ParamBytes(Params(r), HeadWidths, TailWidths) + Data(r)
  }

  /**
   * Reads the data part, `offset` bytes into the body: the alignment byte
   * when the header is unicode, the name up to its NUL code unit, `pad1` up
   * to `data_offset`, and the body to the end.
   */
  function ReadData(s: seq<byte>, unicode: bool, dataOffset: nat, offset: nat): (r: Result<(Option<nat>, seq<byte>, seq<byte>, seq<byte>)>)
    ensures r.Ok? ==> (r.value.0.Some? <==> unicode) && (r.value.0.Some? ==> Fits(r.value.0.value, 1))
    ensures r.Ok? ==> SmbString.NulFree(r.value.1)
    ensures r.Err? <==> unicode && |s| == 0
  {
    var a :- SmbString.ReadAlign(s, unicode);
    var name := SmbString.ReadField(a.1);
    var pad := TakeUpTo(name.1, SmbTrans.PadLength(dataOffset, offset + SmbString.AlignSize(a.0) + |SmbString.Wire(name.0)|));
    Ok((a.0, name.0, pad.0, pad.1))
  }

  /** The data of a well-formed request is read back from its bytes. */
  lemma ReadDataOfData(r: Request, unicode: bool)
    requires WellFormed(r, unicode)
    ensures ReadData(Data(r), unicode, r.dataOffset, FixedSize + 2 * |r.setup| + 2) ==
      Ok((r.padname, r.name, r.pad1, r.body))
  {
    SmbString.ReadAlignOfAlign(r.padname, SmbString.Wire(r.name) + (r.pad1 + r.body));
    SmbString.ReadFieldOfWire(r.name, r.pad1 + r.body);
    TakeUpToOfPrefix(r.pad1, r.body);
  }

  /** The second stage of `read`: the data part behind a parameter block that could be read. */
  function ReadRest(params: Result<(SmbTrans.Params, seq<byte>)>, unicode: bool): (r: Result<Request>)
    requires params.Ok? ==> |params.value.0.head| == |HeadWidths| && |params.value.0.tail| == |TailWidths|
    ensures params.Err? ==> r.Err?
    ensures r.Ok? ==> (r.value.padname.Some? <==> unicode) && SmbString.NulFree(r.value.name)
    ensures r.Ok? ==> r.value.setup == params.value.0.setup && r.value.setupCount == params.value.0.tail[SetupCountIndex]
  {
    var p :- params;
    var d :- ReadData(p.1, unicode, p.0.tail[4], FixedSize + 2 * |p.0.setup| + 2);
    Ok(Make(p.0, d.0, d.1, d.2, d.3))
  }

  /** The data of a well-formed request, behind its parameter block, gives back the request. */
  lemma ReadRestOfData(r: Request, unicode: bool)
    requires WellFormed(r, unicode)
    ensures ReadRest(Ok((Params(r), Data(r))), unicode) == Ok(r)
  {
    ReadDataOfData(r, unicode);
    assert Make(Params(r), r.padname, r.name, r.pad1, r.body) == r;
  }

  /**
   * Reads a request body: the parameter block needs its bytes, and a
   * unicode header one more byte for the alignment; the name, the pad and
   * the body take what is there.
   */
  function Read(s: seq<byte>, unicode: bool): (r: Result<Request>)
    ensures |s| < FixedSize ==> r.Err?
    ensures r.Ok? ==> (r.value.padname.Some? <==> unicode) && SmbString.NulFree(r.value.name)
    ensures r.Ok? ==> |r.value.setup| <= r.value.setupCount
  {
    WidthsTotal();
    ReadRest(SmbTrans.ReadParams(s, HeadWidths, TailWidths, SetupCountIndex), unicode)
  }

  /** A well-formed request is read back from its bytes. */
  lemma ReadToBytes(r: Request, unicode: bool)
    requires WellFormed(r, unicode)
    ensures Read(ToBytes(r), unicode) == Ok(r)
  {
    SmbTrans.ReadParamsOfBytes(Params(r), HeadWidths, TailWidths, SetupCountIndex, Data(r));
    ReadRestOfData(r, unicode);
  }

  /**
   * When `data_offset` lies past the name, `pad1` makes the body start at
   * `data_offset`, counted from the start of the SMB header.
   */
  lemma BodyAtDataOffset(r: Request, unicode: bool, header: seq<byte>)
    requires WellFormed(r, unicode) && |header| == SmbHeader.HeaderSize
    requires SmbHeader.HeaderSize + NameOffset(r) + |SmbString.Wire(r.name)| <= r.dataOffset
    ensures r.dataOffset <= |header + ToBytes(r)| && (header + ToBytes(r))[r.dataOffset..] == r.body
  {
    WidthsTotal();
    var pb := SmbTrans.ParamBytes(Params(r), HeadWidths, TailWidths);
    var ab := SmbString.AlignBytes(r.padname);
    var w := SmbString.Wire(r.name);
    assert |header| + |pb| + |ab| + |w| == SmbHeader.HeaderSize + NameOffset(r) + |w|;
    assert |header| + |pb| + |ab| + |w| + |r.pad1| == r.dataOffset;
    LastOfSix(header, pb, ab, w, r.pad1, r.body);
    assert header + ToBytes(r) == header + (pb + (ab + (w + (r.pad1 + r.body))));
  }

  /** A request built with no argument: 14 words and a 4-byte pad. */
  function Default(unicode: bool): Request {
    Request(14, 0, 0, 0, 0, 0, 0, 0, 0, 0, 0, 0, 0, 0, 0, 0, [], 0, if unicode then Some(0) else None, [],
            Zeros(4), [])
  }

  /**
   * A captured request: two setup words, a unicode header, the name
   * `\PIPE\` and a `data_offset` of 84 leave a 2-byte pad.
   */
  lemma Pad1Vector()
    ensures var r := Default(true).(setupCount := 2, setup := [38, 30255], dataOffset := 84,
                                    name := [0x5c, 0, 0x50, 0, 0x49, 0, 0x50, 0, 0x45, 0, 0x5c, 0]);
      NameOffset(r) == 36 && Pad1Length(r) == 2
  {
  }
}
