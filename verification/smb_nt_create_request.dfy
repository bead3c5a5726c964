/**
 * SMB NT_CREATE_ANDX request body: seventeen integer fields (51 bytes, the
 * last one `byte_count`), an alignment byte present only when the SMB
 * header's `flags2` has its unicode bit set, the UTF-16LE file name and
 * `byte_count - pad - filename size` extra bytes.
 */
module SmbNtCreateRequest {
  import opened Bytes
  import opened Enums
  import SmbString

  datatype Request = Request(
    wordCount: nat,
    andxCommand: nat,
    rsv1: nat,
    andxOffset: nat,
    rsv2: nat,
    filenameLen: nat,
    flags: nat,
    rootDirFid: nat,
    accessMask: nat,
    allocSize: nat,
    attributes: nat,
    shareAccess: nat,
    disposition: nat,
    options: nat,
    impersonation: nat,
    secFlags: nat,
    byteCount: nat,
    pad1: Option<nat>,
    filename: seq<byte>,
    extraBytes: seq<byte>)

  /** word_count, and_xcommand, rsv1, and_xoffset, rsv2, filename_len, flags, root_dir_fid, access_mask, alloc_size. */
  const HeadWidths: seq<nat> := [1, 1, 1, 2, 1, 2, 4, 4, 4, 8]
  /** attributes, share_access, disposition, options, impersonation, sec_flags, byte_count. */
  const TailWidths: seq<nat> := [4, 4, 4, 4, 4, 1, 2]

  /** Size of the integer part. */
  const FixedSize: nat := 51

  lemma WidthsTotal()
    ensures Total(HeadWidths) == 28 && Total(TailWidths) == 23
    ensures Total(HeadWidths) + Total(TailWidths) == FixedSize
  {
    assert Total(HeadWidths) == 28;
  }

  // ---- and_xcommand ----------------------------------------------------------

  const CommandNames: seq<string> := ["read", "read_andx", "ioctl", "no further commands"]
  const CommandValues: seq<nat> := [0x0a, 0x2e, 0x27, 0xff]

  /** `COMMANDS`: the commands that may follow this one. */
  const Commands: Table := Zip(CommandNames, CommandValues)

  /** `and_xcommand.to_human`. */
  function AndxCommandName(v: nat): (r: EnumName)
    ensures r.Known? <==> v in CommandValues
    ensures r.Known? ==> r.name in CommandNames
    ensures r.Unknown? ==> r.value == v
  {
    NameOf(Commands, v)
  }

  /** 0xff, the value of a request with no chained command, reads as its name. */
  lemma NoFurtherCommands()
    ensures AndxCommandName(0xff) == Known("no further commands")
  {
    NameOfFirst(Commands, 0xff, 3);
  }

  // ---- layout ----------------------------------------------------------------

  function HeadInts(r: Request): seq<nat> {
    [r.wordCount, r.andxCommand, r.rsv1, r.andxOffset, r.rsv2, r.filenameLen, r.flags,
     r.rootDirFid, r.accessMask, r.allocSize]
  }

  function TailInts(r: Request): seq<nat> {
    [r.attributes, r.shareAccess, r.disposition, r.options, r.impersonation, r.secFlags, r.byteCount]
  }

  /** Every integer field fits its width. */
  predicate IntsFit(r: Request) {
    AllFit(HeadInts(r), HeadWidths) && AllFit(TailInts(r), TailWidths)
  }

  function Make(h: seq<nat>, t: seq<nat>, pad1: Option<nat>, filename: seq<byte>, extraBytes: seq<byte>): (r: Request)
    requires |h| == |HeadWidths| && |t| == |TailWidths|
    ensures HeadInts(r) == h && TailInts(r) == t
    ensures r.pad1 == pad1 && r.filename == filename && r.extraBytes == extraBytes
  {
    Request(h[0], h[1], h[2], h[3], h[4], h[5], h[6], h[7], h[8], h[9],
            t[0], t[1], t[2], t[3], t[4], t[5], t[6], pad1, filename, extraBytes)
  }

  /**
   * Length `extra_bytes` is read with: what `byte_count` leaves after the pad
   * and the file name, or nothing when that is negative.
   */
  function ExtraLength(byteCount: nat, pad1: Option<nat>, filename: seq<byte>): nat {
    var n := byteCount - SmbString.AlignSize(pad1) - |SmbString.Wire(filename)|;
    if n < 0 then 0 else n
  }

  /**
   * Integers fit their widths, `pad1` is there exactly for a unicode header,
   * the file name can be written back, and `byte_count` covers exactly the
   * pad, the file name and the extra bytes.
   */
  predicate WellFormed(r: Request, unicode: bool) {
    IntsFit(r) &&
    (r.pad1.Some? <==> unicode) && (r.pad1.Some? ==> Fits(r.pad1.value, 1)) &&
    SmbString.Valid(r.filename) &&
    r.byteCount == SmbString.AlignSize(r.pad1) + |SmbString.Wire(r.filename)| + |r.extraBytes|
  }

  /** The SMB data: pad, file name and extra bytes. */
  function Data(r: Request): seq<byte> {
    SmbString.AlignBytes(r.pad1) + (SmbString.Wire(r.filename) + r.extraBytes)
  }

  /** `to_s`: the integers, then the data. */
  function ToBytes(r: Request): seq<byte> {
    WriteInts(HeadInts(r), HeadWidths) + (WriteInts(TailInts(r), TailWidths) + Data(r))
  }

  /** The data has the size of its parts. */
  lemma DataLength(r: Request)
    requires r.pad1.Some? ==> Fits(r.pad1.value, 1)
    ensures |Data(r)| == SmbString.AlignSize(r.pad1) + |SmbString.Wire(r.filename)| + |r.extraBytes|
  {
  }

  /**
   * Reads the file name up to its NUL code unit, then the extra bytes
   * `byte_count` leaves after the pad and the name.
   */
  function ReadName(s: seq<byte>, pad1: Option<nat>, byteCount: nat): (r: (seq<byte>, seq<byte>, seq<byte>))
    ensures SmbString.NulFree(r.0) && |r.1| <= ExtraLength(byteCount, pad1, r.0)
  {
    var name := SmbString.ReadField(s);
    var extra := TakeUpTo(name.1, ExtraLength(byteCount, pad1, name.0));
    (name.0, extra.0, extra.1)
  }

  lemma ReadNameOfName(r: Request, rest: seq<byte>)
    requires WellFormed(r, r.pad1.Some?)
    ensures ReadName(SmbString.Wire(r.filename) + (r.extraBytes + rest), r.pad1, r.byteCount) ==
      (r.filename, r.extraBytes, rest)
  {
    SmbString.ReadFieldOfWire(r.filename, r.extraBytes + rest);
    TakeUpToOfPrefix(r.extraBytes, rest);
  }

  /** Reads the integer part, which needs its 51 bytes. */
  function ReadFixed(s: seq<byte>): (r: Result<(seq<nat>, seq<nat>, seq<byte>)>)
    ensures r.Ok? <==> |s| >= FixedSize
    ensures r.Ok? ==> AllFit(r.value.0, HeadWidths) && AllFit(r.value.1, TailWidths)
    ensures r.Ok? ==> WriteInts(r.value.0, HeadWidths) + (WriteInts(r.value.1, TailWidths) + r.value.2) == s
  {
    WidthsTotal();
    var h :- ReadInts(s, HeadWidths);
    var t :- ReadInts(h.1, TailWidths);
    Ok((h.0, t.0, t.1))
  }

  lemma ReadFixedOfFixed(h: seq<nat>, t: seq<nat>, rest: seq<byte>)
    requires AllFit(h, HeadWidths) && AllFit(t, TailWidths)
    ensures ReadFixed(WriteInts(h, HeadWidths) + (WriteInts(t, TailWidths) + rest)) == Ok((h, t, rest))
  {
    ReadIntsOfWrite(h, HeadWidths, WriteInts(t, TailWidths) + rest);
    ReadIntsOfWrite(t, TailWidths, rest);
  }

  /**
   * Reads a request body: the integers need their 51 bytes and a unicode
   * header needs one more byte for `pad1`; the file name and the extra bytes
   * take what is there.
   */
  function Read(s: seq<byte>, unicode: bool): (r: Result<(Request, seq<byte>)>)
    ensures r.Ok? <==> |s| >= FixedSize + (if unicode then 1 else 0)
    ensures r.Ok? ==> IntsFit(r.value.0) && (r.value.0.pad1.Some? <==> unicode)
    ensures r.Ok? ==> SmbString.NulFree(r.value.0.filename)
    ensures r.Ok? ==> |r.value.0.extraBytes| <= ExtraLength(r.value.0.byteCount, r.value.0.pad1, r.value.0.filename)
  {
    var f :- ReadFixed(s);
    var p :- SmbString.ReadAlign(f.2, unicode);
    var d := ReadName(p.1, p.0, f.1[6]);
    Ok((Make(f.0, f.1, p.0, d.0, d.1), d.2))
  }

  /** A well-formed request is read back from its bytes, whatever follows. */
  lemma ReadToBytes(r: Request, unicode: bool, rest: seq<byte>)
    requires WellFormed(r, unicode)
    ensures Read(ToBytes(r) + rest, unicode) == Ok((r, rest))
  {
    var n := SmbString.Wire(r.filename) + (r.extraBytes + rest);
    var d := SmbString.AlignBytes(r.pad1) + n;
    Assoc5(WriteInts(HeadInts(r), HeadWidths), WriteInts(TailInts(r), TailWidths), SmbString.AlignBytes(r.pad1),
      SmbString.Wire(r.filename), r.extraBytes, rest);
    ReadFixedOfFixed(HeadInts(r), TailInts(r), d);
    SmbString.ReadAlignOfAlign(r.pad1, n);
    ReadNameOfName(r, rest);
    assert Make(HeadInts(r), TailInts(r), r.pad1, r.filename, r.extraBytes) == r;
  }

  // ---- calc_length -------------------------------------------------------------

  /**
   * `calc_length`: `filename_len` becomes the size of the file name on the
   * wire and `byte_count` the size of the whole data part.
   */
  function CalcLength(r: Request): (c: Request)
    requires r.pad1.Some? ==> Fits(r.pad1.value, 1)
    ensures c.filenameLen == |SmbString.Wire(r.filename)|
    ensures c.byteCount == |Data(r)| == |Data(c)|
    ensures c.(filenameLen := r.filenameLen, byteCount := r.byteCount) == r
  {
    DataLength(r);
    var fl := |SmbString.Wire(r.filename)|;
    r.(filenameLen := fl, byteCount := SmbString.AlignSize(r.pad1) + fl + |r.extraBytes|)
  }

  /** Computing the lengths twice gives what computing them once gives. */
  lemma CalcLengthIdempotent(r: Request)
    requires r.pad1.Some? ==> Fits(r.pad1.value, 1)
    ensures CalcLength(CalcLength(r)) == CalcLength(r)
  {
  }

  /**
   * After `calc_length`, a request whose pad matches the header, whose file
   * name is valid and whose integers fit is read back whole: the extra bytes
   * are exactly the ones `byte_count` announces.
   */
  lemma CalcLengthReads(r: Request, unicode: bool, rest: seq<byte>)
    requires (r.pad1.Some? <==> unicode) && (r.pad1.Some? ==> Fits(r.pad1.value, 1))
    requires SmbString.Valid(r.filename)
    requires IntsFit(CalcLength(r))
    ensures Read(ToBytes(CalcLength(r)) + rest, unicode) == Ok((CalcLength(r), rest))
  {
    ReadToBytes(CalcLength(r), unicode, rest);
  }

  /** `\PIPE\` in UTF-16LE. */
  const PipeName: seq<byte> := [0x5c, 0, 0x50, 0, 0x49, 0, 0x50, 0, 0x45, 0, 0x5c, 0]

  /** The test's file name, a Ruby string in another encoding, is stored as these bytes. */
  lemma PipeNameOfText()
    ensures SmbString.Read([], Some(SmbString.Text("\\PIPE\\")), None) == PipeName
  {
    var t := "\\PIPE\\";
    SmbString.ReadNulFreeText(t);
    assert t[6..] == [];
    SmbString.EncodeCharOfLatin1(t[5]);
    assert SmbString.Encode(t[5..]) == [0x5c, 0] + SmbString.Encode(t[6..]);
    SmbString.EncodeCharOfLatin1(t[4]);
    assert SmbString.Encode(t[4..]) == [0x45, 0] + SmbString.Encode(t[5..]);
    SmbString.EncodeCharOfLatin1(t[3]);
    assert SmbString.Encode(t[3..]) == [0x50, 0] + SmbString.Encode(t[4..]);
    SmbString.EncodeCharOfLatin1(t[2]);
    assert SmbString.Encode(t[2..]) == [0x49, 0] + SmbString.Encode(t[3..]);
    SmbString.EncodeCharOfLatin1(t[1]);
    assert SmbString.Encode(t[1..]) == [0x50, 0] + SmbString.Encode(t[2..]);
    SmbString.EncodeCharOfLatin1(t[0]);
    assert SmbString.Encode(t) == [0x5c, 0] + SmbString.Encode(t[1..]);
  }

  /** A request built with no argument, for the file name `name`. */
  function Named(name: seq<byte>, unicode: bool): Request {
    Request(24, 0, 0, 0, 0, 0, 0, 0, 0, 0, 0, 0, 0, 0, 0, 0, 0, if unicode then Some(0) else None, name, [])
  }

  /**
   * `\PIPE\` in a unicode header: a 14-byte file name and 15 bytes of data;
   * with the one-letter name `a`, 5 bytes; with four extra bytes, 9.
   */
  lemma CalcLengthVectors()
    ensures CalcLength(Named(PipeName, true)).filenameLen == 14
    ensures CalcLength(Named(PipeName, true)).byteCount == 15
    ensures CalcLength(Named([0x61, 0], true)).byteCount == 5
    ensures CalcLength(Named([0x61, 0], true).(extraBytes := [0x61, 0x62, 0x63, 0x64])).byteCount == 9
  {
  }
}
