/**
 * The SMB (version 1) header: a 4-byte protocol marker, the command, a
 * 32-bit status, two bit-field groups (`flags`, one byte, and `flags2`, a
 * little-endian 16-bit word), seven more integer fields and the body. The
 * header is 32 bytes long; the `reply` bit of `flags` chooses between the
 * request and the response class of the command.
 */
module SmbHeader {
  import opened Bytes
  import opened BitFields
  import opened Enums

  /** `MARKER`: 0xff followed by "SMB". */
  const Marker: seq<byte> := [0xff, 0x53, 0x4d, 0x42]

  /** Size of a header without body. */
  const HeaderSize: nat := 32

  datatype Header = Header(
    protocol: seq<byte>,
    command: nat,
    status: nat,
    flags: nat,
    flags2: nat,
    pidHigh: nat,
    secFeatures: nat,
    reserved: nat,
    tid: nat,
    pid: nat,
    uid: nat,
    mid: nat,
    body: seq<byte>)

  // ---- commands --------------------------------------------------------------

  /** Names of `COMMANDS`, in the order of the table. */
  const CommandNames: seq<string> := [
    "delete_dir", "close", "delete", "query_info2", "trans", "echo", "open_and_x", "read_and_x",
    "write_and_x", "trans2", "tree_disconnect", "negotiate", "session_setup_and_x",
    "tree_connect_and_x", "nt_trans", "nt_create_and_x"]

  /** Values of `COMMANDS`, in the same order. */
  const CommandValues: seq<nat> := [
    0x01, 0x04, 0x06, 0x23, 0x25, 0x2b, 0x2d, 0x2e, 0x2f, 0x32, 0x71, 0x72, 0x73, 0x75, 0xa0, 0xa2]

  /** `COMMANDS`. */
  const Commands: Table := Zip(CommandNames, CommandValues)

  /** A header built with no argument: command 1 (`delete_dir`), every other field 0. */
  const Default: Header := Header(Marker, 1, 0, 0, 0, 0, 0, 0, 0, 0, 0, 0, [])

  /** `command.to_human`: the name of a command of the table, or the unknown form. */
  function CommandName(v: nat): (r: EnumName)
    ensures r.Known? <==> exists i :: 0 <= i < |Commands| && Commands[i].1 == v
    ensures r.Known? ==> exists i :: 0 <= i < |Commands| && Commands[i] == (r.name, v)
    ensures r.Unknown? ==> r.value == v
  {
    NameOf(Commands, v)
  }

  /** The default command prints as `delete_dir`, and the echo command as `echo`. */
  lemma CommandVectors()
    ensures CommandName(Default.command) == Known("delete_dir")
    ensures CommandName(0x2b) == Known("echo")
  {
    NameOfFirst(Commands, 1, 0);
    NameOfFirst(Commands, 0x2b, 5);
  }

  // ---- flags -----------------------------------------------------------------

  /**
   * Sub-fields of `flags`, most significant first: reply, opbatch, oplock,
   * canon_paths, case_insensitive, reserved, buf_avail, locknread.
   */
  const FlagWidths: seq<nat> := [1, 1, 1, 1, 1, 1, 1, 1]
  const FlagNames: seq<string> :=
    ["reply", "opbatch", "oplock", "canon_paths", "case_insensitive", "reserved", "buf_avail", "locknread"]

  /**
   * Sub-fields of `flags2`, most significant first: unicode, ntstatus,
   * paging_io, dfs, extended_security, reparse_path, reserved (3 bits),
   * is_long_name, rsv, security_signature_required, compresses, signature,
   * eas, long_names.
   */
  const Flags2Widths: seq<nat> := Ones(6) + ([3] + Ones(7))
  const Flags2Names: seq<string> :=
    ["unicode", "ntstatus", "paging_io", "dfs", "extended_security", "reparse_path", "reserved",
     "is_long_name", "rsv", "security_signature_required", "compresses", "signature", "eas", "long_names"]

  /** `flags & 0x80 == 0x80`: the message goes from server to client. */
  predicate IsReply(flags: nat) {
    BitSet(flags, 7)
  }

  /** `flags2_unicode?`: strings of the message are UTF-16. */
  predicate IsUnicode(flags2: nat) {
    BitSet(flags2, 15)
  }

  /** Every sub-field of `flags` is the bit of its position, `reply` the highest. */
  lemma FlagIsBitOf(flags: nat, i: nat)
    requires i < |FlagWidths|
    ensures Unpack(flags, FlagWidths)[i] == 1 <==> BitSet(flags, 7 - i)
  {
    OnesFlagIsBit(flags, FlagWidths, i);
  }

  /** Bits below each sub-field of `flags2`. */
  lemma Flags2Shift(i: nat)
    requires i < |Flags2Widths|
    ensures Shift(Flags2Widths, i) == if i < 6 then 15 - i else if i == 6 then 7 else 13 - i
  {
    var ws := Flags2Widths;
    var low := Ones(7);
    SumOnes(low);
    if i < 6 {
      var high := ws[i + 1..6];
      assert high == Ones(6)[i + 1..];
      SumOnes(high);
      assert ws[i + 1..] == high + ([3] + low);
      SumAppend(high, [3] + low);
      SumAppend([3], low);
    } else if i == 6 {
      assert ws[7..] == low;
    } else {
      var tail := ws[i + 1..];
      assert tail == low[i - 6..];
      SumOnes(tail);
    }
  }

  /** The `unicode` sub-field of `flags2` is its highest bit. */
  lemma UnicodeIsBit(flags2: nat)
    ensures Unpack(flags2, Flags2Widths)[0] == 1 <==> IsUnicode(flags2)
  {
    Flags2Shift(0);
    FlagIsBit(flags2, Flags2Widths, 0);
  }

  /** The flag list `inspect` prints for `flags`. */
  function SetFlags(flags: nat): (r: seq<string>)
    ensures forall n :: n in r <==>
      exists i :: 0 <= i < |FlagWidths| && Unpack(flags, FlagWidths)[i] == 1 && FlagNames[i] == n
  {
    SetNames(Unpack(flags, FlagWidths), FlagWidths, FlagNames, 0)
  }

  /** The flag list `inspect` prints for `flags2`: the one-bit sub-fields that are set. */
  function SetFlags2(flags2: nat): (r: seq<string>)
    ensures forall n :: n in r <==>
      exists i :: 0 <= i < |Flags2Widths| && Flags2Widths[i] == 1 && Unpack(flags2, Flags2Widths)[i] == 1 &&
                  Flags2Names[i] == n
  {
    SetNames(Unpack(flags2, Flags2Widths), Flags2Widths, Flags2Names, 0)
  }

  /** Flags 0x18 of an echo request: canon_paths and case_insensitive, not a reply. */
  lemma Flags0x18()
    ensures Unpack(0x18, FlagWidths) == [0, 0, 0, 1, 1, 0, 0, 0]
  {
    var u := Unpack(0x18, FlagWidths);
    var e: seq<nat> := [0, 0, 0, 1, 1, 0, 0, 0];
    var sh: seq<nat> := [0x18, 0xc, 6, 3, 1, 0, 0, 0];
    ShrTable(0x18, sh);
    forall i | 0 <= i < 8
      ensures u[i] == e[i]
    {
      FlagIsBitOf(0x18, i);
      assert u[i] < Pow2(1) == 2;
    }
  }

  /** The flags `inspect` lists for 0x18, and the direction they select. */
  lemma Flags0x18Names()
    ensures forall n :: n in SetFlags(0x18) <==> n == "canon_paths" || n == "case_insensitive"
    ensures BodyDirection(0x18) == Request
  {
    Flags0x18();
  }

  /** The shifts of 0xc843 the sub-fields of `flags2` start at. */
  lemma ShiftsOf0xc843()
    ensures Shr(0xc843, 0) == 0xc843 && Shr(0xc843, 1) == 0x6421 && Shr(0xc843, 2) == 0x3210
    ensures Shr(0xc843, 3) == 0x1908 && Shr(0xc843, 4) == 0xc84 && Shr(0xc843, 5) == 0x642
    ensures Shr(0xc843, 6) == 0x321 && Shr(0xc843, 7) == 0x190 && Shr(0xc843, 10) == 0x32
    ensures Shr(0xc843, 11) == 0x19 && Shr(0xc843, 12) == 0xc && Shr(0xc843, 13) == 6
    ensures Shr(0xc843, 14) == 3 && Shr(0xc843, 15) == 1
  {
    var sh: seq<nat> := [0xc843, 0x6421, 0x3210, 0x1908, 0xc84, 0x642, 0x321, 0x190,
                         0xc8, 0x64, 0x32, 0x19, 0xc, 6, 3, 1];
    ShrTable(0xc843, sh);
  }

  /** Flags2 0xc843, upper byte: unicode, ntstatus and extended_security. */
  lemma Flags2VectorHigh()
    ensures Unpack(0xc843, Flags2Widths)[..6] == [1, 1, 0, 0, 1, 0]
  {
    ShiftsOf0xc843();
    Flags2Field(0xc843, 0);
    Flags2Field(0xc843, 1);
    Flags2Field(0xc843, 2);
    Flags2Field(0xc843, 3);
    Flags2Field(0xc843, 4);
    Flags2Field(0xc843, 5);
  }

  /** Flags2 0xc843, middle bits: reserved bits 0, is_long_name set. */
  lemma Flags2VectorMid()
    ensures Unpack(0xc843, Flags2Widths)[6..10] == [0, 1, 0, 0]
  {
    ShiftsOf0xc843();
    Flags2Field(0xc843, 6);
    assert Low(0x190, 3) == 0;
    Flags2Field(0xc843, 7);
    Flags2Field(0xc843, 8);
    Flags2Field(0xc843, 9);
  }

  /** Flags2 0xc843, lowest bits: eas and long_names. */
  lemma Flags2VectorLow()
    ensures Unpack(0xc843, Flags2Widths)[10..] == [0, 0, 1, 1]
  {
    ShiftsOf0xc843();
    Flags2Field(0xc843, 10);
    Flags2Field(0xc843, 11);
    Flags2Field(0xc843, 12);
    Flags2Field(0xc843, 13);
  }

  /** Flags2 0xc843: unicode, ntstatus, extended_security, is_long_name, eas and long_names. */
  lemma Flags2Vector()
    ensures Unpack(0xc843, Flags2Widths) == [1, 1, 0, 0, 1, 0, 0, 1, 0, 0, 0, 0, 1, 1]
  {
    var u := Unpack(0xc843, Flags2Widths);
    Flags2VectorHigh();
    Flags2VectorMid();
    Flags2VectorLow();
    assert u == u[..6] + u[6..10] + u[10..];
  }

  /** Value of sub-field `i` of `flags2`: a bit, or the three reserved bits for `i` = 6. */
  lemma Flags2Field(flags2: nat, i: nat)
    requires i < |Flags2Widths|
    ensures i != 6 ==> Unpack(flags2, Flags2Widths)[i] == Shr(flags2, if i < 6 then 15 - i else 13 - i) % 2
    ensures i == 6 ==> Unpack(flags2, Flags2Widths)[i] == Low(Shr(flags2, 7), 3)
  {
    Flags2Shift(i);
    FieldValue(flags2, Flags2Widths, i);
    if i != 6 {
      assert Low(Shr(flags2, Shift(Flags2Widths, i)), 1) == Shr(flags2, Shift(Flags2Widths, i)) % 2 + 2 * Low(Shr(flags2, Shift(Flags2Widths, i)) / 2, 0);
    }
  }

  /** 0xc843 marks the strings of the message as UTF-16. */
  lemma Flags2Unicode()
    ensures IsUnicode(0xc843)
  {
    Flags2Vector();
    UnicodeIsBit(0xc843);
  }

  // ---- layout ----------------------------------------------------------------

  /** command, status, flags, flags2, pid_high, sec_features, reserved, tid, pid, uid, mid. */
  const Widths: seq<nat> := [1, 4, 1, 2, 2, 8, 2, 2, 2, 2, 2]

  function Ints(h: Header): seq<nat> {
    [h.command, h.status, h.flags, h.flags2, h.pidHigh, h.secFeatures, h.reserved, h.tid, h.pid, h.uid, h.mid]
  }

  lemma WidthsTotal()
    ensures Total(Widths) == 28
  {
  }

  /** Integers fit their widths and the marker has its static length. */
  predicate WellFormed(h: Header) {
    |h.protocol| == 4 && AllFit(Ints(h), Widths)
  }

  /** `to_s`: the marker, the integer fields and the body. */
  function ToBytes(h: Header): (r: seq<byte>)
    requires AllFit(Ints(h), Widths)
    ensures |r| == |h.protocol| + 28 + |h.body|
  {
    WidthsTotal();
    h.protocol + (WriteInts(Ints(h), Widths) + h.body)
  }

  function Make(protocol: seq<byte>, v: seq<nat>, body: seq<byte>): (h: Header)
    requires |v| == |Widths|
    ensures Ints(h) == v && h.protocol == protocol && h.body == body
  {
    Header(protocol, v[0], v[1], v[2], v[3], v[4], v[5], v[6], v[7], v[8], v[9], v[10], body)
  }

  /** The default header is well formed and 32 bytes long. */
  lemma DefaultHeader()
    ensures WellFormed(Default) && |ToBytes(Default)| == HeaderSize
  {
    assert Ints(Default) == [1, 0, 0, 0, 0, 0, 0, 0, 0, 0, 0];
  }

  /**
   * Reads a header: the marker takes up to 4 bytes, the integers need their
   * 28 bytes and the body is the rest.
   */
  function Read(s: seq<byte>): (r: Result<Header>)
    ensures r.Ok? <==> |s| >= HeaderSize
    ensures r.Ok? ==> WellFormed(r.value) && ToBytes(r.value) == s
  {
    WidthsTotal();
    var p := TakeUpTo(s, 4);
    var v :- ReadInts(p.1, Widths);
    Ok(Make(p.0, v.0, v.1))
  }

  lemma ReadToBytes(h: Header)
    requires WellFormed(h)
    ensures Read(ToBytes(h)) == Ok(h)
  {
    var t := WriteInts(Ints(h), Widths) + h.body;
    TakeUpToOfPrefix(h.protocol, t);
    ReadIntsOfWrite(Ints(h), Widths, h.body);
    assert Make(h.protocol, Ints(h), h.body) == h;
  }

  // ---- recognition and binding -------------------------------------------------

  /** `parse?`: the header carries the SMB marker. */
  predicate Parses(h: Header) {
    h.protocol == Marker
  }

  /**
   * The NetBIOS session and datagram bodies hold an SMB header when
   * `val[0..3] == MARKER`: Ruby's range slice stops at the end of a short body.
   */
  predicate StartsSmb(body: seq<byte>) {
    body[..if |body| < 4 then |body| else 4] == Marker
  }

  /** A written header is recognised by the NetBIOS binding exactly when it parses. */
  lemma RecognisedIffParses(h: Header)
    requires WellFormed(h)
    ensures StartsSmb(ToBytes(h)) <==> Parses(h)
  {
    assert ToBytes(h)[..4] == h.protocol;
  }

  /** Direction of the body class `bind_command` selects. */
  datatype Direction = Request | Response

  /** `nobits?(0x80)` selects the request class, `v & 0x80 == 0x80` the response class. */
  function BodyDirection(flags: nat): (r: Direction)
    ensures r == Response <==> Unpack(flags, FlagWidths)[0] == 1
  {
    FlagIsBitOf(flags, 0);
    if IsReply(flags) then Response else Request
  }
}
