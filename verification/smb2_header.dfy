/**
 * The SMB2 header: a 4-byte protocol marker, eight integer fields, then either
 * a 64-bit async id (asynchronous messages) or a reserved word and a tree id
 * (synchronous ones), the session id, a 16-byte signature and the body. The
 * `flags` field carries a bit-field group whose `async` bit chooses between
 * the two layouts and whose `response` bit chooses the body class.
 */
module Smb2Header {
  import opened Bytes
  import opened BitFields
  import opened Enums

  /** `MARKER`: 0xfe followed by "SMB". */
  const Marker: seq<byte> := [0xfe, 0x53, 0x4d, 0x42]

  /** `structure_size` default and the size of a header without body. */
  const HeaderSize: nat := 64

  const SignatureSize: nat := 16

  datatype Header = Header(
    protocol: seq<byte>,
    structureSize: nat,
    creditCharge: nat,
    status: nat,
    command: nat,
    credit: nat,
    flags: nat,
    nextCommand: nat,
    messageId: nat,
    asyncId: nat,
    reserved: nat,
    treeId: nat,
    sessionId: nat,
    signature: seq<byte>,
    body: seq<byte>)

  /** A header built with no argument. */
  const Default: Header :=
    Header(Marker, HeaderSize, 0, 0, 0, 0, 0, 0, 0, 0, 0, 0, 0, Zeros(SignatureSize), [])

  // ---- flags -----------------------------------------------------------------

  /**
   * Sub-fields of `flags`, most significant first: rsv1 (2), smb3_replay_op,
   * dfs_op, rsv2 (21), smb3_priority (3), signed, related_op, async, response.
   */
  const FlagWidths: seq<nat> := [2, 1, 1, 21, 3, 1, 1, 1, 1]
  const FlagNames: seq<string> :=
    ["rsv1", "smb3_replay_op", "dfs_op", "rsv2", "smb3_priority", "signed", "related_op", "async", "response"]

  const PriorityField: nat := 4
  const SignedFlag: nat := 5
  const AsyncFlag: nat := 7
  const ResponseFlag: nat := 8

  /** `flags & 2 == 2`: the message is asynchronous. */
  predicate IsAsync(flags: nat) {
    BitSet(flags, 1)
  }

  /** `flags & 1 == 1`: the message goes from server to client. */
  predicate IsResponse(flags: nat) {
    BitSet(flags, 0)
  }

  /** The `async` and `response` sub-fields are the bits the layout and the binding test. */
  lemma FlagBits(flags: nat)
    ensures Unpack(flags, FlagWidths)[AsyncFlag] == 1 <==> IsAsync(flags)
    ensures Unpack(flags, FlagWidths)[ResponseFlag] == 1 <==> IsResponse(flags)
  {
    assert FlagWidths[AsyncFlag + 1..] == [1];
    assert FlagWidths[ResponseFlag + 1..] == [];
    FlagIsBit(flags, FlagWidths, AsyncFlag);
    FlagIsBit(flags, FlagWidths, ResponseFlag);
  }

  /** The flag list `inspect` prints: the names of the one-bit sub-fields that are set. */
  function SetFlags(flags: nat): (r: seq<string>)
    ensures forall n :: n in r <==>
      exists i :: 0 <= i < |FlagWidths| && FlagWidths[i] == 1 && Unpack(flags, FlagWidths)[i] == 1 && FlagNames[i] == n
  {
    SetNames(Unpack(flags, FlagWidths), FlagWidths, FlagNames, 0)
  }

  // ---- commands --------------------------------------------------------------

  /** Names of `COMMANDS`, in the order of their values 0 to 18. */
  const CommandNames: seq<string> := [
    "negotiate", "session_setup", "logoff", "tree_connect", "tree_disconnect",
    "create", "close", "flush", "read", "write", "lock", "ioctl", "cancel", "echo",
    "query_directory", "change_notify", "query_info", "set_info", "oplock_break"]

  /** `COMMANDS`: each name with its position as value. */
  const Commands: Table := Indexed(CommandNames)

  lemma CommandsDistinct()
    ensures Distinct(Commands)
  {
    forall i, j | 0 <= i < j < |Commands|
      ensures Commands[i].0 != Commands[j].0
    {
      assert Commands[i].0 == CommandNames[i] && Commands[j].0 == CommandNames[j];
    }
  }

  /** `command.to_human`: a name exactly for the 19 commands of the table. */
  function CommandName(v: nat): (r: EnumName)
    ensures r.Known? <==> v < |Commands|
    ensures r.Known? ==> ValueOf(Commands, r.name) == Some(v)
    ensures r.Unknown? ==> r.value == v
  {
    CommandsDistinct();
    assert v < |Commands| ==> Commands[v].1 == v;
    var r := NameOf(Commands, v);
    if r.Known? then
      NameOfValueOf(Commands, v, r.name);
      r
    else r
  }

  // ---- layout ----------------------------------------------------------------

  /** structure_size, credit_charge, status, command, credit, flags, next_command, message_id. */
  const HeadWidths: seq<nat> := [2, 2, 4, 2, 2, 4, 4, 8]

  function HeadInts(h: Header): seq<nat> {
    [h.structureSize, h.creditCharge, h.status, h.command, h.credit, h.flags, h.nextCommand, h.messageId]
  }

  /** async_id and session_id, or reserved, tree_id and session_id. */
  function TailWidths(flags: nat): seq<nat> {
    if IsAsync(flags) then [8, 8] else [4, 4, 8]
  }

  function TailInts(h: Header): seq<nat> {
    if IsAsync(h.flags) then [h.asyncId, h.sessionId] else [h.reserved, h.treeId, h.sessionId]
  }

  lemma WidthsTotal(flags: nat)
    ensures Total(HeadWidths) == 28
    ensures Total(TailWidths(flags)) == 16
  {
  }

  /** Every integer field present in the layout fits its width. */
  predicate FieldsFit(h: Header) {
    AllFit(HeadInts(h), HeadWidths) && AllFit(TailInts(h), TailWidths(h.flags))
  }

  /** The fields the layout leaves out hold their default 0. */
  predicate AbsentZero(h: Header) {
    if IsAsync(h.flags) then h.reserved == 0 && h.treeId == 0 else h.asyncId == 0
  }

  /** Fields fit, and marker and signature have their static lengths. */
  predicate WellFormed(h: Header) {
    |h.protocol| == 4 && |h.signature| == SignatureSize && FieldsFit(h) && AbsentZero(h)
  }

  /** `to_s`: the fields present in the layout, in order. */
  function ToBytes(h: Header): (r: seq<byte>)
    requires FieldsFit(h)
    ensures |r| == |h.protocol| + 44 + |h.signature| + |h.body|
  {
    WidthsTotal(h.flags);
    h.protocol + WriteInts(HeadInts(h), HeadWidths) + WriteInts(TailInts(h), TailWidths(h.flags)) +
    h.signature + h.body
  }

  /** The header without body is 64 bytes in both layouts. */
  lemma Size(h: Header)
    requires WellFormed(h)
    ensures |ToBytes(h)| == HeaderSize + |h.body|
  {
  }

  /** Header with the given runs of integers, the absent fields left at 0. */
  function Make(protocol: seq<byte>, u: seq<nat>, v: seq<nat>, sig: seq<byte>, body: seq<byte>): (h: Header)
    requires |u| == |HeadWidths| && |v| == |TailWidths(u[5])|
    ensures HeadInts(h) == u && TailInts(h) == v && AbsentZero(h)
    ensures h.protocol == protocol && h.signature == sig && h.body == body
  {
    if IsAsync(u[5]) then
      Header(protocol, u[0], u[1], u[2], u[3], u[4], u[5], u[6], u[7], v[0], 0, 0, v[1], sig, body)
    else
      Header(protocol, u[0], u[1], u[2], u[3], u[4], u[5], u[6], u[7], 0, v[0], v[1], v[2], sig, body)
  }

  /**
   * Reads a header: the marker is a string field and takes what is there,
   * the integers need their bytes, the signature takes up to 16 bytes and
   * the body is the rest.
   */
  function Read(s: seq<byte>): (r: Result<Header>)
    ensures r.Ok? <==> |s| >= 48
    ensures r.Ok? ==> FieldsFit(r.value) && AbsentZero(r.value) && ToBytes(r.value) == s
    ensures r.Ok? && |s| >= HeaderSize ==> WellFormed(r.value)
  {
    WidthsTotal(0);
    var p := TakeUpTo(s, 4);
    var a :- ReadInts(p.1, HeadWidths);
    ReadTail(p.0, a.0, a.1)
  }

  /** The part of `Read` after the first run of integers, whose layout depends on `flags`. */
  function ReadTail(protocol: seq<byte>, u: seq<nat>, t: seq<byte>): (r: Result<Header>)
    requires AllFit(u, HeadWidths)
    ensures r.Ok? <==> |t| >= 16
    ensures r.Ok? ==> FieldsFit(r.value) && AbsentZero(r.value) && r.value.protocol == protocol
    ensures r.Ok? ==> ToBytes(r.value) == protocol + (WriteInts(u, HeadWidths) + t)
    ensures r.Ok? && |t| >= 32 ==> |r.value.signature| == SignatureSize
  {
    WidthsTotal(u[5]);
    var b :- ReadInts(t, TailWidths(u[5]));
    var sig := TakeUpTo(b.1, SignatureSize);
    var h := Make(protocol, u, b.0, sig.0, sig.1);
    MakeToBytes(protocol, u, b.0, sig.0, sig.1);
    Ok(h)
  }

  lemma MakeToBytes(protocol: seq<byte>, u: seq<nat>, v: seq<nat>, sig: seq<byte>, body: seq<byte>)
    requires AllFit(u, HeadWidths) && AllFit(v, TailWidths(u[5]))
    ensures FieldsFit(Make(protocol, u, v, sig, body))
    ensures ToBytes(Make(protocol, u, v, sig, body)) ==
      protocol + (WriteInts(u, HeadWidths) + (WriteInts(v, TailWidths(u[5])) + (sig + body)))
  {
    var h := Make(protocol, u, v, sig, body);
    var w1, w2 := WriteInts(u, HeadWidths), WriteInts(v, TailWidths(u[5]));
    assert ToBytes(h) == protocol + w1 + w2 + sig + body;
  }

  lemma ReadToBytes(h: Header)
    requires WellFormed(h)
    ensures Read(ToBytes(h)) == Ok(h)
  {
    WidthsTotal(h.flags);
    var t2 := h.signature + h.body;
    var t1 := WriteInts(TailInts(h), TailWidths(h.flags)) + t2;
    var t0 := WriteInts(HeadInts(h), HeadWidths) + t1;
    assert ToBytes(h) == h.protocol + t0;
    TakeUpToOfPrefix(h.protocol, t0);
    ReadIntsOfWrite(HeadInts(h), HeadWidths, t1);
    ReadIntsOfWrite(TailInts(h), TailWidths(h.flags), t2);
    TakeUpToOfPrefix(h.signature, h.body);
  }

  /** Fields the layout leaves out are not written. */
  lemma AbsentFieldsNotWritten(h: Header, x: nat, y: nat)
    requires FieldsFit(h)
    ensures IsAsync(h.flags) ==> ToBytes(h) == ToBytes(h.(reserved := x, treeId := y))
    ensures !IsAsync(h.flags) ==> ToBytes(h) == ToBytes(h.(asyncId := x))
  {
    assert HeadInts(h.(reserved := x, treeId := y)) == HeadInts(h);
    assert HeadInts(h.(asyncId := x)) == HeadInts(h);
  }

  // ---- binding ---------------------------------------------------------------

  /** Direction of the body class `bind_command` selects. */
  datatype Direction = Request | Response

  /** `(v & 1).zero?` selects the request class, `v & 1 == 1` the response class. */
  function BodyDirection(flags: nat): (r: Direction)
    ensures r == Response <==> Unpack(flags, FlagWidths)[ResponseFlag] == 1
  {
    FlagBits(flags);
    if flags % 2 == 0 then Request else Response
  }

  /**
   * Commands whose `Request` and `Response` classes are bound with
   * `bind_command`: negotiate (smb2/negotiate.rb) and session_setup
   * (smb2/session_setup.rb). No other command of the table has a body class.
   */
  const BoundCommands: seq<string> := ["negotiate", "session_setup"]

  /**
   * Body class `bind_command` binds for a header: the command's name and the
   * direction its flags select.
   */
  function BodyClass(h: Header): (r: Option<(string, Direction)>)
    ensures r.Some? <==> h.command == 0 || h.command == 1
    ensures r.Some? ==> ValueOf(Commands, r.value.0) == Some(h.command) && r.value.1 == BodyDirection(h.flags)
  {
    match CommandName(h.command)
    case Known(n) => if n in BoundCommands then Some((n, BodyDirection(h.flags))) else None
    case Unknown(_) => None
  }

  /** A body binding of the SMB2 header: a command class, or `ErrorResponse`. */
  datatype Binding = CommandBody(name: string, dir: Direction) | ErrorResponse

  /**
   * Every binding whose condition a header meets: the command class
   * `bind_command` registered, and `ErrorResponse` when `status` is positive.
   */
  function Bindings(h: Header): (r: set<Binding>)
    ensures ErrorResponse in r <==> h.status > 0
    ensures forall n, d :: CommandBody(n, d) in r <==> BodyClass(h) == Some((n, d))
  {
    (if h.status > 0 then {ErrorResponse} else {}) +
    (match BodyClass(h) case Some(c) => {CommandBody(c.0, c.1)} case None => {})
  }

  /**
   * A header with a zero status and a command other than negotiate and
   * session_setup matches no binding: its body stays raw bytes.
   */
  lemma UnboundCommand(h: Header)
    requires h.status == 0 && h.command >= 2
    ensures Bindings(h) == {}
  {
  }

  /** A positive status binds `ErrorResponse` whatever the command. */
  lemma ErrorStatusBinds(h: Header)
    requires h.status > 0
    ensures ErrorResponse in Bindings(h)
    ensures h.command >= 2 ==> Bindings(h) == {ErrorResponse}
  {
  }

  /**
   * The NetBIOS session and datagram bodies hold an SMB2 header when
   * `val[0..3] == MARKER`: Ruby's range slice stops at the end of a short body.
   */
  predicate StartsSmb2(body: seq<byte>) {
    body[..if |body| < 4 then |body| else 4] == Marker
  }

  lemma StartsSmb2Iff(body: seq<byte>)
    ensures StartsSmb2(body) <==> |body| >= 4 && body[..4] == Marker
  {
  }

  /** A written header with the default marker is recognised as SMB2, and one without it is not. */
  lemma HeaderIsRecognised(h: Header)
    requires WellFormed(h)
    ensures StartsSmb2(ToBytes(h)) <==> h.protocol == Marker
  {
    assert ToBytes(h)[..4] == h.protocol;
  }

  // ---- vectors ---------------------------------------------------------------

  /** The default header is well formed, 64 bytes long and a synchronous request for `negotiate`. */
  lemma DefaultHeader()
    ensures WellFormed(Default) && |ToBytes(Default)| == HeaderSize
    ensures !IsAsync(Default.flags) && BodyClass(Default) == Some(("negotiate", Request))
  {
    ZeroBits(1);
    assert Fits(HeaderSize, 2) by {
      assert Pow256(2) == 65536;
    }
    assert HeadInts(Default) == [64, 0, 0, 0, 0, 0, 0, 0];
    assert TailInts(Default) == [0, 0, 0];
    assert NameOf(Commands, 0) == Known("negotiate");
  }

  /** Flags 0x19 of a tree_connect response: response, signed, priority 1, synchronous. */
  lemma Flags0x19()
    ensures Unpack(0x19, FlagWidths)[ResponseFlag] == 1 && BodyDirection(0x19) == Response
    ensures Unpack(0x19, FlagWidths)[SignedFlag] == 1
    ensures Unpack(0x19, FlagWidths)[PriorityField] == 1
    ensures Unpack(0x19, FlagWidths)[AsyncFlag] == 0 && !IsAsync(0x19)
  {
    FlagBits(0x19);
    var ones: seq<nat> := [];
    SumSnoc(ones, 1);
    SumSnoc(ones + [1], 1);
    SumSnoc(ones + [1] + [1], 1);
    SumSnoc(ones + [1] + [1] + [1], 1);
    assert FlagWidths[SignedFlag + 1..] == ones + [1] + [1] + [1];
    assert FlagWidths[PriorityField + 1..] == ones + [1] + [1] + [1] + [1];
    FieldValue(0x19, FlagWidths, SignedFlag);
    FieldValue(0x19, FlagWidths, PriorityField);
    assert Shr(0x19, 3) == 3 && Shr(0x19, 4) == 1 && Low(1, 3) == 1;
  }
}
