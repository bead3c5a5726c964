/**
 * The NTLM Negotiate message: the frame, the negotiate flags, a
 * length/max-length/offset triple each for the domain name and the
 * workstation, an 8-byte version and the payload. The domain name and the
 * workstation are attributes outside the field list: `to_s` appends them
 * behind the payload, `read` cuts them out of the payload at their offsets,
 * and `calc_length` sets the triples from them.
 */
module NtlmNegotiate {
  import opened Bytes
  import Ntlm

  datatype Negotiate = Negotiate(
    signature: seq<byte>,
    msgType: nat,
    flags: nat,
    domainLen: nat,
    domainMaxLen: nat,
    domainOffset: nat,
    workstationLen: nat,
    workstationMaxLen: nat,
    workstationOffset: nat,
    version: seq<byte>,
    payload: seq<byte>,
    domainName: Option<seq<byte>>,
    workstation: Option<seq<byte>>)

  /** type, flags, domain_name_len, domain_name_maxlen, domain_name_offset, workstation_len, workstation_maxlen, workstation_offset. */
  const Widths: seq<nat> := [4, 4, 2, 2, 4, 2, 2, 4]

  /** `offset_of(:payload)`: signature, integers and version. */
  const PayloadOffset: nat := 0x28

  lemma WidthsTotal()
    ensures 8 + Total(Widths) + 8 == PayloadOffset
  {
  }

  /** `VOID_VERSION`. */
  const VoidVersion: seq<byte> := Zeros(8)

  /** A message built with no argument: type 1, no flags, no names. */
  const Default: Negotiate := Negotiate(Ntlm.Signature, 1, 0, 0, 0, 0, 0, 0, 0, VoidVersion, [], None, None)

  function Ints(n: Negotiate): seq<nat> {
    [n.msgType, n.flags, n.domainLen, n.domainMaxLen, n.domainOffset, n.workstationLen, n.workstationMaxLen,
     n.workstationOffset]
  }

  function Make(signature: seq<byte>, v: seq<nat>, version: seq<byte>, payload: seq<byte>): (n: Negotiate)
    requires |v| == |Widths|
    ensures Ints(n) == v && n.signature == signature && n.version == version && n.payload == payload
    ensures n.domainName == None && n.workstation == None
  {
    Negotiate(signature, v[0], v[1], v[2], v[3], v[4], v[5], v[6], v[7], version, payload, None, None)
  }

  /** The signature and the version fill their 8 bytes and every integer fits its field. */
  predicate WellFormed(n: Negotiate) {
    |n.signature| == 8 && AllFit(Ints(n), Widths) && |n.version| == 8
  }

  /** A name attribute as `to_s` appends it: nothing when nil. */
  function Appended(name: Option<seq<byte>>): seq<byte> {
    if name.Some? then name.value else []
  }

  /** The declared fields, payload last. */
  function FieldBytes(n: Negotiate): (r: seq<byte>)
    ensures WellFormed(n) ==> |r| == PayloadOffset + |n.payload|
  {
    WidthsTotal();
    n.signature + (WriteInts(Ints(n), Widths) + (n.version + n.payload))
  }

  /** `to_s`: the fields, then the domain name and the workstation. */
  function ToBytes(n: Negotiate): (r: seq<byte>)
    ensures WellFormed(n) ==>
      |r| == PayloadOffset + |n.payload| + |Appended(n.domainName)| + |Appended(n.workstation)|
  {
    FieldBytes(n) + (Appended(n.domainName) + Appended(n.workstation))
  }

  // ---- calc_length -------------------------------------------------------------

  /** Size `calc_length` gives a name: 0 when it is nil or empty. */
  function NameLength(name: Option<seq<byte>>): (r: nat)
    ensures r == |Appended(name)|
    ensures r == 0 <==> name.None? || name.value == []
  {
    if name.Some? && name.value != [] then |name.value| else 0
  }

  /**
   * `calc_length`: the domain name starts the payload, the workstation
   * follows it, and each length is the size of its name; nothing else
   * changes.
   */
  function CalcLength(n: Negotiate): (r: Negotiate)
    ensures r.domainOffset == PayloadOffset && r.domainLen == |Appended(n.domainName)|
    ensures r.workstationOffset == r.domainOffset + r.domainLen && r.workstationLen == |Appended(n.workstation)|
    ensures r.(domainLen := n.domainLen, domainOffset := n.domainOffset,
               workstationLen := n.workstationLen, workstationOffset := n.workstationOffset) == n
  {
    var dlen := NameLength(n.domainName);
    n.(domainLen := dlen, domainOffset := PayloadOffset,
       workstationLen := NameLength(n.workstation), workstationOffset := PayloadOffset + dlen)
  }

  /** `calc_length` depends only on the names: a second call changes nothing. */
  lemma CalcLengthIdempotent(n: Negotiate)
    ensures CalcLength(CalcLength(n)) == CalcLength(n)
  {
  }

  // ---- read --------------------------------------------------------------------

  /**
   * The generic field read: at most 8 bytes of signature, the integers, at
   * most 8 bytes of version and the rest as payload. The fields read write
   * back the bytes they were read from.
   */
  function ReadFields(s: seq<byte>): (r: Result<Negotiate>)
    ensures r.Ok? <==> |s| >= 8 + Total(Widths)
    ensures r.Ok? ==> FieldBytes(r.value) == s && AllFit(Ints(r.value), Widths)
    ensures r.Ok? ==> r.value.domainName == None && r.value.workstation == None
  {
    var sig := TakeUpTo(s, 8);
    var v :- ReadInts(sig.1, Widths);
    var version := TakeUpTo(v.1, 8);
    Ok(Make(sig.0, v.0, version.0, version.1))
  }

  /** Cuts the names out of the payload of a message whose fields were read. */
  function Names(n: Negotiate): (r: Negotiate)
    ensures r.(domainName := n.domainName, workstation := n.workstation) == n
  {
    n.(domainName := RubySlice(n.payload, n.domainOffset - PayloadOffset, n.domainLen),
       workstation := RubySlice(n.payload, n.workstationOffset - PayloadOffset, n.workstationLen))
  }

  /**
   * `read`: the fields, then each name is the part of the payload at its
   * offset, counted from the start of the payload, and of its length.
   */
  function Read(s: seq<byte>): (r: Result<Negotiate>)
    ensures r.Ok? <==> |s| >= 8 + Total(Widths)
    ensures r.Ok? ==> FieldBytes(r.value) == s && AllFit(Ints(r.value), Widths)
  {
    var f :- ReadFields(s);
    Ok(Names(f))
  }

  /** The read fields of a well-formed message are the message, without its names. */
  lemma ReadFieldsOfFields(n: Negotiate)
    requires WellFormed(n)
    ensures ReadFields(FieldBytes(n)) == Ok(n.(domainName := None, workstation := None))
  {
    var rest := n.version + n.payload;
    TakeUpToOfPrefix(n.signature, WriteInts(Ints(n), Widths) + rest);
    ReadIntsOfWrite(Ints(n), Widths, rest);
    TakeUpToOfPrefix(n.version, n.payload);
  }

  /** The message `calc_length` makes, with its names moved into the payload. */
  function Filled(n: Negotiate): Negotiate {
    CalcLength(n).(payload := Appended(n.domainName) + Appended(n.workstation), domainName := None,
                   workstation := None)
  }

  /** When the names fit their 16-bit lengths, the filled message is well-formed. */
  lemma FilledWellFormed(n: Negotiate)
    requires WellFormed(n)
    requires |Appended(n.domainName)| < 0x1_0000 && |Appended(n.workstation)| < 0x1_0000
    ensures WellFormed(Filled(n))
  {
    var c := Filled(n);
    assert Ints(c) == [n.msgType, n.flags, c.domainLen, n.domainMaxLen, PayloadOffset, c.workstationLen,
                       n.workstationMaxLen, c.workstationOffset];
    assert AllFit(Ints(n), Widths);
  }

  /** With no payload of its own, `to_s` writes the fields of the filled message. */
  lemma ToBytesOfFilled(n: Negotiate)
    requires n.payload == []
    ensures ToBytes(CalcLength(n)) == FieldBytes(Filled(n))
  {
    var c := CalcLength(n);
    var dw := Appended(n.domainName) + Appended(n.workstation);
    assert Ints(c) == Ints(Filled(n));
    assert c.payload == [];
    assert FieldBytes(c) == c.signature + (WriteInts(Ints(c), Widths) + c.version);
    assert FieldBytes(Filled(n)) == c.signature + (WriteInts(Ints(c), Widths) + (c.version + dw));
  }

  /**
   * With no payload of its own, a message whose lengths `calc_length` set
   * reads back its names (nil ones as empty strings) and the payload that
   * holds them, and every field it wrote.
   */
  lemma ReadOfCalcLength(n: Negotiate)
    requires WellFormed(n) && n.payload == []
    requires |Appended(n.domainName)| < 0x1_0000 && |Appended(n.workstation)| < 0x1_0000
    ensures Read(ToBytes(CalcLength(n))) == Ok(CalcLength(n).(
      payload := Appended(n.domainName) + Appended(n.workstation),
      domainName := Some(Appended(n.domainName)),
      workstation := Some(Appended(n.workstation))))
  {
    var d := Appended(n.domainName);
    var w := Appended(n.workstation);
    var m := Filled(n);
    FilledWellFormed(n);
    ToBytesOfFilled(n);
    ReadFieldsOfFields(m);
    assert m.(domainName := None, workstation := None) == m;
    RubySliceOfConcat([], d, w);
    RubySliceOfConcat(d, w, []);
    assert [] + d + w == d + w && d + w + [] == d + w;
  }

  // ---- vectors -----------------------------------------------------------------

  /** "DOMAIN" and "PC1". */
  const Domain: seq<byte> := [0x44, 0x4f, 0x4d, 0x41, 0x49, 0x4e]
  const Pc1: seq<byte> := [0x50, 0x43, 0x31]

  /** No names: both names sit at 0x28 with length 0. */
  lemma CalcLengthEmptyVector()
    ensures var c := CalcLength(Default);
      c.domainOffset == 0x28 && c.domainLen == 0 && c.workstationOffset == 0x28 && c.workstationLen == 0
  {
  }

  /** "DOMAIN" then "PC1": lengths 6 and 3, the workstation at 0x2e. */
  lemma CalcLengthNamesVector()
    ensures var c := CalcLength(Default.(domainName := Some(Domain), workstation := Some(Pc1)));
      c.domainOffset == 0x28 && c.domainLen == 6 && c.workstationOffset == 0x2e && c.workstationLen == 3
    ensures var c := CalcLength(Default.(workstation := Some(Pc1)));
      c.workstationOffset == 0x28 && c.workstationLen == 3
  {
  }
}
