/**
 * NetBIOS datagram service messages (section 4.4 of RFC 1002): a 10-byte
 * head (type, flags, datagram id, source address and port), then fields
 * whose presence the type decides. Error datagrams (type 0x13) carry an
 * error code; the others carry `dgm_length` and `packet_offset` and a
 * destination name; direct and broadcast datagrams (0x10 to 0x12) also
 * carry a source name and the user data. Integers are big-endian.
 */
module NetBIOSDatagram {
  import opened Bytes
  import opened BitFields
  import NetBIOSName

  datatype Datagram = Datagram(
    dgmType: nat,
    flags: nat,
    dgmId: nat,
    srcIp: nat,
    srcPort: nat,
    dgmLength: nat,
    packetOffset: nat,
    errorCode: nat,
    srcName: seq<byte>,
    dstName: seq<byte>,
    body: seq<byte>)

  /** `UDP_PORT`. */
  const UdpPort: nat := 138

  /** The type of error datagrams. */
  const ErrorType: nat := 0x13

  // ---- presence ----------------------------------------------------------------

  /** `dgm_length` and `packet_offset` are there in all but error datagrams. */
  predicate HasLengthFields(t: nat) {
    t != ErrorType
  }

  /** `error_code` is there only in error datagrams. */
  predicate HasErrorCode(t: nat) {
    t == ErrorType
  }

  /** `src_name` and `body` are there in direct_unique, direct_group and broadcast datagrams. */
  predicate HasSourceAndBody(t: nat) {
    0x10 <= t <= 0x12
  }

  /** `dst_name` is there in all but error datagrams. */
  predicate HasDestination(t: nat) {
    t != ErrorType
  }

  /** Exactly one of the two optional integer groups is there, whatever the type. */
  lemma PresenceExclusive(t: nat)
    ensures HasLengthFields(t) != HasErrorCode(t)
    ensures HasSourceAndBody(t) ==> HasDestination(t) && HasLengthFields(t)
  {
  }

  // ---- layout ------------------------------------------------------------------

  /** Size of type, flags, datagram id, source address and source port. */
  const FixedSize: nat := 10

  /** Every integer fits its field. */
  predicate WellFormed(d: Datagram) {
    Fits(d.dgmType, 1) && Fits(d.flags, 1) && Fits(d.dgmId, 2) && Fits(d.srcIp, 4) && Fits(d.srcPort, 2) &&
    Fits(d.dgmLength, 2) && Fits(d.packetOffset, 2) && Fits(d.errorCode, 2)
  }

  function FixedBytes(d: Datagram): (r: seq<byte>)
    ensures |r| == FixedSize
  {
    BE(d.dgmType, 1) + (BE(d.flags, 1) + (BE(d.dgmId, 2) + (BE(d.srcIp, 4) + BE(d.srcPort, 2))))
  }

  /** The optional integers the type asks for. */
  function OptionalBytes(d: Datagram): (r: seq<byte>)
    ensures |r| == if HasLengthFields(d.dgmType) then 4 else 2
  {
    if HasLengthFields(d.dgmType) then BE(d.dgmLength, 2) + BE(d.packetOffset, 2) else BE(d.errorCode, 2)
  }

  /** The names and the data the type asks for. */
  function NamesAndBody(d: Datagram): (r: seq<byte>)
    ensures |r| == (if HasSourceAndBody(d.dgmType) then |d.srcName| + |d.body| else 0) +
                   (if HasDestination(d.dgmType) then |d.dstName| else 0)
  {
    (if HasSourceAndBody(d.dgmType) then d.srcName else []) +
    ((if HasDestination(d.dgmType) then d.dstName else []) + (if HasSourceAndBody(d.dgmType) then d.body else []))
  }

  /** `to_s`: the fields that are present, in declaration order. */
  function ToBytes(d: Datagram): seq<byte> {
    FixedBytes(d) + (OptionalBytes(d) + NamesAndBody(d))
  }

  /** The datagram as the fields its type shows: absent integers 0, absent names and data empty. */
  function Visible(d: Datagram): (r: Datagram)
    ensures r.dgmType == d.dgmType
  {
    var t := d.dgmType;
    d.(dgmLength := if HasLengthFields(t) then d.dgmLength else 0,
       packetOffset := if HasLengthFields(t) then d.packetOffset else 0,
       errorCode := if HasErrorCode(t) then d.errorCode else 0,
       srcName := if HasSourceAndBody(t) then d.srcName else [],
       dstName := if HasDestination(t) then d.dstName else [],
       body := if HasSourceAndBody(t) then d.body else [])
  }

  /** Absent fields leave no trace on the wire. */
  lemma ToBytesOfVisible(d: Datagram)
    ensures ToBytes(Visible(d)) == ToBytes(d)
  {
  }

  // ---- read --------------------------------------------------------------------

  /** Reads the head: five integers. */
  function ReadFixed(s: seq<byte>): (r: Result<(Datagram, seq<byte>)>)
    ensures r.Ok? <==> |s| >= FixedSize
    ensures r.Ok? ==> FixedBytes(r.value.0) + r.value.1 == s && WellFormed(r.value.0)
    ensures r.Ok? ==> r.value.0.srcName == [] && r.value.0.dstName == [] && r.value.0.body == []
  {
    var t :- ReadBE(s, 1);
    var f :- ReadBE(t.1, 1);
    var id :- ReadBE(f.1, 2);
    var ip :- ReadBE(id.1, 4);
    var port :- ReadBE(ip.1, 2);
    Assoc5(BE(t.0, 1), BE(f.0, 1), BE(id.0, 2), BE(ip.0, 4), BE(port.0, 2), port.1);
    Ok((Datagram(t.0, f.0, id.0, ip.0, port.0, 0, 0, 0, [], [], []), port.1))
  }

  /** The head of a datagram, every other field at its default. */
  function Head(d: Datagram): Datagram {
    Datagram(d.dgmType, d.flags, d.dgmId, d.srcIp, d.srcPort, 0, 0, 0, [], [], [])
  }

  lemma ReadFixedOfBytes(d: Datagram, rest: seq<byte>)
    requires WellFormed(d)
    ensures ReadFixed(FixedBytes(d) + rest) == Ok((Head(d), rest))
  {
    var t4 := BE(d.srcPort, 2) + rest;
    var t3 := BE(d.srcIp, 4) + t4;
    var t2 := BE(d.dgmId, 2) + t3;
    var t1 := BE(d.flags, 1) + t2;
    Assoc4(BE(d.dgmType, 1), BE(d.flags, 1), BE(d.dgmId, 2), BE(d.srcIp, 4) + BE(d.srcPort, 2), rest);
    assert (BE(d.srcIp, 4) + BE(d.srcPort, 2)) + rest == t3;
    ReadBEOfBE(d.dgmType, 1, t1);
    ReadBEOfBE(d.flags, 1, t2);
    ReadBEOfBE(d.dgmId, 2, t3);
    ReadBEOfBE(d.srcIp, 4, t4);
    ReadBEOfBE(d.srcPort, 2, rest);
  }

  /** Reads the optional integers the type of the head asks for. */
  function ReadOptional(head: Datagram, s: seq<byte>): (r: Result<(Datagram, seq<byte>)>)
    requires WellFormed(head)
    ensures r.Ok? <==> |s| >= (if HasLengthFields(head.dgmType) then 4 else 2)
    ensures r.Ok? ==> OptionalBytes(r.value.0) + r.value.1 == s && WellFormed(r.value.0)
    ensures r.Ok? ==> r.value.0.(dgmLength := head.dgmLength, packetOffset := head.packetOffset,
                                 errorCode := head.errorCode) == head
  {
    if HasLengthFields(head.dgmType) then
      var l :- ReadBE(s, 2);
      var o :- ReadBE(l.1, 2);
      Ok((head.(dgmLength := l.0, packetOffset := o.0), o.1))
    else
      var e :- ReadBE(s, 2);
      Ok((head.(errorCode := e.0), e.1))
  }

  /**
   * Reads every integer field; what follows is the names and the data, whose
   * reading (the DNS label form of the names) is not part of this model.
   */
  function ReadIntegers(s: seq<byte>): (r: Result<(Datagram, seq<byte>)>)
    ensures r.Ok? ==> FixedBytes(r.value.0) + (OptionalBytes(r.value.0) + r.value.1) == s
    ensures r.Ok? ==> WellFormed(r.value.0) && Visible(r.value.0) == r.value.0.(srcName := [], dstName := [], body := [])
    ensures |s| < FixedSize + 2 ==> r.Err?
  {
    var h :- ReadFixed(s);
    var o :- ReadOptional(h.0, h.1);
    Ok(o)
  }

  /** The optional integers of a well-formed datagram are read back behind its head. */
  lemma ReadOptionalOfBytes(d: Datagram, rest: seq<byte>)
    requires WellFormed(d)
    ensures ReadOptional(Head(d), OptionalBytes(d) + rest) ==
      Ok((Visible(d).(srcName := [], dstName := [], body := []), rest))
  {
    if HasLengthFields(d.dgmType) {
      assert OptionalBytes(d) + rest == BE(d.dgmLength, 2) + (BE(d.packetOffset, 2) + rest);
      ReadBEOfBE(d.dgmLength, 2, BE(d.packetOffset, 2) + rest);
      ReadBEOfBE(d.packetOffset, 2, rest);
    } else {
      ReadBEOfBE(d.errorCode, 2, rest);
    }
  }

  /** A well-formed datagram gives back its visible integers, followed by its names and data. */
  lemma ReadIntegersOfBytes(d: Datagram)
    requires WellFormed(d)
    ensures ReadIntegers(ToBytes(d)) == Ok((Visible(d).(srcName := [], dstName := [], body := []), NamesAndBody(d)))
  {
    ReadFixedOfBytes(d, OptionalBytes(d) + NamesAndBody(d));
    ReadOptionalOfBytes(d, NamesAndBody(d));
  }

  // ---- calc_length -------------------------------------------------------------

  /**
   * `calc_length`: `dgm_length` is the size of the data, counted even when
   * the type leaves the data out, plus the size of each name that is
   * present. For the datagrams that carry data, that is everything behind
   * `packet_offset`.
   */
  function CalcLength(d: Datagram): (r: Datagram)
    ensures HasSourceAndBody(d.dgmType) ==> r.dgmLength == |NamesAndBody(d)|
    ensures !HasSourceAndBody(d.dgmType) ==> r.dgmLength == |d.body| + |NamesAndBody(d)|
    ensures r.(dgmLength := d.dgmLength) == d
  {
    var n := |d.body|;
    var n1 := if HasSourceAndBody(d.dgmType) then n + |d.srcName| else n;
    var n2 := if HasDestination(d.dgmType) then n1 + |d.dstName| else n1;
    d.(dgmLength := n2)
  }

  /** `calc_length` depends only on the names and the data. */
  lemma CalcLengthIdempotent(d: Datagram)
    ensures CalcLength(CalcLength(d)) == CalcLength(d)
  {
  }

  /** Size of a name set to an empty string: one length byte, 32 encoded letters, the final zero length. */
  const EmptyNameSize: nat := 1 + NetBIOSName.EncodedNameSize + 1

  /** Direct and broadcast datagrams count two names, query datagrams one, on top of the data. */
  lemma CalcLengthVectors(d: Datagram)
    requires |d.srcName| == EmptyNameSize && |d.dstName| == EmptyNameSize
    ensures 0x10 <= d.dgmType <= 0x12 ==> CalcLength(d).dgmLength == |d.body| + 68
    ensures 0x14 <= d.dgmType <= 0x16 ==> CalcLength(d).dgmLength == |d.body| + 34
  {
  }

  // ---- flags -------------------------------------------------------------------

  /** Sub-fields of `flags`, most significant first: rsv (4 bits), snt (2 bits), f, m. */
  const FlagWidths: seq<nat> := [4, 2, 1, 1]

  /** `m` is bit 0, `f` bit 1, `snt` bits 2 and 3, `rsv` the upper four bits. */
  lemma FlagFields(flags: nat)
    ensures Unpack(flags, FlagWidths)[3] == 1 <==> BitSet(flags, 0)
    ensures Unpack(flags, FlagWidths)[2] == 1 <==> BitSet(flags, 1)
    ensures Unpack(flags, FlagWidths)[1] == Low(Shr(flags, 2), 2)
    ensures Unpack(flags, FlagWidths)[0] == Low(Shr(flags, 4), 4)
  {
    assert FlagWidths[1..] == [2, 1, 1] && FlagWidths[2..] == [1, 1] && FlagWidths[3..] == [1] && FlagWidths[4..] == [];
    assert Sum([1]) == 1 && Sum([1, 1]) == 2 && Sum([2, 1, 1]) == 4;
    FlagIsBit(flags, FlagWidths, 3);
    FlagIsBit(flags, FlagWidths, 2);
    FieldValue(flags, FlagWidths, 1);
    FieldValue(flags, FlagWidths, 0);
  }
}
