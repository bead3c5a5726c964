/**
 * The NTLM message frame every NTLM message starts with: an 8-byte
 * signature, a little-endian 32-bit message type and the payload, plus the
 * 32-bit negotiate-flags group the message classes declare before the
 * payload.
 */
module Ntlm {
  import opened Bytes
  import opened BitFields
  import opened Enums

  /** `SIGNATURE`: "NTLMSSP" and a NUL byte. */
  const Signature: seq<byte> := [0x4e, 0x54, 0x4c, 0x4d, 0x53, 0x53, 0x50, 0]

  /** `TYPES`. */
  const Types: Table := [("negotiate", 1), ("challenge", 2), ("authenticate", 3)]

  /** `TYPES.key(type)`: the name of a message type, or the unknown form. */
  function TypeName(v: nat): (r: EnumName)
    ensures r.Known? <==> 1 <= v <= 3
    ensures v == 1 ==> r == Known("negotiate")
    ensures v == 2 ==> r == Known("challenge")
    ensures v == 3 ==> r == Known("authenticate")
  {
    assert Types[0].1 == 1 && Types[1].1 == 2 && Types[2].1 == 3;
    NameOf(Types, v)
  }

  /** Printing a type and looking its name up agree in both directions. */
  lemma TypeNameOfValue(v: nat, name: string)
    ensures TypeName(v) == Known(name) <==> ValueOf(Types, name) == Some(v)
  {
    assert Distinct(Types);
    NameOfValueOf(Types, v, name);
  }

  // ---- the generic frame -------------------------------------------------------

  datatype Message = Message(signature: seq<byte>, msgType: nat, payload: seq<byte>)

  /** Size of the signature and the type. */
  const FrameSize: nat := 12

  /** A message built with no argument: the signature, the first type of `TYPES` and no payload. */
  const Default: Message := Message(Signature, Types[0].1, [])

  /** The signature fills its 8 bytes and the type fits 32 bits. */
  predicate WellFormed(m: Message) {
    |m.signature| == 8 && Fits(m.msgType, 4)
  }

  function ToBytes(m: Message): (r: seq<byte>)
    ensures WellFormed(m) ==> |r| == FrameSize + |m.payload|
  {
    m.signature + (LE(m.msgType, 4) + m.payload)
  }

  /**
   * Reads the frame: at most 8 bytes of signature, the type, and the rest as
   * payload. A read frame writes back the bytes it was read from.
   */
  function Read(s: seq<byte>): (r: Result<Message>)
    ensures r.Ok? <==> |s| >= FrameSize
    ensures r.Ok? ==> WellFormed(r.value) && ToBytes(r.value) == s
  {
    var sig := TakeUpTo(s, 8);
    var t :- ReadLE(sig.1, 4);
    Ok(Message(sig.0, t.0, t.1))
  }

  /** A well-formed frame is read back from its bytes. */
  lemma ReadToBytes(m: Message)
    requires WellFormed(m)
    ensures Read(ToBytes(m)) == Ok(m)
  {
    TakeUpToOfPrefix(m.signature, LE(m.msgType, 4) + m.payload);
    ReadLEOfLE(m.msgType, 4, m.payload);
  }

  /** A message built with no argument is a negotiate frame of 12 bytes, read back as built. */
  lemma DefaultMessage()
    ensures TypeName(Default.msgType) == Known("negotiate")
    ensures WellFormed(Default) && ToBytes(Default) == Signature + [1, 0, 0, 0]
    ensures Read(ToBytes(Default)) == Ok(Default)
  {
    assert LE(1, 4) == [1, 0, 0, 0];
    ReadToBytes(Default);
  }

  // ---- negotiate flags -------------------------------------------------------

  /**
   * Sub-fields of `flags`, most significant first: flags_w, flags_v,
   * flags_u, flags_r13 (3 bits), then one bit each from flags_t down to
   * flags_a.
   */
  const FlagWidths: seq<nat> := [1, 1, 1, 3] + Ones(26)
  const FlagNames: seq<string> :=
    ["w", "v", "u", "r13", "t", "r4", "s", "r", "r5", "q", "p", "r6", "o", "n", "m", "r7",
     "l", "k", "j", "r8", "h", "r9", "g", "f", "e", "d", "r10", "c", "b", "a"]

  /** Index of the 3-bit reserved sub-field. */
  const Reserved13: nat := 3

  /** Bit of a one-bit sub-field of `flags`: 31 for flags_w down to 0 for flags_a. */
  function FlagBit(i: nat): nat
    requires i < |FlagWidths| && i != Reserved13
  {
    if i < Reserved13 then 31 - i else 29 - i
  }

  /** The widths after sub-field `i`, summed. */
  lemma FlagShift(i: nat)
    requires i < |FlagWidths|
    ensures Shift(FlagWidths, i) == if i < Reserved13 then 31 - i else 29 - i
  {
    var ws := FlagWidths;
    if i >= 4 {
      var tail := ws[i + 1..];
      assert forall j :: 0 <= j < |tail| ==> tail[j] == Ones(26)[i - 3 + j];
      SumOnes(tail);
    } else {
      var high := ws[i + 1..4];
      assert ws[i + 1..] == high + Ones(26);
      SumAppend(high, Ones(26));
      SumOnes(Ones(26));
      HighSum(i);
    }
  }

  /** The widths after sub-field `i` and up to the reserved one, summed. */
  lemma HighSum(i: nat)
    requires i < 4
    ensures Sum(FlagWidths[i + 1..4]) == if i < Reserved13 then 5 - i else 0
  {
    var high := FlagWidths[i + 1..4];
    SumSnoc([], 3);
    SumSnoc([1], 3);
    SumSnoc([1, 1], 3);
    SumSnoc([], 1);
    SumSnoc([1], 1);
    assert [1] + [3] == [1, 3] && [1, 1] + [3] == [1, 1, 3] && [1] + [1] == [1, 1];
    if i == 0 {
      assert high == [1, 1, 3];
    } else if i == 1 {
      assert high == [1, 3];
    } else if i == 2 {
      assert high == [3];
    } else {
      assert high == [];
    }
  }

  /** The group spans the whole 32-bit field. */
  lemma FlagsWidth()
    ensures Sum(FlagWidths) == 32
  {
    FlagShift(0);
    assert FlagWidths == [1] + FlagWidths[1..];
    SumAppend([1], FlagWidths[1..]);
  }

  /** A one-bit sub-field of `flags` is set exactly when its bit is. */
  lemma FlagIsBitOf(flags: nat, i: nat)
    requires i < |FlagWidths| && i != Reserved13
    ensures Unpack(flags, FlagWidths)[i] == 1 <==> BitSet(flags, FlagBit(i))
  {
    FlagShift(i);
    FlagIsBit(flags, FlagWidths, i);
  }

  /** `unicode?`, also known as flags_a: the lowest bit. */
  predicate Unicode(flags: nat) {
    Unpack(flags, FlagWidths)[29] == 1
  }

  /** `nego56?`, also known as flags_w: the highest bit. */
  predicate Nego56(flags: nat) {
    Unpack(flags, FlagWidths)[0] == 1
  }

  /** `unicode?` is bit 0 and `nego56?` bit 31. */
  lemma AliasBits(flags: nat)
    ensures Unicode(flags) <==> flags % 2 == 1
    ensures Nego56(flags) <==> BitSet(flags, 31)
  {
    FlagIsBitOf(flags, 29);
    FlagIsBitOf(flags, 0);
  }

  /** `request_target?`, also known as flags_c, and `sign?`, also known as flags_d. */
  predicate RequestTarget(flags: nat) {
    Unpack(flags, FlagWidths)[27] == 1
  }

  predicate Sign(flags: nat) {
    Unpack(flags, FlagWidths)[25] == 1
  }

  /**
   * Flags 0x62088215 of a captured Negotiate message: unicode,
   * request_target and sign are set, oem is not.
   */
  lemma FlagsVector()
    ensures Unicode(0x62088215) && RequestTarget(0x62088215) && Sign(0x62088215)
    ensures Unpack(0x62088215, FlagWidths)[28] == 0
  {
    AliasBits(0x62088215);
    ShrTable(0x62088215, [0x62088215, 0x3104410a, 0x18822085, 0xc411042, 0x6208821]);
    FlagIsBitOf(0x62088215, 28);
    FlagIsBitOf(0x62088215, 27);
    FlagIsBitOf(0x62088215, 25);
    assert Unpack(0x62088215, FlagWidths)[28] < Pow2(1) == 2;
  }
}
