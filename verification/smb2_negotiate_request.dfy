/**
 * SMB2 Negotiate request body: a 36-byte fixed part (structure size, dialect
 * count, security mode, reserved, capabilities, client GUID, context offset,
 * context count, reserved2), then `dialect_count` 16-bit dialects, a pad
 * that brings the next field to a multiple of 8, and negotiate contexts up to
 * the end of the body.
 */
module Smb2NegotiateRequest {
  import opened Bytes
  import opened BitFields
  import opened Enums
  import Lists
  import Smb2Base
  import Smb2Guid
  import Smb2Context

  // ---- enumerations and bit fields -------------------------------------------

  /** `SECURITY_MODES`; the second name is spelled with a space in the table. */
  const SecurityModes: Table := [("signing_enabled", 1), ("signing required", 2)]

  /** An enum field starts at the first value of its table: `signing_enabled`. */
  const DefaultSecurityMode: nat := SecurityModes[0].1

  /** `security_mode.to_human`. */
  function SecurityModeName(v: nat): (r: EnumName)
    ensures r.Known? <==> v == 1 || v == 2
    ensures r.Unknown? ==> r.value == v
  {
    assert SecurityModes[0].1 == 1 && SecurityModes[1].1 == 2;
    NameOf(SecurityModes, v)
  }

  /** The printed security mode and the table agree in both directions. */
  lemma SecurityModeMatchesTable(v: nat, name: string)
    ensures SecurityModeName(v) == Known(name) <==> ValueOf(SecurityModes, name) == Some(v)
  {
    assert Distinct(SecurityModes);
    NameOfValueOf(SecurityModes, v, name);
  }

  /**
   * Sub-fields of `capabilities`, most significant first: cap_rsv (25 bits),
   * then encryption, dir_leasing, persistent_handles, multi_channel,
   * large_mtu, leasing and dfs, one bit each. The names are those `inspect`
   * prints, with the `cap_` prefix removed.
   */
  const CapWidths: seq<nat> := [25, 1, 1, 1, 1, 1, 1, 1]
  const CapNames: seq<string> :=
    ["rsv", "encryption", "dir_leasing", "persistent_handles", "multi_channel", "large_mtu", "leasing", "dfs"]

  /** Capability `i` (1 to 7) is bit `7 - i` of the integer: dfs is bit 0, encryption bit 6. */
  lemma CapIsBit(cap: nat, i: nat)
    requires 1 <= i < |CapWidths|
    ensures Unpack(cap, CapWidths)[i] == 1 <==> BitSet(cap, 7 - i)
  {
    var tail := CapWidths[i + 1..];
    assert forall j :: 0 <= j < |tail| ==> tail[j] == CapWidths[i + 1 + j];
    SumOnes(tail);
    FlagIsBit(cap, CapWidths, i);
  }

  /** The capability list `inspect` prints: the one-bit capabilities that are set. */
  function SetCapabilities(cap: nat): (r: seq<string>)
    ensures forall n :: n in r <==>
      exists i :: 0 <= i < |CapWidths| && CapWidths[i] == 1 && Unpack(cap, CapWidths)[i] == 1 && CapNames[i] == n
  {
    SetNames(Unpack(cap, CapWidths), CapWidths, CapNames, 0)
  }

  /** Capabilities 0x7f of a Windows client: all seven are set. */
  lemma Capabilities0x7f()
    ensures forall i :: 1 <= i < |CapWidths| ==> Unpack(0x7f, CapWidths)[i] == 1
  {
    forall i | 1 <= i < |CapWidths|
      ensures Unpack(0x7f, CapWidths)[i] == 1
    {
      CapIsBit(0x7f, i);
      assert Shr(0x7f, 1) == 0x3f && Shr(0x7f, 2) == 0x1f && Shr(0x7f, 3) == 0xf;
      assert Shr(0x7f, 4) == 7 && Shr(0x7f, 5) == 3 && Shr(0x7f, 6) == 1;
    }
  }

  // ---- layout ----------------------------------------------------------------

  datatype Request = Request(
    structureSize: nat,
    dialectCount: nat,
    securityMode: nat,
    reserved: nat,
    capabilities: nat,
    clientGuid: Smb2Guid.Guid,
    contextOffset: nat,
    contextCount: nat,
    reserved2: nat,
    dialects: seq<nat>,
    pad: seq<byte>,
    contexts: seq<Smb2Context.Context>)

  /** `structure_size` default, and offset of `dialects` in the body. */
  const DialectsOffset: nat := 36

  /** structure_size, dialect_count, security_mode, reserved, capabilities. */
  const HeadWidths: seq<nat> := [2, 2, 2, 2, 4]
  /** context_offset, context_count, reserved2. */
  const MidWidths: seq<nat> := [4, 2, 2]

  function HeadInts(r: Request): seq<nat> {
    [r.structureSize, r.dialectCount, r.securityMode, r.reserved, r.capabilities]
  }

  function MidInts(r: Request): seq<nat> {
    [r.contextOffset, r.contextCount, r.reserved2]
  }

  lemma WidthsTotal()
    ensures Total(HeadWidths) + Smb2Guid.Size + Total(MidWidths) == DialectsOffset
  {
  }

  /** Length the pad takes when read after `n` dialects. */
  function PadSize(n: nat): (r: nat)
    ensures r < 8 && (DialectsOffset + 2 * n + r) % 8 == 0
  {
    Smb2Base.PadAfter(DialectsOffset, 2 * n)
  }

  /**
   * Integers fit their widths, the dialect count is the number of dialects,
   * the pad has the length a read gives it, and the contexts are well formed.
   */
  predicate WellFormed(r: Request) {
    AllFit(HeadInts(r), HeadWidths) && Smb2Guid.WellFormed(r.clientGuid) && AllFit(MidInts(r), MidWidths) &&
    |r.dialects| == r.dialectCount && (forall i :: 0 <= i < |r.dialects| ==> Fits(r.dialects[i], 2)) &&
    |r.pad| == PadSize(|r.dialects|) &&
    forall i :: 0 <= i < |r.contexts| ==> Smb2Context.WellFormed(r.contexts[i])
  }

  function DialectBytes(ds: seq<nat>): seq<byte> {
    Lists.Flatten(Lists.Int16Bytes, ds)
  }

  function ContextBytes(cs: seq<Smb2Context.Context>): seq<byte> {
    Lists.Flatten(Smb2Context.ToBytes, cs)
  }

  /** `to_s`: every field in order. */
  function ToBytes(r: Request): seq<byte>
    requires |HeadInts(r)| == |HeadWidths| && |MidInts(r)| == |MidWidths|
  {
    WriteInts(HeadInts(r), HeadWidths) + (Smb2Guid.ToBytes(r.clientGuid) + (WriteInts(MidInts(r), MidWidths) +
      (DialectBytes(r.dialects) + (r.pad + ContextBytes(r.contexts)))))
  }

  /** Request with the given runs of integers and variable parts. */
  function Make(h: seq<nat>, g: Smb2Guid.Guid, m: seq<nat>, ds: seq<nat>, pad: seq<byte>,
                cs: seq<Smb2Context.Context>): (r: Request)
    requires |h| == |HeadWidths| && |m| == |MidWidths|
    ensures HeadInts(r) == h && MidInts(r) == m && r.clientGuid == g
    ensures r.dialects == ds && r.pad == pad && r.contexts == cs
  {
    Request(h[0], h[1], h[2], h[3], h[4], g, m[0], m[1], m[2], ds, pad, cs)
  }

  /**
   * Reads a request body: the fixed part needs its 36 bytes, at most
   * `dialect_count` dialects are read (fewer when the body ends), the pad takes
   * up to its length and the contexts run to the end of the body.
   */
  function Read(s: seq<byte>): (r: Result<Request>)
    ensures |s| < DialectsOffset ==> r.Err?
    ensures r.Ok? ==> ToBytes(r.value) == s
    ensures r.Ok? ==> AllFit(HeadInts(r.value), HeadWidths) && AllFit(MidInts(r.value), MidWidths) &&
                      Smb2Guid.WellFormed(r.value.clientGuid)
    ensures r.Ok? ==> |r.value.dialects| <= r.value.dialectCount &&
                      forall i :: 0 <= i < |r.value.dialects| ==> Fits(r.value.dialects[i], 2)
    ensures r.Ok? && |r.value.dialects| < r.value.dialectCount ==> r.value.pad == [] && r.value.contexts == []
  {
    WidthsTotal();
    var h :- ReadInts(s, HeadWidths);
    var g :- Smb2Guid.Read(h.1);
    var m :- ReadInts(g.1, MidWidths);
    ReadVariable(h.0, g.0, m.0, s, m.1)
  }

  /** The part of `Read` after the fixed part. */
  function ReadVariable(h: seq<nat>, g: Smb2Guid.Guid, m: seq<nat>, ghost s: seq<byte>, t: seq<byte>): (r: Result<Request>)
    requires AllFit(h, HeadWidths) && AllFit(m, MidWidths) && Smb2Guid.WellFormed(g)
    requires s == WriteInts(h, HeadWidths) + (Smb2Guid.ToBytes(g) + (WriteInts(m, MidWidths) + t))
    ensures r.Ok? ==> ToBytes(r.value) == s && HeadInts(r.value) == h && MidInts(r.value) == m
    ensures r.Ok? ==> r.value.clientGuid == g
    ensures r.Ok? ==> |r.value.dialects| <= r.value.dialectCount &&
                      forall i :: 0 <= i < |r.value.dialects| ==> Fits(r.value.dialects[i], 2)
    ensures r.Ok? && |r.value.dialects| < r.value.dialectCount ==> r.value.pad == [] && r.value.contexts == []
  {
    Lists.Int16Laws();
    Lists.ReadManySplits(Lists.ReadInt16, Lists.Int16Bytes, t, h[1]);
    var d :- Lists.ReadMany(Lists.ReadInt16, t, h[1]);
    Lists.ReadInt16Fits(t, h[1]);
    var pad := TakeUpTo(d.1, PadSize(|d.0|));
    var cs :- Smb2Context.ReadToEnd(pad.1);
    Ok(Make(h, g, m, d.0, pad.0, cs.0))
  }

  /** A well-formed request is read back from its bytes. */
  lemma ReadToBytes(r: Request)
    requires WellFormed(r)
    ensures Read(ToBytes(r)) == Ok(r)
  {
    WidthsTotal();
    var cb := ContextBytes(r.contexts);
    var t4 := r.pad + cb;
    var t3 := DialectBytes(r.dialects) + t4;
    var t2 := WriteInts(MidInts(r), MidWidths) + t3;
    var t1 := Smb2Guid.ToBytes(r.clientGuid) + t2;
    ReadIntsOfWrite(HeadInts(r), HeadWidths, t1);
    Smb2Guid.ReadToBytes(r.clientGuid, t2);
    ReadIntsOfWrite(MidInts(r), MidWidths, t3);
    Lists.Int16Laws();
    Lists.ReadManyFlatten(Lists.ReadInt16, Lists.Int16Bytes, Lists.FitsInt16, r.dialects, t4, r.dialectCount);
    TakeUpToOfPrefix(r.pad, cb);
    Smb2Context.ReadToEndOfConcat(r.contexts);
    assert Make(HeadInts(r), r.clientGuid, MidInts(r), r.dialects, r.pad, r.contexts) == r;
  }

  /**
   * The pad aligns the context list: in a well-formed request every context
   * starts at a multiple of 8 from the start of the SMB2 header.
   */
  lemma ContextsAligned(r: Request, i: nat)
    requires WellFormed(r) && i <= |r.contexts|
    ensures (64 + DialectsOffset + |DialectBytes(r.dialects)| + |r.pad| + |ContextBytes(r.contexts[..i])|) % 8 == 0
  {
    ListAlignedAfter(r.dialects, r.pad, r.contexts[..i]);
  }

  lemma ListAlignedAfter(ds: seq<nat>, pad: seq<byte>, cs: seq<Smb2Context.Context>)
    requires |pad| == PadSize(|ds|)
    requires forall j :: 0 <= j < |cs| ==> Smb2Context.WellFormed(cs[j])
    ensures (64 + DialectsOffset + |DialectBytes(ds)| + |pad| + |ContextBytes(cs)|) % 8 == 0
  {
    Smb2Context.ListAligned(cs);
    Lists.Int16BytesLength(ds);
    AddAligned(DialectsOffset + |DialectBytes(ds)| + |pad|, |ContextBytes(cs)|);
  }

  lemma AddAligned(a: nat, b: nat)
    requires a % 8 == 0 && b % 8 == 0
    ensures (64 + a + b) % 8 == 0
  {
    assert 64 + a + b == 8 * (8 + a / 8 + b / 8);
  }
}
