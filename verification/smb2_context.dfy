/**
 * SMB2 negotiate contexts: a 16-bit type, a 16-bit data length, 32 reserved
 * bits, `data_length` bytes of data and a pad that aligns the next context on
 * 8 bytes. Lists of contexts are read one after another, up to a count or to
 * the end of the input.
 */
module Smb2Context {
  import opened Bytes
  import Smb2Base
  import Lists
  import opened Enums

  /** `TYPES`. */
  const Types: Table := [("PREAUTH_INTEGRITY_CAP", 1), ("ENCRYPTION_CAP", 2)]

  /** `human_type` / `to_human`: the name of the type, or the unknown form. */
  function HumanType(ctype: nat): (r: EnumName)
    ensures r.Known? <==> ctype == 1 || ctype == 2
    ensures r.Unknown? ==> r.value == ctype
  {
    assert Types[0].1 == 1 && Types[1].1 == 2;
    NameOf(Types, ctype)
  }

  /** The printed name and the table agree in both directions. */
  lemma HumanTypeMatchesTable(ctype: nat, name: string)
    ensures HumanType(ctype) == Known(name) <==> ValueOf(Types, name) == Some(ctype)
  {
    assert Distinct(Types);
    NameOfValueOf(Types, ctype, name);
  }

  datatype Context = Context(ctype: nat, dataLength: nat, reserved: nat, data: seq<byte>, pad: seq<byte>)

  /** Offset of `data`: type (2), data length (2) and reserved (4). */
  const DataOffset: nat := 8

  /** Length of the pad, read from the `data_length` field rather than from the data. */
  function PadSize(dataLength: nat): (r: nat)
    ensures r < 8 && (DataOffset + dataLength + r) % 8 == 0
  {
    Smb2Base.PadAfter(DataOffset, dataLength)
  }

  /** Widths of the integer fields: type, data length, reserved. */
  const Widths: seq<nat> := [2, 2, 4]

  function Ints(c: Context): seq<nat> {
    [c.ctype, c.dataLength, c.reserved]
  }

  lemma WidthsTotal()
    ensures Total(Widths) == DataOffset
  {
  }

  /** Integers fit their fields, and data and pad have the lengths the fields give them. */
  predicate WellFormed(c: Context) {
    AllFit(Ints(c), Widths) && |c.data| == c.dataLength && |c.pad| == PadSize(c.dataLength)
  }

  function ToBytes(c: Context): (r: seq<byte>)
    ensures |r| == DataOffset + |c.data| + |c.pad|
  {
    WidthsTotal();
    WriteInts(Ints(c), Widths) + c.data + c.pad
  }

  /**
   * Reads one context. The three integers need their 8 bytes; data and pad
   * are string fields and take what remains when the input is short.
   */
  function Read(s: seq<byte>): (r: Result<(Context, seq<byte>)>)
    ensures r.Ok? <==> |s| >= DataOffset
    ensures r.Ok? ==> ToBytes(r.value.0) + r.value.1 == s
    ensures r.Ok? ==> |r.value.0.data| == Min(r.value.0.dataLength, |s| - DataOffset)
  {
    WidthsTotal();
    var f :- ReadInts(s, Widths);
    var v := f.0;
    var data := TakeUpTo(f.1, v[1]);
    var pad := TakeUpTo(data.1, PadSize(v[1]));
    var c := Context(v[0], v[1], v[2], data.0, pad.0);
    assert Ints(c) == v;
    Reassemble(c, pad.1, f.1);
    Ok((c, pad.1))
  }

  lemma Reassemble(c: Context, rest: seq<byte>, tail: seq<byte>)
    requires c.data + (c.pad + rest) == tail
    ensures ToBytes(c) + rest == WriteInts(Ints(c), Widths) + tail
  {
  }

  function Min(a: int, b: int): int {
    if a <= b then a else b
  }

  lemma ReadToBytes(c: Context, rest: seq<byte>)
    requires WellFormed(c)
    ensures Read(ToBytes(c) + rest) == Ok((c, rest))
  {
    var tail := c.data + (c.pad + rest);
    assert ToBytes(c) + rest == WriteInts(Ints(c), Widths) + tail;
    ReadIntsOfWrite(Ints(c), Widths, tail);
    TakeUpToOfPrefix(c.data, c.pad + rest);
    TakeUpToOfPrefix(c.pad, rest);
  }

  /** A context that follows its length rules occupies a multiple of 8 bytes. */
  lemma SizeAligned(c: Context)
    requires WellFormed(c)
    ensures |ToBytes(c)| % 8 == 0
  {
  }

  /** The engine's length update: `data_length` becomes the size of the data, nothing else moves. */
  function CalcLength(c: Context): (r: Context)
    ensures r.dataLength == |r.data|
    ensures r.ctype == c.ctype && r.reserved == c.reserved && r.data == c.data && r.pad == c.pad
  {
    c.(dataLength := |c.data|)
  }

  // ---- lists of contexts ---------------------------------------------------

  /** The context reader meets the laws the array reader needs. */
  lemma ReaderLaws()
    ensures Lists.Consumes(Read)
    ensures Lists.Splits(Read, ToBytes)
    ensures Lists.Inverts(Read, ToBytes, WellFormed)
  {
    forall c, t | WellFormed(c)
      ensures Read(ToBytes(c) + t) == Ok((c, t))
    {
      ReadToBytes(c, t);
    }
  }

  /** An array of contexts: at most `max` of them, or up to the end of the input. */
  function ReadList(s: seq<byte>, max: nat): (r: Result<(seq<Context>, seq<byte>)>)
    ensures r.Ok? ==> |r.value.0| <= max
    ensures r.Ok? ==> Lists.Flatten(ToBytes, r.value.0) + r.value.1 == s
    ensures r.Ok? && |r.value.0| < max ==> r.value.1 == []
  {
    ReaderLaws();
    Lists.ReadManySplits(Read, ToBytes, s, max);
    Lists.ReadMany(Read, s, max)
  }

  /** Well-formed contexts written one after another read back as the same list. */
  lemma ReadListOfConcat(cs: seq<Context>, rest: seq<byte>, max: nat)
    requires forall i :: 0 <= i < |cs| ==> WellFormed(cs[i])
    requires |cs| == max || (|cs| < max && rest == [])
    ensures ReadList(Lists.Flatten(ToBytes, cs) + rest, max) == Ok((cs, rest))
  {
    ReaderLaws();
    Lists.ReadManyFlatten(Read, ToBytes, WellFormed, cs, rest, max);
  }

  /** An array of contexts without counter: contexts up to the end of the input. */
  function ReadToEnd(s: seq<byte>): (r: Result<(seq<Context>, seq<byte>)>)
    ensures r.Ok? ==> r.value.1 == [] && Lists.Flatten(ToBytes, r.value.0) == s
  {
    ReaderLaws();
    Lists.ReadManySplits(Read, ToBytes, s, |s|);
    assert Lists.Flatten(ToBytes, []) == [];
    Lists.ReadAll(Read, s)
  }

  lemma ReadToEndOfConcat(cs: seq<Context>)
    requires forall i :: 0 <= i < |cs| ==> WellFormed(cs[i])
    ensures ReadToEnd(Lists.Flatten(ToBytes, cs)) == Ok((cs, []))
  {
    ReaderLaws();
    Lists.ReadAllFlatten(Read, ToBytes, WellFormed, cs);
  }

  /** `calc_length` on every context of an array. */
  function CalcAll(cs: seq<Context>): (r: seq<Context>)
    ensures |r| == |cs|
    ensures forall i :: 0 <= i < |cs| ==> r[i] == CalcLength(cs[i])
  {
    if |cs| == 0 then [] else [CalcLength(cs[0])] + CalcAll(cs[1..])
  }

  /** Well-formed contexts written one after another fill a multiple of 8 bytes. */
  lemma {:induction false} ListAligned(cs: seq<Context>)
    requires forall i :: 0 <= i < |cs| ==> WellFormed(cs[i])
    ensures |Lists.Flatten(ToBytes, cs)| % 8 == 0
    decreases |cs|
  {
    if |cs| > 0 {
      SizeAligned(cs[0]);
      ListAligned(cs[1..]);
    }
  }
}
