/**
 * What the Trans request and response share: a run of integer fields split
 * in two, `setup_count` 16-bit setup words, the 16-bit `byte_count`, and a
 * `pad1` string whose length makes the body start at `data_offset`,
 * counted from the start of the SMB header.
 */
module SmbTrans {
  import opened Bytes
  import Lists
  import SmbHeader

  /** The parameter block as read: two runs of integers, the setup words and the byte count. */
  datatype Params = Params(head: seq<nat>, tail: seq<nat>, setup: seq<nat>, byteCount: nat)

  /** The parameter block on the wire. */
  function ParamBytes(p: Params, hw: seq<nat>, tw: seq<nat>): (r: seq<byte>)
    requires |p.head| == |hw| && |p.tail| == |tw|
    ensures |r| == Total(hw) + Total(tw) + 2 * |p.setup| + 2
  {
    WriteInts(p.head, hw) + (WriteInts(p.tail, tw) + (Lists.Words(p.setup) + LE(p.byteCount, 2)))
  }

  /** Every integer fits its field and there are as many setup words as `setup_count`, the `k`-th tail integer, says. */
  predicate ParamsFit(p: Params, hw: seq<nat>, tw: seq<nat>, k: nat) {
    k < |tw| && AllFit(p.head, hw) && AllFit(p.tail, tw) &&
    |p.setup| == p.tail[k] && Lists.WordsFit(p.setup) && Fits(p.byteCount, 2)
  }

  /**
   * Reads the parameter block: the integers need their bytes, the setup
   * array takes as many words as the `k`-th tail integer counts (fewer when
   * the input ends) and the byte count needs two bytes.
   */
  function ReadParams(s: seq<byte>, hw: seq<nat>, tw: seq<nat>, k: nat): (r: Result<(Params, seq<byte>)>)
    requires k < |tw|
    ensures r.Ok? ==> |r.value.0.head| == |hw| && |r.value.0.tail| == |tw|
    ensures r.Ok? ==> AllFit(r.value.0.head, hw) && AllFit(r.value.0.tail, tw)
    ensures r.Ok? ==> |r.value.0.setup| <= r.value.0.tail[k] && Lists.WordsFit(r.value.0.setup)
    ensures r.Ok? ==> Fits(r.value.0.byteCount, 2)
    ensures r.Ok? ==> ParamBytes(r.value.0, hw, tw) + r.value.1 == s
    ensures |s| < Total(hw) + Total(tw) ==> r.Err?
  {
    var h :- ReadInts(s, hw);
    var t :- ReadInts(h.1, tw);
    var setup :- Lists.ReadWords(t.1, t.0[k]);
    var bc :- ReadLE(setup.1, 2);
    var p := Params(h.0, t.0, setup.0, bc.0);
    Assoc4(WriteInts(h.0, hw), WriteInts(t.0, tw), Lists.Words(setup.0), LE(bc.0, 2), bc.1);
    Ok((p, bc.1))
  }

  /** A parameter block that fits is read back from its bytes, whatever follows. */
  lemma ReadParamsOfBytes(p: Params, hw: seq<nat>, tw: seq<nat>, k: nat, rest: seq<byte>)
    requires ParamsFit(p, hw, tw, k)
    ensures ReadParams(ParamBytes(p, hw, tw) + rest, hw, tw, k) == Ok((p, rest))
  {
    var t3 := LE(p.byteCount, 2) + rest;
    var t2 := Lists.Words(p.setup) + t3;
    var t1 := WriteInts(p.tail, tw) + t2;
    Assoc4(WriteInts(p.head, hw), WriteInts(p.tail, tw), Lists.Words(p.setup), LE(p.byteCount, 2), rest);
    ReadIntsOfWrite(p.head, hw, t1);
    ReadIntsOfWrite(p.tail, tw, t2);
    Lists.ReadWordsOfWords(p.setup, t3);
    ReadLEOfLE(p.byteCount, 2, rest);
  }

  /**
   * Length `pad1` is read with: what is left between `offset` bytes of body
   * behind the SMB header and `data_offset`, or nothing when that is
   * negative.
   */
  function PadLength(dataOffset: nat, offset: nat): (n: nat)
    ensures SmbHeader.HeaderSize + offset <= dataOffset ==> SmbHeader.HeaderSize + offset + n == dataOffset
    ensures SmbHeader.HeaderSize + offset >= dataOffset ==> n == 0
  {
    var n := dataOffset - SmbHeader.HeaderSize - offset;
    if n < 0 then 0 else n
  }
}
