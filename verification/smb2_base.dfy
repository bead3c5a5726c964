/**
 * The SMB2 alignment pad (`define_smb2_pad_field`): a byte-string field whose
 * length, when read, is what it takes to bring the end of the field declared
 * just before it to the next multiple of 8. Its value by default is 8 zero
 * bytes. The end is measured from the start of the SMB2 body, which follows a
 * 64-byte header, so the alignment holds from the start of the header too.
 */
module Smb2Base {
  import opened Bytes

  /** `len = 8 - end % 8; len = 0 if len == 8`. */
  function PadLength(end: nat): (r: nat)
    ensures r < 8
    ensures (end + r) % 8 == 0
  {
    var len := 8 - end % 8;
    if len == 8 then 0 else len
  }

  /** The pad is the shortest one that aligns: no shorter length reaches a multiple of 8. */
  lemma PadLengthIsLeast(end: nat, k: nat)
    requires (end + k) % 8 == 0
    ensures PadLength(end) <= k
  {
  }

  /** Default value of a pad field: `[0].pack('q')`. */
  const DefaultPad: seq<byte> := Zeros(8)

  /**
   * The length of a pad placed after a field reads only that field's offset
   * and size: two layouts that agree on them agree on the pad.
   */
  function PadAfter(prevOffset: nat, prevSize: nat): (r: nat)
    ensures r < 8 && (prevOffset + prevSize + r) % 8 == 0
  {
    PadLength(prevOffset + prevSize)
  }

  /** A Negotiate request with `i` dialects: dialects start at 36, so the pad is `(4 - 2 i) % 8`. */
  lemma RequestPadVector(i: nat)
    ensures PadAfter(36, 2 * i) == (4 - 2 * i) % 8
  {
  }

  /** A Negotiate response with an `i`-byte buffer at offset 64: the pad is `(8 - i) % 8`. */
  lemma ResponsePadVector(i: nat)
    ensures PadAfter(64, i) == (8 - i) % 8
  {
  }
}
