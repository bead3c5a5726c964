/**
 * SMB parameter and data blocks, the body of SMB messages the plugin has no
 * schema for: an 8-bit word count, that many 16-bit little-endian words, a
 * 16-bit byte count and that many bytes.
 */
module SmbBlocks {
  import opened Bytes
  import Lists

  datatype Blocks = Blocks(wordCount: nat, words: seq<nat>, byteCount: nat, bytes: seq<byte>)

  /** Counters fit their fields, each word fits 16 bits, and the arrays have their counted sizes. */
  predicate WellFormed(b: Blocks) {
    Fits(b.wordCount, 1) && Fits(b.byteCount, 2) &&
    |b.words| == b.wordCount && |b.bytes| == b.byteCount && Lists.WordsFit(b.words)
  }

  /** `to_s`: each field in order. */
  function ToBytes(b: Blocks): seq<byte> {
    LE(b.wordCount, 1) + (Lists.Words(b.words) + (LE(b.byteCount, 2) + b.bytes))
  }

  /** A well-formed block takes one byte, two per word, two more and one per byte. */
  lemma Size(b: Blocks)
    requires WellFormed(b)
    ensures |ToBytes(b)| == 1 + 2 * b.wordCount + 2 + b.byteCount
  {
  }

  /**
   * Reads the blocks: `word_count` words are read (fewer when the input
   * ends), then the byte count, then up to `byte_count` bytes; what follows
   * is returned.
   */
  function Read(s: seq<byte>): (r: Result<(Blocks, seq<byte>)>)
    ensures r.Ok? ==> ToBytes(r.value.0) + r.value.1 == s
    ensures r.Ok? ==> Fits(r.value.0.wordCount, 1) && Fits(r.value.0.byteCount, 2)
    ensures r.Ok? ==> |r.value.0.words| <= r.value.0.wordCount && |r.value.0.bytes| <= r.value.0.byteCount
    ensures r.Ok? ==> Lists.WordsFit(r.value.0.words)
    ensures |s| == 0 ==> r.Err?
  {
    var wc :- ReadLE(s, 1);
    var words :- Lists.ReadWords(wc.1, wc.0);
    var bc :- ReadLE(words.1, 2);
    var bytes := TakeUpTo(bc.1, bc.0);
    var b := Blocks(wc.0, words.0, bc.0, bytes.0);
    Assoc4(LE(wc.0, 1), Lists.Words(words.0), LE(bc.0, 2), bytes.0, bytes.1);
    Ok((b, bytes.1))
  }

  /** Well-formed blocks are read back from their bytes, whatever follows. */
  lemma ReadToBytes(b: Blocks, rest: seq<byte>)
    requires WellFormed(b)
    ensures Read(ToBytes(b) + rest) == Ok((b, rest))
  {
    var t3 := b.bytes + rest;
    var t2 := LE(b.byteCount, 2) + t3;
    var t1 := Lists.Words(b.words) + t2;
    assert ToBytes(b) + rest == LE(b.wordCount, 1) + t1;
    ReadLEOfLE(b.wordCount, 1, t1);
    Lists.ReadWordsOfWords(b.words, t2);
    ReadLEOfLE(b.byteCount, 2, t3);
    TakeUpToOfPrefix(b.bytes, rest);
  }

  /** The blocks of an echo request: one word, 1, and sixteen zero bytes. */
  const Echo: Blocks := Blocks(1, [1], 16, Zeros(16))

  lemma EchoWellFormed()
    ensures WellFormed(Echo)
  {
    assert Lists.FitsInt16(1) && Fits(16, 2) by {
      assert Pow256(2) == 65536;
    }
  }

  lemma EchoBytes()
    ensures ToBytes(Echo) == [1, 1, 0, 16, 0] + Zeros(16)
  {
    assert LE(1, 1) == [1];
    assert LE(16, 2) == [16, 0];
    assert Lists.Words([1]) == [1, 0] by {
      assert Lists.Int16Bytes(1) == LE(1, 2) == [1, 0];
    }
  }

  lemma EchoVector()
    ensures Read([1, 1, 0, 16, 0] + Zeros(16)) == Ok((Echo, []))
  {
    EchoWellFormed();
    EchoBytes();
    ReadToBytes(Echo, []);
    assert ToBytes(Echo) + [] == ToBytes(Echo);
  }
}
