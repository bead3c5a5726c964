/**
 * Array fields of the schemas: elements of one type read one after another,
 * either until a counter's worth of them is read or until the input is used
 * up (a field with no counter is read to the end). The element reader is a
 * parameter, so the laws below are proved once for every array in the model.
 */
module Lists {
  import opened Bytes

  /** Reads one element at the head of the input and returns the rest. */
  type Reader<!T> = seq<byte> -> Result<(T, seq<byte>)>

  /** Every successful read consumes at least one byte. */
  ghost predicate Consumes<T>(read: Reader<T>) {
    forall s :: read(s).Ok? ==> |read(s).value.1| < |s|
  }

  /** The reader gives back exactly what `enc` wrote, followed by what remains. */
  ghost predicate Splits<T>(read: Reader<T>, enc: T -> seq<byte>) {
    forall s :: read(s).Ok? ==> enc(read(s).value.0) + read(s).value.1 == s
  }

  /** The reader decodes every valid element from its encoding, whatever follows. */
  ghost predicate Inverts<T(!new)>(read: Reader<T>, enc: T -> seq<byte>, valid: T -> bool) {
    forall x, t :: valid(x) ==> read(enc(x) + t) == Ok((x, t))
  }

  /** Encodings of the elements, one after another. */
  function Flatten<T>(enc: T -> seq<byte>, xs: seq<T>): (r: seq<byte>)
    ensures |xs| == 0 ==> r == []
  {
    if |xs| == 0 then [] else enc(xs[0]) + Flatten(enc, xs[1..])
  }

  /**
   * Reads elements until `max` of them are read or the input is empty. A
   * failing element read fails the whole array.
   */
  function ReadMany<T>(read: Reader<T>, s: seq<byte>, max: nat): (r: Result<(seq<T>, seq<byte>)>)
    requires Consumes(read)
    ensures r.Ok? ==> |r.value.0| <= max
    ensures r.Ok? && |r.value.0| < max ==> r.value.1 == []
    ensures max > 0 && |s| > 0 && read(s).Err? ==> r.Err?
    ensures r.Ok? ==> |r.value.0| + |r.value.1| <= |s|
    decreases |s|
  {
    if max == 0 || |s| == 0 then Ok(([], s))
    else
      match read(s)
      case Err(e) => Err(e)
      case Ok(first) =>
        match ReadMany(read, first.1, max - 1)
        case Err(e) => Err(e)
        case Ok(more) => Ok(([first.0] + more.0, more.1))
  }

  lemma FlattenCons<T>(enc: T -> seq<byte>, x: T, xs: seq<T>)
    ensures Flatten(enc, [x] + xs) == enc(x) + Flatten(enc, xs)
  {
    assert ([x] + xs)[1..] == xs;
  }

  lemma {:induction false} FlattenAppend<T>(enc: T -> seq<byte>, xs: seq<T>, ys: seq<T>)
    ensures Flatten(enc, xs + ys) == Flatten(enc, xs) + Flatten(enc, ys)
    decreases |xs|
  {
    if |xs| == 0 {
      assert xs + ys == ys;
    } else {
      FlattenAppend(enc, xs[1..], ys);
      assert (xs + ys)[1..] == xs[1..] + ys;
    }
  }

  /** What was read, written back, is the input that was consumed. */
  lemma {:induction false} ReadManySplits<T>(read: Reader<T>, enc: T -> seq<byte>, s: seq<byte>, max: nat)
    requires Consumes(read) && Splits(read, enc)
    ensures ReadMany(read, s, max).Ok? ==>
      Flatten(enc, ReadMany(read, s, max).value.0) + ReadMany(read, s, max).value.1 == s
    decreases |s|
  {
    if max > 0 && |s| > 0 && read(s).Ok? {
      var first := read(s).value;
      ReadManySplits(read, enc, first.1, max - 1);
      var more := ReadMany(read, first.1, max - 1);
      if more.Ok? {
        FlattenCons(enc, first.0, more.value.0);
      }
    }
  }

  /**
   * Writing valid elements and reading them back gives the same elements,
   * when the counter says how many there are or the input ends with them.
   */
  lemma {:induction false} ReadManyFlatten<T(!new)>(read: Reader<T>, enc: T -> seq<byte>, valid: T -> bool,
                                              xs: seq<T>, rest: seq<byte>, max: nat)
    requires Consumes(read) && Inverts(read, enc, valid)
    requires forall i :: 0 <= i < |xs| ==> valid(xs[i])
    requires |xs| == max || (|xs| < max && |rest| == 0)
    ensures ReadMany(read, Flatten(enc, xs) + rest, max) == Ok((xs, rest))
    decreases |xs|
  {
    if |xs| == 0 {
      assert Flatten(enc, xs) + rest == rest;
    } else {
      var tail := Flatten(enc, xs[1..]) + rest;
      FlattenCons(enc, xs[0], xs[1..]);
      assert [xs[0]] + xs[1..] == xs;
      assert Flatten(enc, xs) + rest == enc(xs[0]) + tail;
      assert read(enc(xs[0]) + tail) == Ok((xs[0], tail));
      ReadManyFlatten(read, enc, valid, xs[1..], rest, max - 1);
    }
  }

  /** An array field without counter: elements are read until the input is used up. */
  function ReadAll<T>(read: Reader<T>, s: seq<byte>): (r: Result<(seq<T>, seq<byte>)>)
    requires Consumes(read)
    ensures r.Ok? ==> r.value.1 == []
  {
    ReadMany(read, s, |s|)
  }

  /** Valid elements have non-empty encodings, so there are no more elements than bytes. */
  lemma {:induction false} FlattenLength<T(!new)>(read: Reader<T>, enc: T -> seq<byte>, valid: T -> bool, xs: seq<T>)
    requires Consumes(read) && Inverts(read, enc, valid)
    requires forall i :: 0 <= i < |xs| ==> valid(xs[i])
    ensures |xs| <= |Flatten(enc, xs)|
    decreases |xs|
  {
    if |xs| > 0 {
      assert enc(xs[0]) + [] == enc(xs[0]);
      assert read(enc(xs[0])) == Ok((xs[0], []));
      FlattenLength(read, enc, valid, xs[1..]);
    }
  }

  /** Valid elements written one after another read back, to the end of the input. */
  lemma ReadAllFlatten<T(!new)>(read: Reader<T>, enc: T -> seq<byte>, valid: T -> bool, xs: seq<T>)
    requires Consumes(read) && Inverts(read, enc, valid)
    requires forall i :: 0 <= i < |xs| ==> valid(xs[i])
    ensures ReadAll(read, Flatten(enc, xs)) == Ok((xs, []))
  {
    var f := Flatten(enc, xs);
    FlattenLength(read, enc, valid, xs);
    assert f + [] == f;
    ReadManyFlatten(read, enc, valid, xs, [], |f|);
  }

  // ---- arrays of 16-bit little-endian integers -------------------------------

  function ReadInt16(s: seq<byte>): Result<(nat, seq<byte>)> {
    ReadLE(s, 2)
  }

  function Int16Bytes(x: nat): seq<byte> {
    LE(x, 2)
  }

  predicate FitsInt16(x: nat) {
    Fits(x, 2)
  }

  lemma Int16Laws()
    ensures Consumes(ReadInt16) && Splits(ReadInt16, Int16Bytes) && Inverts(ReadInt16, Int16Bytes, FitsInt16)
  {
    forall x: nat, t: seq<byte> | FitsInt16(x)
      ensures ReadInt16(Int16Bytes(x) + t) == Ok((x, t))
    {
      ReadLEOfLE(x, 2, t);
    }
  }

  /** Integers read by an array of 16-bit integers fit 16 bits. */
  lemma {:induction false} ReadInt16Fits(t: seq<byte>, max: nat)
    requires Consumes(ReadInt16)
    ensures ReadMany(ReadInt16, t, max).Ok? ==>
      forall i :: 0 <= i < |ReadMany(ReadInt16, t, max).value.0| ==> FitsInt16(ReadMany(ReadInt16, t, max).value.0[i])
    decreases |t|
  {
    if max > 0 && |t| > 0 && ReadInt16(t).Ok? {
      ReadInt16Fits(ReadInt16(t).value.1, max - 1);
    }
  }

  /** Encoding of an array of 16-bit integers: two bytes each. */
  lemma {:induction false} Int16BytesLength(xs: seq<nat>)
    ensures |Flatten(Int16Bytes, xs)| == 2 * |xs|
    decreases |xs|
  {
    if |xs| > 0 {
      Int16BytesLength(xs[1..]);
    }
  }

  /** Each integer of an array fits 16 bits. */
  predicate WordsFit(ws: seq<nat>) {
    forall i :: 0 <= i < |ws| ==> FitsInt16(ws[i])
  }

  /** An array of 16-bit little-endian integers on the wire. */
  function Words(ws: seq<nat>): (r: seq<byte>)
    ensures |r| == 2 * |ws|
  {
    Int16BytesLength(ws);
    Flatten(Int16Bytes, ws)
  }

  /**
   * An array of 16-bit integers with a counter: `count` integers are read,
   * fewer when the input ends, and a lone last byte fails the read.
   */
  function ReadWords(s: seq<byte>, count: nat): (r: Result<(seq<nat>, seq<byte>)>)
    ensures r.Ok? ==> |r.value.0| <= count && WordsFit(r.value.0) && Words(r.value.0) + r.value.1 == s
    ensures r.Ok? && |r.value.0| < count ==> r.value.1 == []
    ensures count == 0 ==> r == Ok(([], s))
  {
    Int16Laws();
    ReadManySplits(ReadInt16, Int16Bytes, s, count);
    ReadInt16Fits(s, count);
    ReadMany(ReadInt16, s, count)
  }

  /** Integers that fit are read back from their bytes when the counter says how many there are. */
  lemma ReadWordsOfWords(ws: seq<nat>, rest: seq<byte>)
    requires WordsFit(ws)
    ensures ReadWords(Words(ws) + rest, |ws|) == Ok((ws, rest))
  {
    Int16Laws();
    ReadManyFlatten(ReadInt16, Int16Bytes, FitsInt16, ws, rest, |ws|);
  }
}
