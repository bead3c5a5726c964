/**
 * Shared vocabulary of the model: bytes, the little- and big-endian integer
 * codecs every schema uses, the failure type of the readers, and Ruby's
 * `String#[start, length]` slice, which several readers rely on.
 */
module Bytes {

  type byte = x: int | 0 <= x < 256

  datatype Option<+T> = None | Some(value: T)

  /** Why a read or a call stops. */
  datatype Error =
    | Truncated                 // an integer field needs more bytes than remain
    | NegativeLength            // a computed field length is below zero
    | NoMethodError             // the Ruby code calls a method the receiver lacks
    | NameError                 // the Ruby code asks for a constant with an invalid name

  /** Outcome of a reader, usable with `:-`. */
  datatype Result<+T> = Ok(value: T) | Err(error: Error) {
    predicate IsFailure() {
      Err?
    }

    function PropagateFailure<U>(): Result<U>
      requires Err?
    {
      Err(error)
    }

    function Extract(): T
      requires Ok?
    {
      value
    }
  }

  /**
   * What an enumerated integer field prints as: the name its table gives the
   * value, or the `<unknown:N>` form for a value the table lacks.
   */
  datatype EnumName = Known(name: string) | Unknown(value: nat)

  /** `n` zero bytes. */
  function Zeros(n: nat): (r: seq<byte>)
    ensures |r| == n
    ensures forall i :: 0 <= i < n ==> r[i] == 0
  {
    if n == 0 then [] else [0] + Zeros(n - 1)
  }

  function Pow256(n: nat): (r: nat)
    ensures r >= 1
  {
    if n == 0 then 1 else 256 * Pow256(n - 1)
  }

  /** Largest value plus one that an `n`-byte unsigned field can carry. */
  predicate Fits(x: nat, n: nat) {
    x < Pow256(n)
  }

  /** `n`-byte little-endian encoding of `x`, truncated to its low `8 * n` bits. */
  function LE(x: nat, n: nat): (r: seq<byte>)
    ensures |r| == n
  {
    if n == 0 then [] else [x % 256] + LE(x / 256, n - 1)
  }

  /** Value of a little-endian byte string. */
  function FromLE(s: seq<byte>): (r: nat)
    ensures r < Pow256(|s|)
  {
    if |s| == 0 then 0 else s[0] + 256 * FromLE(s[1..])
  }

  /** `n`-byte big-endian encoding of `x`, truncated to its low `8 * n` bits. */
  function BE(x: nat, n: nat): (r: seq<byte>)
    ensures |r| == n
  {
    if n == 0 then [] else BE(x / 256, n - 1) + [x % 256]
  }

  /** Value of a big-endian byte string. */
  function FromBE(s: seq<byte>): (r: nat)
    ensures r < Pow256(|s|)
  {
    if |s| == 0 then 0 else 256 * FromBE(s[..|s| - 1]) + s[|s| - 1]
  }

  lemma {:induction false} FromLEOfLE(x: nat, n: nat)
    requires Fits(x, n)
    ensures FromLE(LE(x, n)) == x
  {
    if n > 0 {
      FromLEOfLE(x / 256, n - 1);
      assert LE(x, n)[1..] == LE(x / 256, n - 1);
    }
  }

  /** Splitting off the low byte undoes adding it. */
  lemma LowByte(a: nat, b: nat)
    requires a < 256
    ensures (a + 256 * b) % 256 == a && (a + 256 * b) / 256 == b
  {
  }

  lemma {:induction false} LEOfFromLE(s: seq<byte>)
    ensures LE(FromLE(s), |s|) == s
  {
    if |s| > 0 {
      var x := FromLE(s);
      LEOfFromLE(s[1..]);
      LowByte(s[0], FromLE(s[1..]));
      assert LE(x, |s|) == [s[0]] + LE(FromLE(s[1..]), |s| - 1);
      assert s == [s[0]] + s[1..];
    }
  }

  lemma {:induction false} FromBEOfBE(x: nat, n: nat)
    requires Fits(x, n)
    ensures FromBE(BE(x, n)) == x
  {
    if n > 0 {
      FromBEOfBE(x / 256, n - 1);
      assert BE(x, n)[..n - 1] == BE(x / 256, n - 1);
    }
  }

  lemma {:induction false} BEOfFromBE(s: seq<byte>)
    ensures BE(FromBE(s), |s|) == s
  {
    if |s| > 0 {
      var n := |s|;
      var b := FromBE(s[..n - 1]);
      BEOfFromBE(s[..n - 1]);
      LowByte(s[n - 1], b);
      assert FromBE(s) == s[n - 1] + 256 * b;
      assert BE(FromBE(s), n) == BE(b, n - 1) + [s[n - 1]];
      assert s == s[..n - 1] + [s[n - 1]];
    }
  }

  /** The encodings agree on the value they carry and differ in byte order only. */
  lemma {:induction false} BEIsReversedLE(x: nat, n: nat)
    ensures forall i :: 0 <= i < n ==> BE(x, n)[i] == LE(x, n)[n - 1 - i]
  {
    if n > 0 {
      BEIsReversedLE(x / 256, n - 1);
    }
  }

  /** Reads an `n`-byte little-endian unsigned integer at the head of `s`. */
  function ReadLE(s: seq<byte>, n: nat): (r: Result<(nat, seq<byte>)>)
    ensures r.Ok? <==> |s| >= n
    ensures r.Ok? ==> Fits(r.value.0, n) && LE(r.value.0, n) + r.value.1 == s
  {
    if |s| < n then Err(Truncated)
    else
      LEOfFromLE(s[..n]);
      assert s == s[..n] + s[n..];
      Ok((FromLE(s[..n]), s[n..]))
  }

  /** Reads an `n`-byte big-endian unsigned integer at the head of `s`. */
  function ReadBE(s: seq<byte>, n: nat): (r: Result<(nat, seq<byte>)>)
    ensures r.Ok? <==> |s| >= n
    ensures r.Ok? ==> Fits(r.value.0, n) && BE(r.value.0, n) + r.value.1 == s && r.value.1 == s[n..]
  {
    if |s| < n then Err(Truncated)
    else
      BEOfFromBE(s[..n]);
      assert s == s[..n] + s[n..];
      Ok((FromBE(s[..n]), s[n..]))
  }

  /** Reads exactly `n` bytes, failing when fewer remain. */
  function Take(s: seq<byte>, n: nat): (r: Result<(seq<byte>, seq<byte>)>)
    ensures r.Ok? <==> |s| >= n
    ensures r.Ok? ==> |r.value.0| == n && r.value.0 + r.value.1 == s
  {
    if |s| < n then Err(Truncated)
    else
      assert s == s[..n] + s[n..];
      Ok((s[..n], s[n..]))
  }

  /**
   * Reads a string field of length `n` the way the engine's string codec does:
   * it takes what is there when fewer than `n` bytes remain.
   */
  function TakeUpTo(s: seq<byte>, n: nat): (r: (seq<byte>, seq<byte>))
    ensures r.0 + r.1 == s
    ensures |r.0| == if n <= |s| then n else |s|
  {
    var k := if n <= |s| then n else |s|;
    assert s == s[..k] + s[k..];
    (s[..k], s[k..])
  }

  lemma ReadLEOfLE(x: nat, n: nat, rest: seq<byte>)
    requires Fits(x, n)
    ensures ReadLE(LE(x, n) + rest, n) == Ok((x, rest))
  {
    var s := LE(x, n) + rest;
    assert s[..n] == LE(x, n);
    assert s[n..] == rest;
    FromLEOfLE(x, n);
  }

  lemma ReadBEOfBE(x: nat, n: nat, rest: seq<byte>)
    requires Fits(x, n)
    ensures ReadBE(BE(x, n) + rest, n) == Ok((x, rest))
  {
    var s := BE(x, n) + rest;
    assert s[..n] == BE(x, n);
    assert s[n..] == rest;
    FromBEOfBE(x, n);
  }

  lemma TakeOfPrefix(a: seq<byte>, rest: seq<byte>)
    ensures Take(a + rest, |a|) == Ok((a, rest))
  {
    assert (a + rest)[..|a|] == a;
    assert (a + rest)[|a|..] == rest;
  }

  lemma TakeUpToOfPrefix(a: seq<byte>, rest: seq<byte>)
    ensures TakeUpTo(a + rest, |a|) == (a, rest)
  {
    assert (a + rest)[..|a|] == a;
    assert (a + rest)[|a|..] == rest;
  }

  /** Appending to a right-nested concatenation of six pieces. */
  lemma Assoc3(a: seq<byte>, b: seq<byte>, rest: seq<byte>)
    ensures (a + b) + rest == a + (b + rest)
  {
  }

  lemma Assoc6(a: seq<byte>, b: seq<byte>, c: seq<byte>, d: seq<byte>, e: seq<byte>, f: seq<byte>, rest: seq<byte>)
    ensures (a + (b + (c + (d + (e + f))))) + rest == a + (b + (c + (d + (e + (f + rest)))))
  {
    assert (e + f) + rest == e + (f + rest);
    assert (d + (e + f)) + rest == d + ((e + f) + rest);
    assert (c + (d + (e + f))) + rest == c + ((d + (e + f)) + rest);
    assert (b + (c + (d + (e + f)))) + rest == b + ((c + (d + (e + f))) + rest);
  }

  /** Appending to a right-nested concatenation of four pieces. */
  lemma Assoc4(a: seq<byte>, b: seq<byte>, c: seq<byte>, d: seq<byte>, rest: seq<byte>)
    ensures (a + (b + (c + d))) + rest == a + (b + (c + (d + rest)))
  {
    assert (c + d) + rest == c + (d + rest);
    assert (b + (c + d)) + rest == b + ((c + d) + rest);
  }

  /** Appending to a right-nested concatenation of five pieces. */
  lemma Assoc5(a: seq<byte>, b: seq<byte>, c: seq<byte>, d: seq<byte>, e: seq<byte>, rest: seq<byte>)
    ensures (a + (b + (c + (d + e)))) + rest == a + (b + (c + (d + (e + rest))))
  {
    assert (d + e) + rest == d + (e + rest);
    assert (c + (d + e)) + rest == c + ((d + e) + rest);
    assert (b + (c + (d + e))) + rest == b + ((c + (d + e)) + rest);
  }

  /** The last of six right-nested pieces starts after the other five. */
  lemma LastOfSix(a: seq<byte>, b: seq<byte>, c: seq<byte>, d: seq<byte>, e: seq<byte>, f: seq<byte>)
    ensures var s := a + (b + (c + (d + (e + f))));
      |a| + |b| + |c| + |d| + |e| <= |s| && s[|a| + |b| + |c| + |d| + |e|..] == f
  {
    var s := a + (b + (c + (d + (e + f))));
    assert s == (a + b + c + d + e) + f;
  }

  /** After a fixed prefix, a buffer, a pad and a tail are found at their offsets. */
  lemma SlicesOfLayout(pre: seq<byte>, buffer: seq<byte>, pad: seq<byte>, tail: seq<byte>)
    ensures var b := pre + (buffer + (pad + tail));
      b[|pre|..|pre| + |buffer|] == buffer && b[|pre| + |buffer| + |pad|..] == tail
  {
  }

  // ---- runs of integer fields -------------------------------------------

  /** Total size in bytes of a run of fields. */
  function Total(ws: seq<nat>): nat {
    if |ws| == 0 then 0 else ws[0] + Total(ws[1..])
  }

  /** Each value fits the width of its field. */
  predicate AllFit(vs: seq<nat>, ws: seq<nat>) {
    |vs| == |ws| && forall i :: 0 <= i < |ws| ==> Fits(vs[i], ws[i])
  }

  /** A run of little-endian integer fields, `ws[i]` bytes each. */
  function WriteInts(vs: seq<nat>, ws: seq<nat>): (r: seq<byte>)
    requires |vs| == |ws|
    ensures |r| == Total(ws)
  {
    if |ws| == 0 then [] else LE(vs[0], ws[0]) + WriteInts(vs[1..], ws[1..])
  }

  lemma IntsCons(x: nat, w: nat, vs: seq<nat>, ws: seq<nat>)
    requires |vs| == |ws|
    ensures WriteInts([x] + vs, [w] + ws) == LE(x, w) + WriteInts(vs, ws)
    ensures AllFit([x] + vs, [w] + ws) <==> Fits(x, w) && AllFit(vs, ws)
  {
    assert ([x] + vs)[1..] == vs && ([w] + ws)[1..] == ws;
    FitsCons(x, w, vs, ws);
  }

  lemma FitsCons(x: nat, w: nat, vs: seq<nat>, ws: seq<nat>)
    requires |vs| == |ws|
    ensures AllFit([x] + vs, [w] + ws) <==> Fits(x, w) && AllFit(vs, ws)
  {
    var xs, ys := [x] + vs, [w] + ws;
    assert xs[0] == x && ys[0] == w;
    if AllFit(xs, ys) {
      forall i | 0 <= i < |ws|
        ensures Fits(vs[i], ws[i])
      {
        assert xs[i + 1] == vs[i] && ys[i + 1] == ws[i];
      }
    }
    if Fits(x, w) && AllFit(vs, ws) {
      forall i | 0 <= i < |ys|
        ensures Fits(xs[i], ys[i])
      {
        if i > 0 {
          assert xs[i] == vs[i - 1] && ys[i] == ws[i - 1];
        }
      }
      assert AllFit(xs, ys);
    }
  }

  /** Reads a run of little-endian integer fields. */
  function ReadInts(s: seq<byte>, ws: seq<nat>): (r: Result<(seq<nat>, seq<byte>)>)
    ensures r.Ok? <==> |s| >= Total(ws)
    ensures r.Ok? ==> AllFit(r.value.0, ws) && WriteInts(r.value.0, ws) + r.value.1 == s
  {
    if |ws| == 0 then Ok(([], s))
    else if |s| < ws[0] then Err(Truncated)
    else
      assert |s[ws[0]..]| == |s| - ws[0] && Total(ws) == ws[0] + Total(ws[1..]);
      match ReadInts(s[ws[0]..], ws[1..])
      case Err(e) => Err(e)
      case Ok(more) =>
        var x := FromLE(s[..ws[0]]);
        assert ws == [ws[0]] + ws[1..];
        ReadIntsStep(s, ws[0], ws[1..], more.0, more.1);
        Ok(([x] + more.0, more.1))
  }

  /** One field read in front of a run read from the rest. */
  lemma ReadIntsStep(s: seq<byte>, w: nat, ws: seq<nat>, vs: seq<nat>, rest: seq<byte>)
    requires w <= |s| && AllFit(vs, ws) && WriteInts(vs, ws) + rest == s[w..]
    ensures AllFit([FromLE(s[..w])] + vs, [w] + ws)
    ensures WriteInts([FromLE(s[..w])] + vs, [w] + ws) + rest == s
  {
    var x := FromLE(s[..w]);
    LEOfFromLE(s[..w]);
    IntsCons(x, w, vs, ws);
    calc {
      WriteInts([x] + vs, [w] + ws) + rest;
      (LE(x, w) + WriteInts(vs, ws)) + rest;
      LE(x, w) + (WriteInts(vs, ws) + rest);
      s[..w] + s[w..];
      s;
    }
  }

  lemma {:induction false} ReadIntsOfWrite(vs: seq<nat>, ws: seq<nat>, rest: seq<byte>)
    requires AllFit(vs, ws)
    ensures ReadInts(WriteInts(vs, ws) + rest, ws) == Ok((vs, rest))
  {
    if |ws| > 0 {
      var s := WriteInts(vs, ws) + rest;
      var tail := WriteInts(vs[1..], ws[1..]) + rest;
      assert vs == [vs[0]] + vs[1..] && ws == [ws[0]] + ws[1..];
      IntsCons(vs[0], ws[0], vs[1..], ws[1..]);
      assert s == LE(vs[0], ws[0]) + tail;
      assert s[..ws[0]] == LE(vs[0], ws[0]) && s[ws[0]..] == tail;
      FromLEOfLE(vs[0], ws[0]);
      ReadIntsOfWrite(vs[1..], ws[1..], rest);
    } else {
      assert WriteInts(vs, ws) + rest == rest;
    }
  }

  /**
   * Ruby's `str[start, length]`: a negative start counts from the end, a start
   * past the end or a negative length gives nil, and the slice stops at the end
   * of the string.
   */
  function RubySlice(s: seq<byte>, start: int, length: int): (r: Option<seq<byte>>)
    ensures r.Some? <==> 0 <= length && -|s| <= start <= |s|
    ensures r.Some? ==>
      var from := if start < 0 then start + |s| else start;
      |r.value| == (if from + length <= |s| then length else |s| - from) &&
      forall i :: 0 <= i < |r.value| ==> r.value[i] == s[from + i]
  {
    if length < 0 then None
    else
      var from := if start < 0 then start + |s| else start;
      if from < 0 || from > |s| then None
      else
        var to := if from + length <= |s| then from + length else |s|;
        Some(s[from..to])
  }

  lemma RubySliceOfConcat(a: seq<byte>, b: seq<byte>, c: seq<byte>)
    ensures RubySlice(a + b + c, |a|, |b|) == Some(b)
  {
    assert (a + b + c)[|a|..|a| + |b|] == b;
  }


  // ---- text split at a separator --------------------------------------

  /** Text before the first occurrence of `c` (the whole text when absent). */
  function Before(s: seq<byte>, c: byte): (r: seq<byte>)
    ensures c !in r
    ensures |r| <= |s| && r == s[..|r|]
    ensures |r| == |s| || s[|r|] == c
  {
    if |s| == 0 || s[0] == c then []
    else
      var t := Before(s[1..], c);
      assert s[..|t| + 1] == [s[0]] + s[1..][..|t|];
      [s[0]] + t
  }

  lemma BeforeAbsent(s: seq<byte>, c: byte)
    requires c !in s
    ensures Before(s, c) == s
  {
    assert forall i :: 0 <= i < |s| ==> s[i] != c;
  }

  /** Text after the first occurrence of `c` (empty when absent). */
  function After(s: seq<byte>, c: byte): (r: seq<byte>)
    ensures c in s ==> s == Before(s, c) + [c] + r
    ensures c !in s ==> r == []
  {
    var b := Before(s, c);
    if |b| == |s| then [] else
      assert s == b + [c] + s[|b| + 1..];
      s[|b| + 1..]
  }

  lemma BeforeAfterOfJoin(a: seq<byte>, c: byte, b: seq<byte>)
    requires c !in a
    ensures Before(a + [c] + b, c) == a
    ensures After(a + [c] + b, c) == b
  {
    var s := a + [c] + b;
    var r := Before(s, c);
    assert forall i :: 0 <= i < |a| ==> s[i] == a[i] && a[i] != c;
    assert s[|a|] == c;
    assert forall i :: 0 <= i < |r| ==> r[i] != c;
    assert |r| == |a|;
    assert s[|a| + 1..] == b;
  }
}
