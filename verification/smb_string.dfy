/**
 * SMB strings: UTF-16LE text held as its bytes. Reading a binary input first
 * cuts it at the last even-aligned pair of zero bytes, then reinterprets it as
 * UTF-16LE; text in any other encoding is re-encoded to UTF-16LE; a static
 * length keeps at most half that many characters, a surrogate pair counting
 * as one; the result stops before the first NUL code unit.
 */
module SmbString {
  import opened Bytes

  /**
   * Where a read input comes from: raw bytes, a string already in UTF-16LE,
   * or text in another encoding (UTF-8, US-ASCII, ...) given by its characters.
   */
  datatype Input = Binary(bytes: seq<byte>) | Utf16(bytes: seq<byte>) | Text(chars: string)

  /** A NUL code unit starts at byte `i`: an even offset with two zero bytes. */
  predicate NulAt(s: seq<byte>, i: nat) {
    i % 2 == 0 && i + 1 < |s| && s[i] == 0 && s[i + 1] == 0
  }

  /** No NUL code unit in `s`. */
  predicate NulFree(s: seq<byte>) {
    forall i :: 0 <= i < |s| ==> !NulAt(s, i)
  }

  /**
   * The loop over `0.step(to: str.size, by: 2)`: `found` is the last offset
   * so far whose two bytes are zero.
   */
  function ScanNul(s: seq<byte>, i: nat, found: Option<nat>): (r: Option<nat>)
    requires i % 2 == 0
    requires found.Some? ==> NulAt(s, found.value) && found.value < i
    ensures r.Some? ==> NulAt(s, r.value)
    ensures r.None? ==> found.None? && forall j :: i <= j < |s| ==> !NulAt(s, j)
    decreases |s| + 2 - i
  {
    if i > |s| then found
    else
      var f := if i + 1 < |s| && s[i] == 0 && s[i + 1] == 0 then Some(i) else found;
      ScanNul(s, i + 2, f)
  }

  /** Offset of the first NUL code unit, if there is one. */
  function FirstNul(s: seq<byte>, i: nat): (r: Option<nat>)
    requires i % 2 == 0
    ensures r.Some? ==> NulAt(s, r.value) && i <= r.value && forall j :: i <= j < r.value ==> !NulAt(s, j)
    ensures r.None? ==> forall j :: i <= j < |s| ==> !NulAt(s, j)
    decreases |s| + 2 - i
  {
    if i + 1 >= |s| then None
    else if s[i] == 0 && s[i + 1] == 0 then Some(i)
    else FirstNul(s, i + 2)
  }

  /** High and low bytes of the two halves of a UTF-16 surrogate pair. */
  predicate IsHighSurrogate(b: byte) { 0xd8 <= b <= 0xdb }
  predicate IsLowSurrogate(b: byte) { 0xdc <= b <= 0xdf }

  /**
   * Bytes of the UTF-16LE character at offset `i`, as Ruby steps over it:
   * four for a high surrogate followed by a low one, one for a lone last
   * byte, two for anything else, a lone surrogate included.
   */
  function CharWidth(s: seq<byte>, i: nat): (r: nat)
    requires i < |s|
    ensures r == 1 || r == 2 || r == 4
    ensures i + r <= |s|
    ensures r == 1 <==> i + 1 == |s|
    ensures r == 4 <==> i + 4 <= |s| && IsHighSurrogate(s[i + 1]) && IsLowSurrogate(s[i + 3])
  {
    if i + 1 == |s| then 1
    else if i + 4 <= |s| && IsHighSurrogate(s[i + 1]) && IsLowSurrogate(s[i + 3]) then 4
    else 2
  }

  /** Offset just past the first `n` characters from offset `i`, or the end of `s`. */
  function CharsEnd(s: seq<byte>, i: nat, n: nat): (r: nat)
    requires i <= |s|
    ensures i <= r <= |s|
    decreases n
  {
    if n == 0 || i == |s| then i else CharsEnd(s, i + CharWidth(s, i), n - 1)
  }

  /** `n` characters take two to four bytes each, unless the bytes run out. */
  lemma {:induction false} CharsEndBounds(s: seq<byte>, i: nat, n: nat)
    requires i <= |s|
    ensures CharsEnd(s, i, n) <= i + 4 * n
    ensures CharsEnd(s, i, n) == |s| || i + 2 * n <= CharsEnd(s, i, n)
    decreases n
  {
    if n > 0 && i < |s| {
      CharsEndBounds(s, i + CharWidth(s, i), n - 1);
    }
  }

  /** One step of `CharsEnd`: the character at `i`, then `n - 1` more. */
  lemma CharsEndStep(s: seq<byte>, i: nat, n: nat)
    requires i < |s| && n > 0
    ensures CharsEnd(s, i, n) == CharsEnd(s, i + CharWidth(s, i), n - 1)
  {
  }

  /** From an even offset, characters end at even offsets, unless at a lone last byte. */
  lemma {:induction false} CharsEndEven(s: seq<byte>, i: nat, n: nat)
    requires i <= |s| && i % 2 == 0
    ensures CharsEnd(s, i, n) % 2 == 0 || CharsEnd(s, i, n) == |s|
    decreases n
  {
    if n > 0 && i < |s| {
      var w := CharWidth(s, i);
      if w == 1 {
        assert CharsEnd(s, i + w, n - 1) == |s|;
      } else {
        CharsEndEven(s, i + w, n - 1);
      }
    }
  }

  /**
   * `str[0, n]` on a UTF-16LE string: the bytes of its first `n` characters.
   * A character is two bytes, or four for a surrogate pair.
   */
  function TakeChars(s: seq<byte>, n: nat): (r: seq<byte>)
    ensures |r| <= |s| && r == s[..|r|]
    ensures |r| <= 4 * n
    ensures |r| == |s| || 2 * n <= |r|
    ensures |r| % 2 == 0 || |r| == |s|
  {
    CharsEndEven(s, 0, n);
    CharsEndBounds(s, 0, n);
    s[..CharsEnd(s, 0, n)]
  }

  /** No code unit of `s` has a high-surrogate byte: text within the Basic Multilingual Plane. */
  predicate Bmp(s: seq<byte>) {
    forall j :: 0 <= j < |s| && 2 * j + 1 < |s| ==> !IsHighSurrogate(s[2 * j + 1])
  }

  /** Without surrogate pairs, every character from an even offset is two bytes. */
  lemma {:induction false} CharsEndOfBmp(s: seq<byte>, j: nat, n: nat)
    requires Bmp(s) && 2 * j <= |s|
    ensures CharsEnd(s, 2 * j, n) == if 2 * j + 2 * n <= |s| then 2 * j + 2 * n else |s|
    decreases n
  {
    if n > 0 && 2 * j < |s| {
      if 2 * j + 1 == |s| {
        assert CharsEnd(s, |s|, n - 1) == |s|;
      } else {
        assert !IsHighSurrogate(s[2 * j + 1]);
        CharsEndOfBmp(s, j + 1, n - 1);
      }
    }
  }

  /** Without surrogate pairs, `n` characters are the first `2n` bytes. */
  lemma TakeCharsOfBmp(s: seq<byte>, n: nat)
    requires Bmp(s)
    ensures TakeChars(s, n) == s[..if 2 * n <= |s| then 2 * n else |s|]
  {
    CharsEndOfBmp(s, 0, n);
  }

  /** U+1F600 then 'A', cut to one character, keeps the whole surrogate pair. */
  lemma TakeCharsPair()
    ensures TakeChars([0x3d, 0xd8, 0x00, 0xde, 0x41, 0x00], 1) == [0x3d, 0xd8, 0x00, 0xde]
  {
    var s: seq<byte> := [0x3d, 0xd8, 0x00, 0xde, 0x41, 0x00];
    assert CharWidth(s, 0) == 4;
    assert CharsEnd(s, 4, 0) == 4;
  }

  /** The code unit held by two little-endian bytes. */
  function Unit(lo: byte, hi: byte): nat {
    lo + 256 * hi
  }

  /**
   * The UTF-16LE bytes of one character: one code unit below U+10000, a high
   * and a low surrogate above.
   */
  function EncodeChar(c: char): (r: seq<byte>)
    ensures |r| == 2 || |r| == 4
    ensures |r| == 2 <==> (c as int) < 0x10000
    ensures |r| == 2 ==> !IsHighSurrogate(r[1]) && !IsLowSurrogate(r[1])
    ensures |r| == 4 ==> IsHighSurrogate(r[1]) && IsLowSurrogate(r[3])
  {
    var v := c as int;
    if v < 0x10000 then [v % 256, v / 256]
    else
      var u := v - 0x10000;
      var hi, lo := 0xd800 + u / 0x400, 0xdc00 + u % 0x400;
      [hi % 256, hi / 256, lo % 256, lo / 256]
  }

  /** The character a UTF-16LE unit or surrogate pair stands for. */
  function DecodeChar(r: seq<byte>): int
    requires |r| == 2 || |r| == 4
  {
    if |r| == 2 then Unit(r[0], r[1])
    else 0x10000 + (Unit(r[0], r[1]) - 0xd800) * 0x400 + (Unit(r[2], r[3]) - 0xdc00)
  }

  /** Every character decodes back from its encoding. */
  lemma DecodeEncodeChar(c: char)
    ensures DecodeChar(EncodeChar(c)) == c as int
  {
  }

  /** `str.encode('UTF-16LE')`: the characters' code units, in order. */
  function Encode(t: string): (r: seq<byte>)
    ensures 2 * |t| <= |r| <= 4 * |t|
  {
    if t == [] then [] else EncodeChar(t[0]) + Encode(t[1..])
  }

  /** Encoded text is whole code units. */
  lemma {:induction false} EncodeEven(t: string)
    ensures |Encode(t)| % 2 == 0
  {
    if t != [] {
      EncodeEven(t[1..]);
      var a, b := |EncodeChar(t[0])|, |Encode(t[1..])|;
      assert |Encode(t)| == a + b;
      EvenSum(a, b);
    }
  }

  /** A character's code units plus whole code units are whole code units. */
  lemma EvenSum(a: int, b: int)
    requires (a == 2 || a == 4) && b % 2 == 0
    ensures (a + b) % 2 == 0
  {
  }

  /** Encoding distributes over concatenation. */
  lemma {:induction false} EncodeAppend(a: string, b: string)
    ensures Encode(a + b) == Encode(a) + Encode(b)
  {
    if a == [] {
      assert a + b == b;
    } else {
      assert (a + b)[1..] == a[1..] + b;
      EncodeAppend(a[1..], b);
    }
  }

  /** Text without a NUL character encodes to bytes without a NUL code unit. */
  lemma {:induction false} NulFreeEncode(t: string)
    requires '\0' !in t
    ensures NulFree(Encode(t))
  {
    if t != [] {
      var e, s' := EncodeChar(t[0]), Encode(t[1..]);
      assert t[0] in t;
      NulFreeEncode(t[1..]);
      var s := e + s';
      forall i | 0 <= i < |s|
        ensures !NulAt(s, i)
      {
        if i >= |e| {
          NulAtShift(e, s', i);
        } else {
          NulAtEncodeChar(t[0], s', i);
        }
      }
    }
  }

  /** NUL code units past an even-length head are those of the tail. */
  lemma NulAtShift(x: seq<byte>, y: seq<byte>, i: nat)
    requires |x| % 2 == 0 && |x| <= i
    ensures NulAt(x + y, i) == NulAt(y, i - |x|)
  {
  }

  /** A character other than NUL encodes to no NUL code unit, whatever follows. */
  lemma NulAtEncodeChar(c: char, y: seq<byte>, i: nat)
    requires c != '\0' && i < |EncodeChar(c)|
    ensures !NulAt(EncodeChar(c) + y, i)
  {
    var e := EncodeChar(c);
    DecodeEncodeChar(c);
    assert (e + y)[..|e|] == e;
  }

  /** Ruby steps over an encoded character as one character, whatever surrounds it. */
  lemma CharWidthOfEncode(x: seq<byte>, c: char, rest: seq<byte>)
    ensures CharWidth(x + EncodeChar(c) + rest, |x|) == |EncodeChar(c)|
  {
    var e := EncodeChar(c);
    var s := x + e + rest;
    assert s[|x| + 1] == e[1];
    if |e| == 4 {
      assert s[|x| + 3] == e[3];
    }
  }

  /** Encoded text is the encoding of its first `j` characters, then character `j`'s, then the rest's. */
  lemma EncodeAt(t: string, j: nat)
    requires j < |t|
    ensures Encode(t) == Encode(t[..j]) + EncodeChar(t[j]) + Encode(t[j + 1..])
    ensures Encode(t[..j + 1]) == Encode(t[..j]) + EncodeChar(t[j])
  {
    EncodeSplit(t, j);
    assert t[j..][0] == t[j];
    assert t[j..][1..] == t[j + 1..];
    assert Encode(t[j..]) == EncodeChar(t[j]) + Encode(t[j + 1..]);
    assert Encode(t) == Encode(t[..j]) + (EncodeChar(t[j]) + Encode(t[j + 1..]));
    AppendAssoc(Encode(t[..j]), EncodeChar(t[j]), Encode(t[j + 1..]));
    EncodeSplit(t[..j + 1], j);
    assert t[..j + 1][..j] == t[..j];
    assert t[..j + 1][j..] == [t[j]];
    assert Encode([t[j]]) == EncodeChar(t[j]);
  }

  lemma AppendAssoc<T>(a: seq<T>, b: seq<T>, c: seq<T>)
    ensures a + (b + c) == a + b + c
  {
  }

  /** Character `j` of encoded text starts where the first `j` characters' encoding ends. */
  lemma CharWidthAt(t: string, j: nat)
    requires j < |t|
    ensures |Encode(t[..j])| < |Encode(t)|
    ensures CharWidth(Encode(t), |Encode(t[..j])|) == |EncodeChar(t[j])|
    ensures |Encode(t[..j + 1])| == |Encode(t[..j])| + |EncodeChar(t[j])|
  {
    EncodeAt(t, j);
    CharWidthOfEncode(Encode(t[..j]), t[j], Encode(t[j + 1..]));
  }

  /**
   * `o` lists the offsets where the characters of `s` start, ending at `|s|`:
   * from each offset, one character reaches the next.
   */
  predicate StepsAlong(s: seq<byte>, o: seq<nat>) {
    0 < |o| && o[|o| - 1] == |s| && forall k :: 0 <= k < |o| - 1 ==> StepsAt(s, o, k)
  }

  /** One character from offset number `k` reaches offset number `k + 1`. */
  predicate StepsAt(s: seq<byte>, o: seq<nat>, k: nat)
    requires k + 1 < |o|
  {
    o[k] < |s| && o[k] + CharWidth(s, o[k]) == o[k + 1]
  }

  /** Along such offsets, `n` characters from offset number `j` reach offset number `j + n`. */
  lemma {:induction false} CharsEndAlong(s: seq<byte>, o: seq<nat>, j: nat, n: nat)
    requires StepsAlong(s, o) && j < |o|
    ensures o[j] <= |s|
    ensures CharsEnd(s, o[j], n) == o[if j + n < |o| then j + n else |o| - 1]
    decreases n
  {
    if j == |o| - 1 {
      assert o[j] == |s|;
    } else {
      assert StepsAt(s, o, j);
      if n > 0 {
        CharsEndAlong(s, o, j + 1, n - 1);
        assert j + 1 + (n - 1) == j + n;
      }
    }
  }

  /** The offsets of the characters of `Encode(t)`: where each prefix's encoding ends. */
  function Offsets(t: string): (r: seq<nat>)
    ensures |r| == |t| + 1
    ensures forall k :: 0 <= k <= |t| ==> r[k] == |Encode(t[..k])|
  {
    seq(|t| + 1, k requires 0 <= k <= |t| => |Encode(t[..k])|)
  }

  /** Ruby's character stepping over `Encode(t)` visits exactly the characters' offsets. */
  lemma StepsAlongEncode(t: string)
    ensures StepsAlong(Encode(t), Offsets(t))
  {
    var o := Offsets(t);
    assert t[..|t|] == t;
    forall k | 0 <= k < |o| - 1
      ensures StepsAt(Encode(t), o, k)
    {
      CharWidthAt(t, k);
    }
  }

  /** The first `n` characters of encoded text are the encoding of its first `n` characters. */
  lemma TakeCharsOfEncode(t: string, n: nat)
    ensures TakeChars(Encode(t), n) == Encode(t[..if n <= |t| then n else |t|])
  {
    var k := if n <= |t| then n else |t|;
    StepsAlongEncode(t);
    CharsEndAlong(Encode(t), Offsets(t), 0, n);
    assert t[..0] == [];
    EncodeSplit(t, k);
  }

  /** Encoded text is the encoding of a prefix followed by that of the rest. */
  lemma EncodeSplit(t: string, k: nat)
    requires k <= |t|
    ensures Encode(t) == Encode(t[..k]) + Encode(t[k..])
  {
    assert t == t[..k] + t[k..];
    EncodeAppend(t[..k], t[k..]);
  }

  /** A character below U+0100 encodes as its own byte followed by a zero byte. */
  lemma EncodeCharOfLatin1(c: char)
    requires (c as int) < 0x100
    ensures EncodeChar(c) == [c as int, 0]
  {
  }

  /** Characters below U+0100 encode each as its own byte followed by a zero byte. */
  lemma {:induction false} EncodeOfLatin1(t: string)
    requires forall i :: 0 <= i < |t| ==> (t[i] as int) < 0x100
    ensures |Encode(t)| == 2 * |t|
    ensures forall i :: 0 <= i < |t| ==> Encode(t)[2 * i] == t[i] as int && Encode(t)[2 * i + 1] == 0
  {
    if t != [] {
      var e, rest := EncodeChar(t[0]), Encode(t[1..]);
      EncodeOfLatin1(t[1..]);
      assert Encode(t) == e + rest;
      EncodeCharOfLatin1(t[0]);
      forall i | 0 < i < |t|
        ensures Encode(t)[2 * i] == t[i] as int && Encode(t)[2 * i + 1] == 0
      {
        assert t[1..][i - 1] == t[i];
        assert Encode(t)[2 * i] == rest[2 * (i - 1)] && Encode(t)[2 * i + 1] == rest[2 * (i - 1) + 1];
      }
    }
  }

  /** Text up to its first NUL character. */
  function BeforeNul(t: string): (r: string)
    ensures |r| <= |t| && r == t[..|r|] && '\0' !in r
    ensures |r| == |t| || t[|r|] == '\0'
  {
    if t == [] || t[0] == '\0' then []
    else
      var r' := BeforeNul(t[1..]);
      assert [t[0]] + r' == t[..|r'| + 1];
      [t[0]] + r'
  }

  /** Cuts `s` before its first NUL code unit. */
  function CutAtNul(s: seq<byte>): (r: seq<byte>)
    ensures |r| <= |s| && r == s[..|r|] && NulFree(r)
    ensures |r| == |s| || NulAt(s, |r|)
  {
    match FirstNul(s, 0)
    case None => s
    case Some(k) =>
      assert forall j :: 0 <= j < |s[..k]| ==> (NulAt(s[..k], j) ==> NulAt(s, j));
      s[..k]
  }

  /** The NUL-free prefix that ends at a NUL code unit, or is everything, is the cut. */
  lemma CutAtNulUnique(s: seq<byte>, p: seq<byte>)
    requires |p| <= |s| && p == s[..|p|] && NulFree(p)
    requires |p| == |s| || NulAt(s, |p|)
    ensures CutAtNul(s) == p
  {
    var r := CutAtNul(s);
    var m: nat, m': nat := if |r| < |p| then |r| else 0, if |p| < |r| then |p| else 0;
    assert 0 < |p| ==> !NulAt(p, m);
    assert 0 < |r| ==> !NulAt(r, m');
  }

  /** Text starting with a NUL character puts a NUL code unit right after what precedes it. */
  lemma {:induction false} NulAtJoin(x: seq<byte>, y: string)
    requires |x| % 2 == 0 && y != [] && y[0] == '\0'
    ensures NulAt(x + Encode(y), |x|)
  {
    EncodeNulHead(y);
    NulAtShift(x, Encode(y), |x|);
  }

  /** Text starting with a NUL character encodes to bytes starting with a NUL code unit. */
  lemma {:induction false} EncodeNulHead(y: string)
    requires y != [] && y[0] == '\0'
    ensures |Encode(y)| > 1 && Encode(y)[0] == 0 && Encode(y)[1] == 0
  {
    assert EncodeChar('\0') == [0, 0];
    assert Encode(y) == EncodeChar(y[0]) + Encode(y[1..]);
  }

  /** Encoded text is cut at the encoding of its first NUL character. */
  lemma CutOfEncode(t: string)
    ensures CutAtNul(Encode(t)) == Encode(BeforeNul(t))
  {
    var b := BeforeNul(t);
    var tail := t[|b|..];
    assert t == b + tail;
    EncodeAppend(b, tail);
    NulFreeEncode(b);
    if tail != [] {
      assert tail[0] == '\0';
      EncodeEven(b);
      NulAtJoin(Encode(b), tail);
    }
    CutAtNulUnique(Encode(t), Encode(b));
  }

  /** The input's bytes in UTF-16LE order: as given, or the text encoded. */
  function Content(input: Input): seq<byte> {
    match input
    case Binary(b) => b
    case Utf16(b) => b
    case Text(t) => Encode(t)
  }

  /**
   * The first step of `read`: a binary input is cut at its last NUL code
   * unit, a UTF-16LE one kept, other text encoded to UTF-16LE.
   */
  function Reinterpret(input: Input): (r: seq<byte>)
    ensures |r| <= |Content(input)| && r == Content(input)[..|r|]
    ensures input.Binary? && |r| < |input.bytes| ==> NulAt(input.bytes, |r|)
    ensures !input.Binary? ==> r == Content(input)
  {
    match input
    case Utf16(b) => b
    case Text(t) => Encode(t)
    case Binary(b) =>
      match ScanNul(b, 0, None)
      case None => b
      case Some(k) => b[..k]
  }

  /**
   * `read`: a nil input leaves the string as it is; otherwise the input is
   * reinterpreted, cut to the static length and cut before its first NUL
   * code unit.
   */
  function Read(current: seq<byte>, input: Option<Input>, staticLength: Option<nat>): (r: seq<byte>)
    ensures input.None? ==> r == current
    ensures input.Some? ==> |r| <= |Content(input.value)| && r == Content(input.value)[..|r|] && NulFree(r)
    ensures input.Some? && staticLength.Some? ==> |r| <= 4 * (staticLength.value / 2)
  {
    match input
    case None => current
    case Some(i) =>
      var s := Reinterpret(i);
      var s2 := if staticLength.Some? then TakeChars(s, staticLength.value / 2) else s;
      CutAtNul(s2)
  }

  /**
   * Reference meaning of `read`: the longest prefix of the input, within the
   * static length, that holds no NUL code unit.
   */
  function Expected(b: seq<byte>, staticLength: Option<nat>): seq<byte> {
    CutAtNul(if staticLength.Some? then TakeChars(b, staticLength.value / 2) else b)
  }

  /** Length `read` keeps: up to the first NUL code unit from offset `i`, or everything. */
  function CutLength(s: seq<byte>, i: nat): nat
    requires i % 2 == 0
  {
    match FirstNul(s, i)
    case None => |s|
    case Some(k) => k
  }

  /** A prefix of `s` that ends at a NUL code unit of `s`, or is all of it, is kept to the same length. */
  lemma {:induction false} CutLengthOfPrefix(s: seq<byte>, n: nat, i: nat)
    requires n <= |s| && (n == |s| || NulAt(s, n))
    requires i % 2 == 0 && i <= n
    ensures CutLength(s[..n], i) == CutLength(s, i)
    decreases n - i
  {
    var p := s[..n];
    if i + 1 < n {
      assert p[i] == s[i] && p[i + 1] == s[i + 1];
      if !(s[i] == 0 && s[i + 1] == 0) {
        CutLengthOfPrefix(s, n, i + 2);
      }
    }
  }

  /** Cutting a prefix that ends at a NUL code unit of `s` gives what cutting `s` gives. */
  lemma CutOfPrefix(s: seq<byte>, n: nat)
    requires n <= |s| && (n == |s| || NulAt(s, n))
    ensures CutAtNul(s[..n]) == CutAtNul(s)
  {
    CutLengthOfPrefix(s, n, 0);
  }

  /** Before a NUL code unit, a prefix ending there has the characters of the whole. */
  lemma WidthOfPrefix(s: seq<byte>, n: nat, i: nat)
    requires NulAt(s, n) && i < n && i % 2 == 0
    ensures CharWidth(s[..n], i) == CharWidth(s, i) && i + CharWidth(s, i) <= n
  {
    var p := s[..n];
    if i + 4 <= n {
      assert p[i + 1] == s[i + 1] && p[i + 3] == s[i + 3];
    } else {
      assert s[i + 3] == s[n + 1];
    }
  }

  /** At every even offset of `p`, a character is as wide in `p` as in `s` and ends within `p`. */
  predicate WidthsAgree(p: seq<byte>, s: seq<byte>)
    requires |p| <= |s|
  {
    forall i :: 0 <= i < |p| && i % 2 == 0 ==> WidthAgreesAt(p, s, i)
  }

  /** The character at offset `i` is as wide in `p` as in `s` and ends within `p`. */
  predicate WidthAgreesAt(p: seq<byte>, s: seq<byte>, i: nat)
    requires i < |p| <= |s|
  {
    CharWidth(p, i) == CharWidth(s, i) && i + CharWidth(s, i) <= |p|
  }

  /** Where widths agree, Ruby counts characters alike in `p` and in `s` until `p` runs out. */
  lemma {:induction false} CharsEndAgree(p: seq<byte>, s: seq<byte>, i: nat, k: nat)
    requires |p| <= |s| && WidthsAgree(p, s)
    requires i <= |p| && (i % 2 == 0 || i == |p|)
    ensures CharsEnd(p, i, k) == if CharsEnd(s, i, k) <= |p| then CharsEnd(s, i, k) else |p|
    decreases k
  {
    if k > 0 && i < |p| {
      var w := CharWidth(s, i);
      assert WidthAgreesAt(p, s, i);
      if w != 1 {
        EvenSum(w, i);
      }
      CharsEndAgree(p, s, i + w, k - 1);
    }
  }

  /** Ruby counts characters alike in `s` and in its prefix ending at a NUL code unit. */
  lemma CharsEndOfPrefix(s: seq<byte>, n: nat, k: nat)
    requires NulAt(s, n)
    ensures CharsEnd(s[..n], 0, k) == if CharsEnd(s, 0, k) <= n then CharsEnd(s, 0, k) else n
  {
    forall i | 0 <= i < n && i % 2 == 0
      ensures WidthAgreesAt(s[..n], s, i)
    {
      WidthOfPrefix(s, n, i);
    }
    CharsEndAgree(s[..n], s, 0, k);
  }

  /**
   * Ruby steps over the characters of a prefix that ends at a NUL code unit
   * as over those of the whole: the prefix keeps the same characters, or all
   * of itself when it runs out first.
   */
  lemma TakeCharsOfPrefix(s: seq<byte>, n: nat, k: nat)
    requires n <= |s| && NulAt(s, n)
    ensures var t := TakeChars(s, k);
      TakeChars(s[..n], k) == if |t| <= n then t else s[..n]
  {
    CharsEndOfPrefix(s, n, k);
    var e := CharsEnd(s, 0, k);
    if e <= n {
      assert s[..n][..e] == s[..e];
    } else {
      assert s[..n][..n] == s[..n];
    }
  }

  /** A longer prefix, past a NUL code unit, cuts where the shorter one ending there does. */
  lemma CutOfLongerPrefix(s: seq<byte>, n: nat, t: seq<byte>)
    requires n <= |s| && NulAt(s, n)
    requires n < |t| <= |s| && t == s[..|t|] && (|t| % 2 == 0 || |t| == |s|)
    ensures CutAtNul(s[..n]) == CutAtNul(t)
  {
    assert t[..n] == s[..n];
    assert t[n] == s[n] && t[n + 1] == s[n + 1];
    CutOfPrefix(t, n);
  }

  /** Cutting at a NUL code unit, then to `k` characters, then at the first NUL, cuts at the first NUL. */
  lemma CutCharsOfPrefix(s: seq<byte>, n: nat, k: nat)
    requires n <= |s| && (n == |s| || NulAt(s, n))
    ensures CutAtNul(TakeChars(s[..n], k)) == CutAtNul(TakeChars(s, k))
  {
    if n == |s| {
      assert s[..n] == s;
    } else {
      TakeCharsOfPrefix(s, n, k);
      var t := TakeChars(s, k);
      if |t| > n {
        CutOfLongerPrefix(s, n, t);
      }
    }
  }

  /** The binary branch and the UTF-16LE branch read the same bytes the same way. */
  lemma BinaryIsUtf16(b: seq<byte>, staticLength: Option<nat>)
    ensures Read([], Some(Binary(b)), staticLength) == Read([], Some(Utf16(b)), staticLength)
    ensures Read([], Some(Utf16(b)), staticLength) == Expected(b, staticLength)
  {
    var s := Reinterpret(Binary(b));
    if staticLength.Some? {
      CutCharsOfPrefix(b, |s|, staticLength.value / 2);
    } else {
      CutOfPrefix(b, |s|);
    }
  }

  /**
   * Text read as UTF-16LE: its first characters within the static length, up
   * to its first NUL character, encoded.
   */
  lemma ReadText(t: string, staticLength: Option<nat>)
    ensures var k := if staticLength.Some? && staticLength.value / 2 <= |t| then staticLength.value / 2 else |t|;
      Read([], Some(Text(t)), staticLength) == Encode(BeforeNul(t[..k]))
  {
    if staticLength.Some? {
      TakeCharsOfEncode(t, staticLength.value / 2);
      var k := if staticLength.value / 2 <= |t| then staticLength.value / 2 else |t|;
      CutOfEncode(t[..k]);
    } else {
      assert t[..|t|] == t;
      CutOfEncode(t);
    }
  }

  /** Text without a NUL character reads as its whole encoding. */
  lemma ReadNulFreeText(t: string)
    requires '\0' !in t
    ensures Read([], Some(Text(t)), None) == Encode(t)
  {
    ReadText(t, None);
    assert t[..|t|] == t;
  }

  /**
   * Bytes without NUL code unit read back from the bytes followed by a NUL
   * terminator, whatever follows it.
   */
  lemma ReadTerminated(u: seq<byte>, rest: seq<byte>)
    requires |u| % 2 == 0 && NulFree(u)
    ensures Read([], Some(Binary(u + [0, 0] + rest)), None) == u
  {
    var s := u + [0, 0] + rest;
    BinaryIsUtf16(s, None);
    assert NulAt(s, |u|);
    assert s[..|u|] == u;
    CutOfPrefix(s, |u|);
  }

  // ---- as a field of a record ------------------------------------------------

  /** `to_s`: the code units followed by a NUL code unit. */
  function Wire(v: seq<byte>): (w: seq<byte>)
    ensures |w| == |v| + 2
  {
    v + [0, 0]
  }

  /** A string a field can hold and write back: whole code units, none of them NUL. */
  predicate Valid(v: seq<byte>) {
    |v| % 2 == 0 && NulFree(v)
  }

  /**
   * A string field read from the rest of a record: `read` gets all the
   * remaining bytes, and the next field starts `sz` bytes (the string and its
   * terminator) further on, where nothing is left when that is past the end.
   */
  function ReadField(s: seq<byte>): (r: (seq<byte>, seq<byte>))
    ensures NulFree(r.0) && |r.0| <= |s| && r.0 == s[..|r.0|]
    ensures |r.0| + 2 <= |s| ==> Wire(r.0) + r.1 == s
    ensures |r.0| + 2 > |s| ==> r.1 == []
  {
    var v := CutAtNul(s);
    if |v| + 2 <= |s| then
      assert s == v + [0, 0] + s[|v| + 2..];
      (v, s[|v| + 2..])
    else (v, [])
  }

  /** The string a field holds is what `read` makes of the bytes that follow it. */
  lemma ReadFieldIsRead(s: seq<byte>)
    ensures ReadField(s).0 == Read([], Some(Binary(s)), None)
  {
    BinaryIsUtf16(s, None);
  }

  /** A valid string field is read back from its bytes, whatever follows. */
  lemma ReadFieldOfWire(v: seq<byte>, rest: seq<byte>)
    requires Valid(v)
    ensures ReadField(Wire(v) + rest) == (v, rest)
  {
    var s := Wire(v) + rest;
    assert s[..|v|] == v && NulAt(s, |v|);
    CutOfPrefix(s, |v|);
    assert s[|v| + 2..] == rest;
  }

  // ---- alignment byte ----------------------------------------------------------

  /** Size of the optional byte that aligns a string on 16 bits in a unicode message. */
  function AlignSize(pad: Option<nat>): nat {
    if pad.Some? then 1 else 0
  }

  function AlignBytes(pad: Option<nat>): (r: seq<byte>)
    ensures |r| == AlignSize(pad)
  {
    if pad.Some? then LE(pad.value, 1) else []
  }

  /** Reads the alignment byte, which is there only when the SMB header is unicode. */
  function ReadAlign(s: seq<byte>, unicode: bool): (r: Result<(Option<nat>, seq<byte>)>)
    ensures r.Ok? ==> (r.value.0.Some? <==> unicode) && (r.value.0.Some? ==> Fits(r.value.0.value, 1))
    ensures r.Ok? ==> AlignBytes(r.value.0) + r.value.1 == s
    ensures r.Err? <==> unicode && |s| == 0
  {
    if unicode then
      var p :- ReadLE(s, 1);
      Ok((Some(p.0), p.1))
    else Ok((None, s))
  }

  lemma ReadAlignOfAlign(pad: Option<nat>, rest: seq<byte>)
    requires pad.Some? ==> Fits(pad.value, 1)
    ensures ReadAlign(AlignBytes(pad) + rest, pad.Some?) == Ok((pad, rest))
  {
    if pad.Some? {
      ReadLEOfLE(pad.value, 1, rest);
    } else {
      assert AlignBytes(pad) + rest == rest;
    }
  }

  /** A double-NUL terminated binary string: "a\0b\0c\0d\0\0\0" reads as "abcd". */
  lemma AbcdVector()
    ensures Read([], Some(Binary([0x61, 0, 0x62, 0, 0x63, 0, 0x64, 0, 0, 0])), None) ==
      [0x61, 0, 0x62, 0, 0x63, 0, 0x64, 0]
  {
    var u: seq<byte> := [0x61, 0, 0x62, 0, 0x63, 0, 0x64, 0];
    assert forall i :: 0 <= i < |u| ==> !NulAt(u, i);
    ReadTerminated(u, []);
    assert u + [0, 0] + [] == [0x61, 0, 0x62, 0, 0x63, 0, 0x64, 0, 0, 0];
  }

  /** The UTF-8 string "abcd" reads as its UTF-16LE bytes. */
  lemma TextVector()
    ensures Read([], Some(Text("abcd")), None) == [0x61, 0, 0x62, 0, 0x63, 0, 0x64, 0]
  {
    ReadNulFreeText("abcd");
    assert "abcd"[1..] == "bcd" && "bcd"[1..] == "cd" && "cd"[1..] == "d" && "d"[1..] == "";
  }
}
