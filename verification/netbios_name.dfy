/**
 * NetBIOS first-level name encoding (section 4.1 of RFC 1001) as the `Name`
 * header implements it: the part of the human name before the first dot is
 * split into nibbles, each nibble written as `'A' + nibble`, and padded with
 * "CA" pairs (an encoded space) up to 32 characters; the rest of the name is
 * the scope id and is appended verbatim after a dot. Decoding reverses the
 * nibble encoding on the first label and strips surrounding whitespace.
 *
 * Both directions work on the dotted text form of the name; splitting it into
 * DNS labels is done by the DNS name type the header inherits from.
 */
module NetBIOSName {
  import opened Bytes

  /** Size, in characters, of an encoded NetBIOS name. */
  const EncodedNameSize: nat := 32

  const Dot: byte := 0x2e
  const Newline: byte := 0x0a
  const LetterA: byte := 0x41
  const LetterC: byte := 0x43
  const Space: byte := 0x20

  // ---- splitting the human name ------------------------------------------

  /** Drops every trailing dot. */
  function StripTrailingDots(s: seq<byte>): (r: seq<byte>)
    ensures |r| <= |s| && r == s[..|r|]
    ensures |r| == 0 || r[|r| - 1] != Dot
    ensures forall i :: |r| <= i < |s| ==> s[i] == Dot
  {
    if |s| == 0 || s[|s| - 1] != Dot then s else StripTrailingDots(s[..|s| - 1])
  }

  /**
   * Ruby's `name.split('.')` drops trailing empty fields, so the basename is
   * the text before the first dot and the scope id, the remaining fields
   * joined with dots, is the text after it without trailing dots.
   */
  function Basename(name: seq<byte>): seq<byte> {
    Before(name, Dot)
  }

  function ScopeId(name: seq<byte>): seq<byte> {
    StripTrailingDots(After(name, Dot))
  }

  // ---- encoding ----------------------------------------------------------

  /** Two letters per byte: high nibble first. */
  function EncodeBytes(b: seq<byte>): (r: seq<byte>)
    ensures |r| == 2 * |b|
  {
    if |b| == 0 then [] else [LetterA + b[0] / 16, LetterA + b[0] % 16] + EncodeBytes(b[1..])
  }

  /** Byte `i` becomes characters `2 i` and `2 i + 1`: `'A' + (b >> 4)`, `'A' + (b & 0xf)`. */
  lemma {:induction false} EncodeBytesNibbles(b: seq<byte>)
    ensures forall i :: 0 <= i < |b| ==>
      EncodeBytes(b)[2 * i] == LetterA + b[i] / 16 && EncodeBytes(b)[2 * i + 1] == LetterA + b[i] % 16
  {
    if |b| > 0 {
      EncodeBytesNibbles(b[1..]);
      var r := EncodeBytes(b);
      var rest := EncodeBytes(b[1..]);
      forall i | 1 <= i < |b|
        ensures r[2 * i] == LetterA + b[i] / 16 && r[2 * i + 1] == LetterA + b[i] % 16
      {
        assert r[2 * i] == rest[2 * (i - 1)] && r[2 * i + 1] == rest[2 * (i - 1) + 1];
        assert b[i] == b[1..][i - 1];
      }
    }
  }

  /** `n` copies of "CA". */
  function Padding(n: nat): (r: seq<byte>)
    ensures |r| == 2 * n
    ensures forall j :: 0 <= j < |r| ==> r[j] == if j % 2 == 0 then LetterC else LetterA
  {
    if n == 0 then [] else [LetterC, LetterA] + Padding(n - 1)
  }

  /** The encoded first label: nibble letters, padded with "CA" to 32 characters. */
  function EncodedBase(b: seq<byte>): (r: seq<byte>)
    ensures |r| == if |b| < 16 then EncodedNameSize else 2 * |b|
    ensures r[..2 * |b|] == EncodeBytes(b)
    ensures r[2 * |b|..] == Padding((|r| - 2 * |b|) / 2)
  {
    var e := EncodeBytes(b);
    if |e| < EncodedNameSize then
      var p := Padding((EncodedNameSize - |e|) / 2);
      assert (e + p)[..|e|] == e && (e + p)[|e|..] == p;
      e + p
    else
      assert e[|e|..] == [] == Padding(0);
      e
  }

  /** Encoded characters are the letters 'A' to 'P'. */
  lemma EncodedBaseLetters(b: seq<byte>)
    ensures forall j :: 0 <= j < |EncodedBase(b)| ==> LetterA <= EncodedBase(b)[j] < LetterA + 16
  {
    var r := EncodedBase(b);
    var e := EncodeBytes(b);
    EncodeBytesNibbles(b);
    forall j | 0 <= j < |r|
      ensures LetterA <= r[j] < LetterA + 16
    {
      if j < 2 * |b| {
        assert r[j] == e[j];
        var i := j / 2;
        if j % 2 == 0 {
          assert e[2 * i] == LetterA + b[i] / 16;
        } else {
          assert e[2 * i + 1] == LetterA + b[i] % 16;
        }
      } else {
        assert r[j] == r[2 * |b|..][j - 2 * |b|];
      }
    }
  }

  /**
   * `encode_name`: the scope id is appended after a dot in every case, since
   * the joined scope is a string (possibly empty) and so always truthy.
   */
  function EncodeName(name: seq<byte>): (r: seq<byte>)
    ensures Before(r, Dot) == EncodedBase(Basename(name))
    ensures After(r, Dot) == ScopeId(name)
  {
    var base := EncodedBase(Basename(name));
    EncodedBaseLetters(Basename(name));
    assert Dot !in base;
    BeforeAfterOfJoin(base, Dot, ScopeId(name));
    base + [Dot] + ScopeId(name)
  }

  /** The text form a name holds after `from_human`; `nil` leaves it cleared. */
  function FromHuman(str: Option<seq<byte>>): (r: seq<byte>)
    ensures str.None? ==> r == []
    ensures str.Some? ==> Before(r, Dot) == EncodedBase(Basename(str.value))
    ensures str.Some? ==> After(r, Dot) == ScopeId(str.value)
  {
    match str
    case None => []
    case Some(s) => EncodeName(s)
  }

  // ---- decoding ----------------------------------------------------------

  /** One character pair back to a byte: `((a - 'A') & 0xf) << 4 | ((b - 'A') & 0xf)`. */
  function DecodePair(a: byte, b: byte): (r: byte)
    ensures r / 16 == (a - LetterA) % 16 && r % 16 == (b - LetterA) % 16
  {
    ((a - LetterA) % 16) * 16 + (b - LetterA) % 16
  }

  /**
   * `scan(/../)` followed by `DecodePair`: the regular expression takes two
   * characters that are not newlines, so a newline restarts the scan after it
   * and a trailing odd character is ignored.
   */
  function DecodePairs(s: seq<byte>): (r: seq<byte>)
    ensures 2 * |r| <= |s|
  {
    if |s| < 2 then []
    else if s[0] == Newline then DecodePairs(s[1..])
    else if s[1] == Newline then DecodePairs(s[2..])
    else [DecodePair(s[0], s[1])] + DecodePairs(s[2..])
  }

  /** Whitespace as Ruby's `strip` sees it: NUL, `\t` to `\r`, and space. */
  predicate IsSpace(c: byte) {
    c == 0 || 9 <= c <= 13 || c == Space
  }

  function LStrip(s: seq<byte>): (r: seq<byte>)
    ensures |r| <= |s| && r == s[|s| - |r|..]
    ensures forall i :: 0 <= i < |s| - |r| ==> IsSpace(s[i])
    ensures |r| == 0 || !IsSpace(r[0])
  {
    if |s| > 0 && IsSpace(s[0]) then LStrip(s[1..]) else s
  }

  function RStrip(s: seq<byte>): (r: seq<byte>)
    ensures |r| <= |s| && r == s[..|r|]
    ensures forall i :: |r| <= i < |s| ==> IsSpace(s[i])
    ensures |r| == 0 || !IsSpace(r[|r| - 1])
  {
    if |s| > 0 && IsSpace(s[|s| - 1]) then RStrip(s[..|s| - 1]) else s
  }

  function Strip(s: seq<byte>): seq<byte> {
    LStrip(RStrip(s))
  }

  /** `decode_name`: the first label decoded pair by pair, then stripped. */
  function DecodeName(encoded: seq<byte>): (r: seq<byte>)
    ensures |r| <= |Before(encoded, Dot)| / 2
    ensures |r| == 0 || (!IsSpace(r[0]) && !IsSpace(r[|r| - 1]))
  {
    Strip(DecodePairs(Before(encoded, Dot)))
  }

  // ---- properties --------------------------------------------------------

  lemma DecodePairOfEncode(x: byte)
    ensures DecodePair(LetterA + x / 16, LetterA + x % 16) == x
  {
  }

  lemma {:induction false} DecodeEncodeBytes(b: seq<byte>, rest: seq<byte>)
    ensures DecodePairs(EncodeBytes(b) + rest) == b + DecodePairs(rest)
  {
    if |b| > 0 {
      var t := EncodeBytes(b[1..]) + rest;
      var s := [LetterA + b[0] / 16, LetterA + b[0] % 16] + t;
      assert EncodeBytes(b) + rest == s;
      assert s[2..] == t;
      DecodePairOfEncode(b[0]);
      assert DecodePairs(s) == [b[0]] + DecodePairs(t);
      DecodeEncodeBytes(b[1..], rest);
      assert [b[0]] + (b[1..] + DecodePairs(rest)) == b + DecodePairs(rest);
    } else {
      assert EncodeBytes(b) + rest == rest;
    }
  }

  /** Spaces, `n` of them. */
  function Spaces(n: nat): (r: seq<byte>)
    ensures |r| == n && forall i :: 0 <= i < n ==> r[i] == Space
  {
    if n == 0 then [] else [Space] + Spaces(n - 1)
  }

  lemma {:induction false} DecodePadding(n: nat)
    ensures DecodePairs(Padding(n)) == Spaces(n)
  {
    if n > 0 {
      assert Padding(n)[2..] == Padding(n - 1);
      DecodePadding(n - 1);
    }
  }

  lemma {:induction false} RStripTrailingSpaces(b: seq<byte>, n: nat)
    ensures RStrip(b + Spaces(n)) == RStrip(b)
  {
    if n > 0 {
      var s := b + Spaces(n);
      assert Spaces(n)[..n - 1] == Spaces(n - 1);
      assert s[..|s| - 1] == b + Spaces(n - 1);
      assert IsSpace(s[|s| - 1]);
      assert RStrip(s) == RStrip(s[..|s| - 1]);
      RStripTrailingSpaces(b, n - 1);
    } else {
      assert b + Spaces(n) == b;
    }
  }

  /** The first label decodes to the basename followed by the padding spaces. */
  lemma DecodeEncodedBase(b: seq<byte>)
    ensures exists n: nat :: DecodePairs(EncodedBase(b)) == b + Spaces(n)
  {
    var e := EncodeBytes(b);
    if |e| < EncodedNameSize {
      var n := (EncodedNameSize - |e|) / 2;
      DecodeEncodeBytes(b, Padding(n));
      DecodePadding(n);
    } else {
      DecodeEncodeBytes(b, []);
      assert e + [] == e;
      assert b + Spaces(0) == b;
    }
  }

  /**
   * Decoding an encoded name gives back its basename without surrounding
   * whitespace: the "CA" padding decodes to spaces, which `strip` removes,
   * and the scope id after the dot is not part of the result.
   */
  lemma DecodeEncodeName(name: seq<byte>)
    ensures DecodeName(EncodeName(name)) == Strip(Basename(name))
  {
    var b := Basename(name);
    DecodeEncodedBase(b);
    var n: nat :| DecodePairs(EncodedBase(b)) == b + Spaces(n);
    RStripTrailingSpaces(b, n);
  }

  /** A basename with no surrounding whitespace survives the round trip exactly. */
  lemma DecodeEncodeTrimmed(name: seq<byte>)
    requires var b := Basename(name); |b| == 0 || (!IsSpace(b[0]) && !IsSpace(b[|b| - 1]))
    ensures DecodeName(EncodeName(name)) == Basename(name)
  {
    DecodeEncodeName(name);
    StripUnchanged(Basename(name));
  }

  lemma StripUnchanged(s: seq<byte>)
    requires |s| == 0 || (!IsSpace(s[0]) && !IsSpace(s[|s| - 1]))
    ensures Strip(s) == s
  {
  }

  /** Whatever follows the first dot has no effect on decoding. */
  lemma DecodeIgnoresScope(first: seq<byte>, scope: seq<byte>)
    requires Dot !in first
    ensures DecodeName(first + [Dot] + scope) == DecodeName(first)
  {
    BeforeAfterOfJoin(first, Dot, scope);
    BeforeAbsent(first, Dot);
  }

  // ---- literal vectors ---------------------------------------------------

  /** "FRED", "NETBIOS.COM" and the nibble letters "EGFCEFEE" of "FRED". */
  const Fred: seq<byte> := [0x46, 0x52, 0x45, 0x44]
  const NetbiosCom: seq<byte> := [0x4e, 0x45, 0x54, 0x42, 0x49, 0x4f, 0x53, 0x2e, 0x43, 0x4f, 0x4d]
  const FredLetters: seq<byte> := [0x45, 0x47, 0x46, 0x43, 0x45, 0x46, 0x45, 0x45]

  /** "FRED.NETBIOS.COM": the basename is encoded and padded, the scope id kept verbatim. */
  lemma FredEncodes()
    ensures EncodeName(Fred + [Dot] + NetbiosCom) == FredLetters + Padding(12) + [Dot] + NetbiosCom
  {
    var name := Fred + [Dot] + NetbiosCom;
    BeforeAfterOfJoin(Fred, Dot, NetbiosCom);
    assert Basename(name) == Fred;
    assert ScopeId(name) == NetbiosCom by {
      assert StripTrailingDots(NetbiosCom) == NetbiosCom;
    }
    FredLettersOfFred();
    assert EncodedBase(Fred) == FredLetters + Padding(12);
  }

  lemma FredLettersOfFred()
    ensures EncodeBytes(Fred) == FredLetters
  {
  }

  /** The encoded form of "FRED.NETBIOS.COM" decodes to "FRED". */
  lemma FredDecodes()
    ensures DecodeName(FredLetters + Padding(12) + [Dot] + NetbiosCom) == Fred
  {
    var name := Fred + [Dot] + NetbiosCom;
    FredEncodes();
    BeforeAfterOfJoin(Fred, Dot, NetbiosCom);
    assert Basename(name) == Fred;
    DecodeEncodeTrimmed(name);
  }
}
