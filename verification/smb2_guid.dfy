/**
 * SMB2 GUID: a 16-byte structure of a 32-bit and two 16-bit little-endian
 * integers followed by a 64-bit big-endian one, with the RFC 4122 text form
 * "xxxxxxxx-xxxx-xxxx-xxxx-xxxxxxxxxxxx".
 *
 * Field values are unbounded, as the Ruby attributes are; the wire form keeps
 * the low bits of each, and the text form prints all of them.
 */
module Smb2Guid {
  import opened Bytes
  import opened BitFields

  datatype Guid = Guid(data1: nat, data2: nat, data3: nat, data4: nat)

  const Size: nat := 16

  /** Every field fits its wire width. */
  predicate WellFormed(g: Guid) {
    Fits(g.data1, 4) && Fits(g.data2, 2) && Fits(g.data3, 2) && Fits(g.data4, 8)
  }

  // ---- wire form -------------------------------------------------------------

  function ToBytes(g: Guid): (r: seq<byte>)
    ensures |r| == Size
  {
    LE(g.data1, 4) + LE(g.data2, 2) + LE(g.data3, 2) + BE(g.data4, 8)
  }

  function Read(s: seq<byte>): (r: Result<(Guid, seq<byte>)>)
    ensures r.Ok? <==> |s| >= Size
    ensures r.Ok? ==> WellFormed(r.value.0) && ToBytes(r.value.0) + r.value.1 == s
  {
    var d1 :- ReadLE(s, 4);
    var d2 :- ReadLE(d1.1, 2);
    var d3 :- ReadLE(d2.1, 2);
    var d4 :- ReadBE(d3.1, 8);
    var g := Guid(d1.0, d2.0, d3.0, d4.0);
    assert ToBytes(g) + d4.1 == LE(g.data1, 4) + (LE(g.data2, 2) + (LE(g.data3, 2) + (BE(g.data4, 8) + d4.1)));
    Ok((g, d4.1))
  }

  /** A GUID whose fields fit is read back from its 16 bytes, whatever follows. */
  lemma ReadToBytes(g: Guid, rest: seq<byte>)
    requires WellFormed(g)
    ensures Read(ToBytes(g) + rest) == Ok((g, rest))
  {
    var s3 := BE(g.data4, 8) + rest;
    var s2 := LE(g.data3, 2) + s3;
    var s1 := LE(g.data2, 2) + s2;
    assert ToBytes(g) + rest == LE(g.data1, 4) + s1;
    ReadLEOfLE(g.data1, 4, s1);
    ReadLEOfLE(g.data2, 2, s2);
    ReadLEOfLE(g.data3, 2, s3);
    ReadBEOfBE(g.data4, 8, rest);
  }

  // ---- hexadecimal digits ----------------------------------------------------

  /** Lower-case digit for `0 <= d < 16`, as `%x` prints it. */
  function Digit(d: nat): (r: char)
    requires d < 16
    ensures r != '-'
  {
    if d < 10 then '0' + d as char else 'a' + (d - 10) as char
  }

  /** Value of a hexadecimal digit in either case, as `String#to_i(16)` reads it. */
  function DigitValue(c: char): (r: Option<nat>)
    ensures r.Some? ==> r.value < 16
  {
    if '0' <= c <= '9' then Some(c as nat - '0' as nat)
    else if 'a' <= c <= 'f' then Some(c as nat - 'a' as nat + 10)
    else if 'A' <= c <= 'F' then Some(c as nat - 'A' as nat + 10)
    else None
  }

  lemma DigitValueOfDigit(d: nat)
    requires d < 16
    ensures DigitValue(Digit(d)) == Some(d)
  {
  }

  predicate IsHex(s: string) {
    forall i :: 0 <= i < |s| ==> DigitValue(s[i]).Some?
  }

  /** Shortest digit string of `x`, most significant digit first. */
  function ToHex(x: nat): (r: string)
    ensures |r| >= 1 && IsHex(r) && '-' !in r
  {
    if x < 16 then [Digit(x)] else ToHex(x / 16) + [Digit(x % 16)]
  }

  /** `%0<w>x`: the digits of `x`, padded with zeros on the left to `w` characters. */
  function Hex(x: nat, w: nat): (r: string)
    ensures |r| >= 1 && IsHex(r) && '-' !in r
    ensures |r| == if |ToHex(x)| < w then w else |ToHex(x)|
  {
    var d := ToHex(x);
    if |d| < w then ZerosText(w - |d|) + d else d
  }

  function ZerosText(n: nat): (r: string)
    ensures |r| == n && forall i :: 0 <= i < n ==> r[i] == '0'
  {
    if n == 0 then [] else ['0'] + ZerosText(n - 1)
  }

  /** Value of a string of hexadecimal digits. */
  function HexValue(s: string): nat
    requires IsHex(s)
  {
    if |s| == 0 then 0 else 16 * HexValue(s[..|s| - 1]) + DigitValue(s[|s| - 1]).value
  }

  /** Blanks `String#to_i` skips before the number: space, tab, LF, VT, FF and CR. */
  predicate IsBlank(c: char) {
    c == ' ' || c == '\t' || c == '\n' || c == 11 as char || c == 12 as char || c == '\r'
  }

  /** `s` without its leading blanks. */
  function SkipBlanks(s: string): (r: string)
    ensures |r| <= |s| && r == s[|s| - |r|..]
    ensures r == [] || !IsBlank(r[0])
  {
    if |s| > 0 && IsBlank(s[0]) then SkipBlanks(s[1..]) else s
  }

  /** `s` without a leading `0x` or `0X`. */
  function SkipRadix(s: string): (r: string)
    ensures r == s || (|s| >= 2 && s[0] == '0' && (s[1] == 'x' || s[1] == 'X') && r == s[2..])
  {
    if |s| >= 2 && s[0] == '0' && (s[1] == 'x' || s[1] == 'X') then s[2..] else s
  }

  /**
   * The digits of the leading run of hexadecimal digits in which single
   * underscores may separate two digits; the underscores are dropped.
   */
  function DigitRun(s: string): (r: string)
    ensures IsHex(r) && |r| <= |s|
    ensures r == [] <==> s == [] || DigitValue(s[0]).None?
    ensures r != [] ==> r[0] == s[0]
  {
    if |s| == 0 || DigitValue(s[0]).None? then []
    else [s[0]] + DigitRun(if |s| >= 2 && s[1] == '_' then s[2..] else s[1..])
  }

  /** The value of the digit run after an optional `0x`: `to_i(16)` past the sign. */
  function UnsignedHex(u: string): nat {
    HexValue(DigitRun(SkipRadix(u)))
  }

  /**
   * `String#to_i(16)`: leading blanks, an optional sign, an optional `0x`,
   * then the digit run; 0 when there is no digit.
   */
  function ParseHex(s: string): (r: int)
    ensures '-' !in s ==> r >= 0
  {
    var t := SkipBlanks(s);
    if |t| > 0 && t[0] == '-' then
      assert t[0] == s[|s| - |t|];
      -(UnsignedHex(t[1..]) as int)
    else if |t| > 0 && t[0] == '+' then UnsignedHex(t[1..])
    else UnsignedHex(t)
  }

  lemma {:induction false} HexValueOfToHex(x: nat)
    ensures HexValue(ToHex(x)) == x
  {
    if x >= 16 {
      HexValueOfToHex(x / 16);
      var d := ToHex(x);
      assert d[..|d| - 1] == ToHex(x / 16);
      DigitValueOfDigit(x % 16);
    } else {
      DigitValueOfDigit(x);
    }
  }

  lemma {:induction false} HexValueOfZeros(n: nat, s: string)
    requires IsHex(s)
    ensures IsHex(ZerosText(n) + s) && HexValue(ZerosText(n) + s) == HexValue(s)
    decreases |s|
  {
    var z := ZerosText(n) + s;
    assert forall i :: 0 <= i < |z| ==> DigitValue(z[i]).Some? by {
      forall i | 0 <= i < |z|
        ensures DigitValue(z[i]).Some?
      {
        if i >= n {
          assert z[i] == s[i - n];
        }
      }
    }
    if |s| == 0 {
      HexValueOfZerosOnly(n);
      assert z == ZerosText(n);
    } else {
      HexValueOfZeros(n, s[..|s| - 1]);
      assert z[..|z| - 1] == ZerosText(n) + s[..|s| - 1];
    }
  }

  lemma {:induction false} HexValueOfZerosOnly(n: nat)
    ensures IsHex(ZerosText(n)) && HexValue(ZerosText(n)) == 0
  {
    if n > 0 {
      HexValueOfZerosOnly(n - 1);
      var z := ZerosText(n);
      assert z[..n - 1] == ZerosText(n - 1) by {
        ZerosTextSnoc(n);
      }
    }
  }

  lemma ZerosTextSnoc(n: nat)
    requires n > 0
    ensures ZerosText(n) == ZerosText(n - 1) + ['0']
  {
  }

  /** A string whose first two characters are digits has no blank, sign or radix prefix to skip. */
  lemma DigitsAreBare(s: string)
    requires |s| > 0 && DigitValue(s[0]).Some?
    requires |s| >= 2 ==> DigitValue(s[1]).Some?
    ensures SkipBlanks(s) == s && SkipRadix(s) == s && s[0] != '-' && s[0] != '+'
  {
    assert !IsBlank(s[0]);
  }

  /** Without blanks, sign or radix prefix, `to_i(16)` reads the digit run. */
  lemma ParseHexOfBare(s: string)
    requires |s| > 0 && SkipBlanks(s) == s && SkipRadix(s) == s && s[0] != '-' && s[0] != '+'
    ensures ParseHex(s) == HexValue(DigitRun(s))
  {
    assert ParseHex(s) == UnsignedHex(s);
  }

  /** Zero padding does not change the value the digits carry. */
  lemma ParseHexOfHex(x: nat, w: nat)
    ensures ParseHex(Hex(x, w)) == x
  {
    var h := Hex(x, w);
    assert DigitValue(h[0]).Some?;
    if |h| >= 2 {
      assert DigitValue(h[1]).Some?;
    }
    DigitsAreBare(h);
    ParseHexOfBare(h);
    DigitRunOfHex(h);
    HexValueOfToHex(x);
    if |ToHex(x)| < w {
      HexValueOfZeros(w - |ToHex(x)|, ToHex(x));
    }
  }

  /** A run of digits without underscores is read whole. */
  lemma {:induction false} DigitRunOfHex(s: string)
    requires IsHex(s)
    ensures DigitRun(s) == s
  {
    if |s| > 0 {
      assert DigitValue(s[0]).Some?;
      if |s| >= 2 {
        assert DigitValue(s[1]).Some?;
      }
      DigitRunOfHex(s[1..]);
    }
  }

  // ---- splitting at dashes -----------------------------------------------

  /** Pieces of `s` between dashes, as many as there are dashes plus one. */
  function SplitDash(s: string): (r: seq<string>)
    ensures |r| >= 1
    ensures forall k :: 0 <= k < |r| ==> '-' !in r[k]
    decreases |s|
  {
    var i := IndexOf(s, '-');
    if i == |s| then [s] else [s[..i]] + SplitDash(s[i + 1..])
  }

  /** Position of the first `c` in `s`, `|s|` when there is none. */
  function IndexOf(s: string, c: char): (r: nat)
    ensures r <= |s|
    ensures forall j :: 0 <= j < r ==> s[j] != c
    ensures r < |s| ==> s[r] == c
  {
    if |s| == 0 || s[0] == c then 0 else 1 + IndexOf(s[1..], c)
  }

  /** `String#split('-')`: the pieces, with trailing empty ones removed. */
  function Split(s: string): (r: seq<string>)
    ensures |r| <= |SplitDash(s)|
    ensures forall k :: 0 <= k < |r| ==> '-' !in r[k]
  {
    DropTrailingEmpty(SplitDash(s))
  }

  function DropTrailingEmpty(ps: seq<string>): (r: seq<string>)
    ensures |r| <= |ps| && r == ps[..|r|]
    ensures |r| == 0 || r[|r| - 1] != []
  {
    if |ps| == 0 then []
    else if ps[|ps| - 1] == [] then DropTrailingEmpty(ps[..|ps| - 1])
    else ps
  }

  lemma IndexOfAbsent(s: string, c: char)
    requires c !in s
    ensures IndexOf(s, c) == |s|
  {
    assert forall j :: 0 <= j < |s| ==> s[j] != c;
  }

  lemma IndexOfJoin(a: string, c: char, b: string)
    requires c !in a
    ensures IndexOf(a + [c] + b, c) == |a|
  {
    var s := a + [c] + b;
    assert forall j :: 0 <= j < |a| ==> s[j] == a[j] && a[j] != c;
    assert s[|a|] == c;
  }

  /** Groups joined with dashes between them. */
  function Join(gs: seq<string>): (r: string)
    requires |gs| >= 1
  {
    if |gs| == 1 then gs[0] else gs[0] + "-" + Join(gs[1..])
  }

  lemma SplitDashJoin(a: string, b: string)
    requires '-' !in a
    ensures SplitDash(a + "-" + b) == [a] + SplitDash(b)
  {
    var s := a + "-" + b;
    IndexOfJoin(a, '-', b);
    assert s[..|a|] == a && s[|a| + 1..] == b;
  }

  lemma {:induction false} SplitDashOfJoin(gs: seq<string>)
    requires |gs| >= 1
    requires forall i :: 0 <= i < |gs| ==> '-' !in gs[i]
    ensures SplitDash(Join(gs)) == gs
  {
    if |gs| == 1 {
      IndexOfAbsent(gs[0], '-');
    } else {
      SplitDashOfJoin(gs[1..]);
      SplitDashJoin(gs[0], Join(gs[1..]));
      assert gs == [gs[0]] + gs[1..];
    }
  }

  /** Dash-free groups, the last one non-empty, split back into the same groups. */
  lemma SplitOfJoin(gs: seq<string>)
    requires |gs| >= 1 && gs[|gs| - 1] != []
    requires forall i :: 0 <= i < |gs| ==> '-' !in gs[i]
    ensures Split(Join(gs)) == gs
  {
    SplitDashOfJoin(gs);
  }

  // ---- text form -------------------------------------------------------------

  /** `data4 >> 48` and `data4 & 0xffff_ffff_ffff`. */
  const Data4Split: nat := 48

  /** The five groups `to_human` prints: data1, data2, data3 and the two parts of data4. */
  function Groups(g: Guid): (r: seq<string>)
    ensures |r| == 5
  {
    [Hex(g.data1, 8), Hex(g.data2, 4), Hex(g.data3, 4),
     Hex(Shr(g.data4, Data4Split), 4), Hex(Low(g.data4, Data4Split), 12)]
  }

  /** `to_human`: the groups, separated by dashes, which `split('-')` takes apart again. */
  function ToHuman(g: Guid): (r: string)
    ensures Split(r) == Groups(g)
  {
    var gs := Groups(g);
    SplitOfJoin(gs);
    Join(gs)
  }

  /** Bitwise or of two naturals, `a | b`. */
  function Or(a: nat, b: nat): nat
    decreases a + b
  {
    if a == 0 then b
    else if b == 0 then a
    else (if a % 2 == 1 || b % 2 == 1 then 1 else 0) + 2 * Or(a / 2, b / 2)
  }

  /** Or-ing in a value below the shift adds it: the two share no bit. */
  lemma {:induction false} OrShl(h: nat, l: nat, k: nat)
    requires l < Pow2(k)
    ensures Or(Shl(h, k), l) == Shl(h, k) + l
  {
    if k > 0 && Shl(h, k) != 0 && l != 0 {
      OrShl(h, l / 2, k - 1);
      assert Shl(h, k) / 2 == Shl(h, k - 1);
    }
  }

  /**
   * `from_human`: `None` is nil. Nil or empty text, or text that does not
   * split into exactly five groups, leaves the GUID as it is.
   */
  function FromHuman(g: Guid, text: Option<string>): (r: Guid)
    ensures text.None? || text.value == [] || |Split(text.value)| != 5 ==> r == g
    ensures text.Some? && |Split(text.value)| == 5 ==>
      var v := Split(text.value);
      r.data1 == ParseHex(v[0]) && r.data2 == ParseHex(v[1]) && r.data3 == ParseHex(v[2]) &&
      r.data4 == Or(Shl(ParseHex(v[3]), Data4Split), ParseHex(v[4]))
  {
    if text.None? || text.value == [] then g
    else
      var v := Split(text.value);
      if |v| != 5 then g
      else Guid(ParseHex(v[0]), ParseHex(v[1]), ParseHex(v[2]),
                Or(Shl(ParseHex(v[3]), Data4Split), ParseHex(v[4])))
  }

  /** The text form reads back as the same GUID, whatever GUID it is read into. */
  lemma FromHumanToHuman(g: Guid, base: Guid)
    ensures FromHuman(base, Some(ToHuman(g))) == g
  {
    var t := ToHuman(g);
    var v := Groups(g);
    assert Split(t) == v && t != [];
    var hi, lo := Shr(g.data4, Data4Split), Low(g.data4, Data4Split);
    ParseHexOfHex(g.data1, 8);
    ParseHexOfHex(g.data2, 4);
    ParseHexOfHex(g.data3, 4);
    ParseHexOfHex(hi, 4);
    ParseHexOfHex(lo, 12);
    assert Or(Shl(ParseHex(v[3]), Data4Split), ParseHex(v[4])) == g.data4 by {
      OrShl(hi, lo, Data4Split);
      ShlShrLow(g.data4, Data4Split);
    }
  }

  // ---- the rest of the `to_i(16)` grammar -----------------------------------

  /** Blanks before the number are skipped. */
  lemma ParseHexSkipsBlank(c: char, s: string)
    requires IsBlank(c)
    ensures ParseHex([c] + s) == ParseHex(s)
  {
    assert ([c] + s)[1..] == s;
  }

  /** A sign is read once, right before the digits or their `0x`; `-` negates. */
  lemma ParseHexOfSign(s: string)
    ensures ParseHex(['+'] + s) == UnsignedHex(s)
    ensures ParseHex(['-'] + s) == -(UnsignedHex(s) as int)
  {
    assert SkipBlanks(['+'] + s) == ['+'] + s && (['+'] + s)[1..] == s;
    assert SkipBlanks(['-'] + s) == ['-'] + s && (['-'] + s)[1..] == s;
  }

  /** A `0x` or `0X` before the digits is skipped. */
  lemma ParseHexOfRadix(x: char, s: string)
    requires x == 'x' || x == 'X'
    ensures ParseHex(['0', x] + s) == HexValue(DigitRun(s))
  {
    var t := ['0', x] + s;
    assert !IsBlank(t[0]) && SkipBlanks(t) == t;
    assert ParseHex(t) == UnsignedHex(t);
    assert t[2..] == s;
  }

  /** A single underscore after a digit is dropped; a second one ends the run. */
  lemma DigitRunOfUnderscore(d: char, s: string)
    requires DigitValue(d).Some?
    ensures DigitRun([d, '_'] + s) == [d] + DigitRun(s)
    ensures DigitRun([d, '_', '_'] + s) == [d]
  {
    assert ([d, '_'] + s)[2..] == s;
    assert ([d, '_', '_'] + s)[2..] == ['_'] + s;
  }

  /** `"0x1f".to_i(16)` is 31. */
  lemma ParseHexVector()
    ensures ParseHex("0x1f") == 31
  {
    assert "0x1f" == ['0', 'x'] + "1f";
    var d := ToHex(31);
    assert d == "1f" by {
      assert ToHex(1) == [Digit(1)];
    }
    ParseHexOfRadix('x', d);
    DigitRunOfHex(d);
    HexValueOfToHex(31);
  }

  /** Five dash-free groups joined with dashes set the fields from their values. */
  lemma FromHumanOfGroups(base: Guid, gs: seq<string>)
    requires |gs| == 5 && gs[4] != []
    requires forall i :: 0 <= i < 5 ==> '-' !in gs[i]
    ensures FromHuman(base, Some(Join(gs))) ==
      Guid(ParseHex(gs[0]), ParseHex(gs[1]), ParseHex(gs[2]),
           Or(Shl(ParseHex(gs[3]), Data4Split), ParseHex(gs[4])))
  {
    SplitOfJoin(gs);
  }

  /** A group written with a `0x` prefix is read for its digits. */
  lemma FromHumanPrefixed()
    ensures FromHuman(Guid(0, 0, 0, 0), Some(Join(["0x1f", "0", "0", "0", "0"]))) == Guid(31, 0, 0, 0)
  {
    var gs := ["0x1f", "0", "0", "0", "0"];
    assert '-' !in gs[0] && '-' !in "0";
    FromHumanOfGroups(Guid(0, 0, 0, 0), gs);
    ParseHexVector();
    assert Hex(0, 1) == "0";
    ParseHexOfHex(0, 1);
    ShlShrLow(0, Data4Split);
    ZeroBits(Data4Split);
  }

  /** The all-zero GUID prints as zeros in five groups. */
  lemma ZeroToHuman()
    ensures ToHuman(Guid(0, 0, 0, 0)) == Join(["00000000", "0000", "0000", "0000", "000000000000"])
  {
    ZeroBits(Data4Split);
    assert Hex(0, 4) == "0000";
    assert Hex(0, 8) == "00000000";
    assert Hex(0, 12) == "000000000000";
    assert Groups(Guid(0, 0, 0, 0)) == ["00000000", "0000", "0000", "0000", "000000000000"];
  }
}
