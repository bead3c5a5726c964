/**
 * Bit-field groups over an unsigned integer field, as the schemas declare them
 * with `define_bit_fields_on` / `define_bit_attr`: an ordered list of widths
 * whose FIRST entry names the MOST significant bits of the integer value. The
 * byte order of the backing integer (`endian: :little`) does not change this
 * order; the literal vectors of the SMB and SMB2 headers confirm it (flags2
 * 0xc843 sets `unicode`, the first declared sub-field).
 *
 * Shifts and masks are defined one bit at a time so that every step is linear
 * arithmetic.
 */
module BitFields {

  function Pow2(n: nat): (r: nat)
    ensures r >= 1
  {
    if n == 0 then 1 else 2 * Pow2(n - 1)
  }

  /** `x >> k`. */
  function Shr(x: nat, k: nat): nat {
    if k == 0 then x else Shr(x / 2, k - 1)
  }

  /** `x << k`. */
  function Shl(x: nat, k: nat): nat {
    if k == 0 then x else 2 * Shl(x, k - 1)
  }

  /** `x & ((1 << k) - 1)`: the low `k` bits. */
  function Low(x: nat, k: nat): (r: nat)
    ensures r < Pow2(k)
  {
    if k == 0 then 0 else x % 2 + 2 * Low(x / 2, k - 1)
  }

  /** `x & (1 << k) != 0`. */
  predicate BitSet(x: nat, k: nat) {
    Shr(x, k) % 2 == 1
  }

  /** Shifts of `x` listed one bit at a time. */
  lemma {:induction false} ShrTable(x: nat, sh: seq<nat>)
    requires |sh| > 0 && sh[0] == x
    requires forall k :: 0 <= k < |sh| - 1 ==> sh[k + 1] == sh[k] / 2
    ensures forall k :: 0 <= k < |sh| ==> Shr(x, k) == sh[k]
    decreases |sh|
  {
    if |sh| > 1 {
      var sh' := sh[1..];
      ShrTable(x / 2, sh');
      forall k | 1 <= k < |sh|
        ensures Shr(x, k) == sh[k]
      {
        assert Shr(x, k) == Shr(x / 2, k - 1) == sh'[k - 1];
      }
    }
  }

  /** Total width of a group. */
  function Sum(ws: seq<nat>): nat {
    if |ws| == 0 then 0 else Sum(ws[..|ws| - 1]) + ws[|ws| - 1]
  }

  /** Number of bits below sub-field `i`: the widths declared after it. */
  function Shift(ws: seq<nat>, i: nat): nat
    requires i < |ws|
  {
    Sum(ws[i + 1..])
  }

  /** Splits `x` into its sub-fields, most significant first. */
  function Unpack(x: nat, ws: seq<nat>): (r: seq<nat>)
    ensures |r| == |ws|
    ensures forall i :: 0 <= i < |ws| ==> r[i] < Pow2(ws[i])
    decreases |ws|
  {
    if |ws| == 0 then []
    else
      var w := ws[|ws| - 1];
      Unpack(Shr(x, w), ws[..|ws| - 1]) + [Low(x, w)]
  }

  /** Reassembles the integer from sub-field values, each masked to its width. */
  function Pack(vs: seq<nat>, ws: seq<nat>): (r: nat)
    requires |vs| == |ws|
    ensures r < Pow2(Sum(ws))
  {
    if |ws| == 0 then 0
    else
      var w := ws[|ws| - 1];
      var hi := Pack(vs[..|vs| - 1], ws[..|ws| - 1]);
      ShlAddBound(hi, Low(vs[|vs| - 1], w), Sum(ws[..|ws| - 1]), w);
      Shl(hi, w) + Low(vs[|vs| - 1], w)
  }

  // ---- shift and mask laws --------------------------------------------------

  lemma {:induction false} ShrShlAdd(h: nat, l: nat, k: nat)
    requires l < Pow2(k)
    ensures Shr(Shl(h, k) + l, k) == h
    ensures Low(Shl(h, k) + l, k) == l
  {
    if k > 0 {
      ShrShlAdd(h, l / 2, k - 1);
      assert (Shl(h, k) + l) / 2 == Shl(h, k - 1) + l / 2;
      assert (Shl(h, k) + l) % 2 == l % 2;
    }
  }

  lemma {:induction false} ShlShrLow(x: nat, k: nat)
    ensures Shl(Shr(x, k), k) + Low(x, k) == x
  {
    if k > 0 {
      ShlShrLow(x / 2, k - 1);
      ShlOfShr(x, k);
    }
  }

  lemma {:induction false} ShlOfShr(x: nat, k: nat)
    requires k > 0
    ensures Shl(Shr(x, k), k) == 2 * Shl(Shr(x / 2, k - 1), k - 1)
  {
  }

  lemma {:induction false} LowBelow(x: nat, k: nat)
    requires x < Pow2(k)
    ensures Low(x, k) == x
  {
    if k > 0 {
      LowBelow(x / 2, k - 1);
    }
  }

  lemma {:induction false} ShrBound(x: nat, a: nat, b: nat)
    requires x < Pow2(a + b)
    ensures Shr(x, b) < Pow2(a)
  {
    if b > 0 {
      ShrBound(x / 2, a, b - 1);
    }
  }

  lemma {:induction false} ShlAddBound(h: nat, l: nat, a: nat, b: nat)
    requires h < Pow2(a) && l < Pow2(b)
    ensures Shl(h, b) + l < Pow2(a + b)
  {
    if b > 0 {
      ShlAddBound(h, l / 2, a, b - 1);
    }
  }

  lemma {:induction false} ShrShr(x: nat, a: nat, b: nat)
    ensures Shr(Shr(x, a), b) == Shr(x, a + b)
  {
    if a > 0 {
      ShrShr(x / 2, a - 1, b);
    }
  }

  lemma ZeroBits(k: nat)
    ensures Shr(0, k) == 0 && Low(0, k) == 0
  {
  }

  // ---- the group laws ------------------------------------------------------

  /** Every sub-field of the zero integer is zero. */
  lemma {:induction false} UnpackZero(ws: seq<nat>)
    ensures forall i :: 0 <= i < |ws| ==> Unpack(0, ws)[i] == 0
    decreases |ws|
  {
    if |ws| > 0 {
      ZeroBits(ws[|ws| - 1]);
      UnpackZero(ws[..|ws| - 1]);
      UnpackLast(0, ws);
    }
  }

  lemma PackLast(vs: seq<nat>, ws: seq<nat>)
    requires |vs| == |ws| > 0
    ensures Pack(vs, ws) ==
      Shl(Pack(vs[..|vs| - 1], ws[..|ws| - 1]), ws[|ws| - 1]) + Low(vs[|vs| - 1], ws[|ws| - 1])
  {
  }

  lemma UnpackLast(x: nat, ws: seq<nat>)
    requires |ws| > 0
    ensures Unpack(x, ws) == Unpack(Shr(x, ws[|ws| - 1]), ws[..|ws| - 1]) + [Low(x, ws[|ws| - 1])]
  {
  }

  lemma SumSnoc(ws: seq<nat>, w: nat)
    ensures Sum(ws + [w]) == Sum(ws) + w
  {
    assert (ws + [w])[..|ws|] == ws;
  }

  /** Unpacking one more sub-field at the low end. */
  lemma UnpackSnoc(x: nat, ws: seq<nat>, w: nat)
    ensures Unpack(x, ws + [w]) == Unpack(Shr(x, w), ws) + [Low(x, w)]
  {
    assert (ws + [w])[..|ws|] == ws;
  }

  /** Packing the unpacked sub-fields gives the integer back, bit for bit. */
  lemma {:induction false} PackUnpack(x: nat, ws: seq<nat>)
    requires x < Pow2(Sum(ws))
    ensures Pack(Unpack(x, ws), ws) == x
    decreases |ws|
  {
    if |ws| > 0 {
      var n := |ws|;
      var w := ws[n - 1];
      var ws' := ws[..n - 1];
      var hi := Shr(x, w);
      var lo := Low(x, w);
      ShrBound(x, Sum(ws'), w);
      PackUnpack(hi, ws');
      var u := Unpack(x, ws);
      UnpackLast(x, ws);
      assert u[..n - 1] == Unpack(hi, ws');
      LowBelow(lo, w);
      PackLast(u, ws);
      ShlShrLow(x, w);
    }
  }

  /** Sub-field values within their widths survive a pack and an unpack. */
  lemma {:induction false} UnpackPack(vs: seq<nat>, ws: seq<nat>)
    requires |vs| == |ws|
    requires forall i :: 0 <= i < |ws| ==> vs[i] < Pow2(ws[i])
    ensures Unpack(Pack(vs, ws), ws) == vs
  {
    if |ws| > 0 {
      var n := |ws|;
      var w := ws[n - 1];
      var v := vs[n - 1];
      var vs', ws' := vs[..n - 1], ws[..n - 1];
      var hi := Pack(vs', ws');
      var x := Pack(vs, ws);
      LowBelow(v, w);
      PackLast(vs, ws);
      assert x == Shl(hi, w) + v;
      ShrShlAdd(hi, v, w);
      assert forall i :: 0 <= i < n - 1 ==> vs'[i] < Pow2(ws'[i]);
      UnpackPack(vs', ws');
      UnpackLast(x, ws);
      assert Unpack(x, ws) == vs' + [v];
      assert vs == vs' + [v];
    }
  }

  lemma ShiftLast(ws: seq<nat>, i: nat)
    requires i < |ws| - 1
    ensures Shift(ws, i) == Shift(ws[..|ws| - 1], i) + ws[|ws| - 1]
  {
    assert ws[i + 1..][..|ws[i + 1..]| - 1] == ws[..|ws| - 1][i + 1..];
  }

  /** Sub-field `i` is the integer shifted right by the widths after it, masked. */
  lemma {:induction false} FieldValue(x: nat, ws: seq<nat>, i: nat)
    requires i < |ws|
    ensures Unpack(x, ws)[i] == Low(Shr(x, Shift(ws, i)), ws[i])
    decreases |ws|
  {
    var n := |ws|;
    var w := ws[n - 1];
    var ws' := ws[..n - 1];
    UnpackLast(x, ws);
    if i == n - 1 {
      assert ws[i + 1..] == [];
    } else {
      FieldValue(Shr(x, w), ws', i);
      ShiftLast(ws, i);
      ShrShr(x, w, Shift(ws', i));
    }
  }

  /** A one-bit sub-field is set exactly when its bit of the integer is set. */
  lemma FlagIsBit(x: nat, ws: seq<nat>, i: nat)
    requires i < |ws| && ws[i] == 1
    ensures Unpack(x, ws)[i] == 1 <==> BitSet(x, Shift(ws, i))
  {
    FieldValue(x, ws, i);
  }

  lemma {:induction false} SumAppend(a: seq<nat>, b: seq<nat>)
    ensures Sum(a + b) == Sum(a) + Sum(b)
    decreases |b|
  {
    if |b| > 0 {
      var b' := b[..|b| - 1];
      assert a + b == (a + b') + [b[|b| - 1]];
      SumSnoc(a + b', b[|b| - 1]);
      SumAppend(a, b');
      SumSnoc(b', b[|b| - 1]);
      assert b == b' + [b[|b| - 1]];
    } else {
      assert a + b == a;
    }
  }

  /**
   * A one-bit sub-field followed only by one-bit sub-fields is the bit whose
   * position counts those that follow it.
   */
  lemma OnesFlagIsBit(x: nat, ws: seq<nat>, i: nat)
    requires i < |ws| && forall j :: i <= j < |ws| ==> ws[j] == 1
    ensures Unpack(x, ws)[i] == 1 <==> BitSet(x, |ws| - 1 - i)
  {
    var tail := ws[i + 1..];
    assert forall j :: 0 <= j < |tail| ==> tail[j] == ws[i + 1 + j];
    SumOnes(tail);
    FlagIsBit(x, ws, i);
  }

  /** `n` one-bit sub-fields. */
  function Ones(n: nat): (r: seq<nat>)
    ensures |r| == n && forall i :: 0 <= i < n ==> r[i] == 1
  {
    seq(n, _ => 1)
  }

  /** Sum of a group of one-bit sub-fields. */
  lemma {:induction false} SumOnes(ws: seq<nat>)
    requires forall i :: 0 <= i < |ws| ==> ws[i] == 1
    ensures Sum(ws) == |ws|
    decreases |ws|
  {
    if |ws| > 0 {
      SumOnes(ws[..|ws| - 1]);
    }
  }

  /**
   * The list `inspect` prints for a bit-field group: the names of the one-bit
   * sub-fields whose value is 1, from sub-field `i` on, in declaration order.
   */
  function SetNames(vs: seq<nat>, ws: seq<nat>, names: seq<string>, i: nat): (r: seq<string>)
    requires |vs| == |ws| == |names| && i <= |ws|
    ensures forall n :: n in r <==> exists j :: i <= j < |ws| && ws[j] == 1 && vs[j] == 1 && names[j] == n
    ensures |r| <= |ws| - i
    decreases |ws| - i
  {
    if i == |ws| then []
    else
      var more := SetNames(vs, ws, names, i + 1);
      if ws[i] == 1 && vs[i] == 1 then [names[i]] + more else more
  }
}
