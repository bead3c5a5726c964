/**
 * NTLM AV_PAIR lists: type/length/value triples read one after the other
 * to the end of the input. After the read, everything behind the first
 * end-of-list pair (type 0) is dropped; each pair's value class follows its
 * type.
 */
module NtlmAvPair {
  import opened Bytes
  import opened Enums

  /** `AVPAIR_TYPES`: the names with their values 0 to 10. */
  const TypeNames: seq<string> := [
    "EOL", "ComputerName", "DomainName", "DnsComputerName", "DnsDomainName", "DnsTreeName", "Flags",
    "Timestamp", "SingleHost", "TargetName", "ChannelBindings"]
  const Types: Table := Indexed(TypeNames)

  /** The value of an end-of-list pair. */
  const Eol: nat := 0

  /** The class a pair is read as. */
  datatype PairClass =
    | Plain       // AvPair: the value is an SMB string
    | Timestamp   // TimestampAvPair: the value is a FILETIME
    | Int32       // Int32leAvPair: the value is a little-endian 32-bit integer
    | Str         // StringAvPair: the value is a binary string

  /** `real_type`: the class of a pair, chosen by its type. */
  function RealType(avType: nat): (r: PairClass)
    ensures r == Timestamp <==> avType == 7
    ensures r == Int32 <==> avType == 6
    ensures r == Str <==> avType == 8 || avType == 10
  {
    if avType == 7 then Timestamp
    else if avType == 6 then Int32
    else if avType == 8 || avType == 10 then Str
    else Plain
  }

  /** The table is fixed: value `i` prints as the `i`-th name, and no other value has a name. */
  lemma TypeTable(i: nat)
    ensures i < |TypeNames| ==> NameOf(Types, i) == Known(TypeNames[i])
    ensures i >= |TypeNames| ==> NameOf(Types, i) == Unknown(i)
  {
    if i < |TypeNames| {
      NameOfFirst(Types, i, i);
    }
  }

  // ---- one pair ----------------------------------------------------------------

  datatype AvPair = AvPair(avType: nat, length: nat, value: seq<byte>)

  /** Size of the type and length fields. */
  const HeadSize: nat := 4

  /** Both integers fit 16 bits and the length is that of the value. */
  predicate WellFormed(p: AvPair) {
    Fits(p.avType, 2) && Fits(p.length, 2) && p.length == |p.value|
  }

  function PairBytes(p: AvPair): (r: seq<byte>)
    ensures |r| == HeadSize + |p.value|
  {
    LE(p.avType, 2) + (LE(p.length, 2) + p.value)
  }

  /** Reads a pair: the type and the length need their bytes; the value takes up to `length` bytes. */
  function ReadPair(s: seq<byte>): (r: Result<(AvPair, seq<byte>)>)
    ensures r.Ok? <==> |s| >= HeadSize
    ensures r.Ok? ==> PairBytes(r.value.0) + r.value.1 == s && |r.value.1| < |s|
    ensures r.Ok? ==> Fits(r.value.0.avType, 2) && Fits(r.value.0.length, 2) && |r.value.0.value| <= r.value.0.length
  {
    var t :- ReadLE(s, 2);
    var l :- ReadLE(t.1, 2);
    var v := TakeUpTo(l.1, l.0);
    PairBytesThen(AvPair(t.0, l.0, v.0), v.1);
    Ok((AvPair(t.0, l.0, v.0), v.1))
  }

  lemma PairBytesThen(p: AvPair, rest: seq<byte>)
    ensures PairBytes(p) + rest == LE(p.avType, 2) + (LE(p.length, 2) + (p.value + rest))
  {
  }

  lemma ReadPairOfBytes(p: AvPair, rest: seq<byte>)
    requires WellFormed(p)
    ensures ReadPair(PairBytes(p) + rest) == Ok((p, rest))
  {
    var t1 := LE(p.length, 2) + (p.value + rest);
    assert PairBytes(p) + rest == LE(p.avType, 2) + t1;
    ReadLEOfLE(p.avType, 2, t1);
    ReadLEOfLE(p.length, 2, p.value + rest);
    TakeUpToOfPrefix(p.value, rest);
  }

  // ---- the list ----------------------------------------------------------------

  predicate AllWellFormed(l: seq<AvPair>) {
    forall i :: 0 <= i < |l| ==> WellFormed(l[i])
  }

  function ListBytes(l: seq<AvPair>): seq<byte> {
    if |l| == 0 then [] else PairBytes(l[0]) + ListBytes(l[1..])
  }

  /** The array read: pairs one after the other until the input is used up. */
  function ReadList(s: seq<byte>): (r: Result<seq<AvPair>>)
    ensures r.Ok? ==> ListBytes(r.value) == s
    decreases |s|
  {
    if |s| == 0 then Ok([])
    else
      var p :- ReadPair(s);
      var rest :- ReadList(p.1);
      assert ([p.0] + rest)[1..] == rest;
      Ok([p.0] + rest)
  }

  /** Well-formed pairs are read back from their bytes. */
  lemma {:induction false} ReadListOfBytes(l: seq<AvPair>)
    requires AllWellFormed(l)
    ensures ReadList(ListBytes(l)) == Ok(l)
    decreases |l|
  {
    if |l| > 0 {
      var rest := ListBytes(l[1..]);
      ReadPairOfBytes(l[0], rest);
      ReadListOfBytes(l[1..]);
      assert [l[0]] + l[1..] == l;
    }
  }

  // ---- truncation at the end of the list --------------------------------------

  /** Position of the first end-of-list pair, if any. */
  function FirstEol(l: seq<AvPair>): (r: Option<nat>)
    ensures r.Some? ==> r.value < |l| && l[r.value].avType == Eol
    ensures r.Some? ==> forall j :: 0 <= j < r.value ==> l[j].avType != Eol
    ensures r.None? ==> forall j :: 0 <= j < |l| ==> l[j].avType != Eol
  {
    if |l| == 0 then None
    else if l[0].avType == Eol then Some(0)
    else
      var r := FirstEol(l[1..]);
      assert forall j :: 1 <= j < |l| ==> l[j] == l[1..][j - 1];
      if r.Some? then Some(r.value + 1) else None
  }

  /**
   * The truncation `read` means to make: the pairs up to and including the
   * first end-of-list pair, or all of them when there is none.
   */
  function Truncate(l: seq<AvPair>): (r: seq<AvPair>)
    ensures |r| <= |l| && r == l[..|r|]
    ensures forall j :: 0 <= j < |r| - 1 ==> r[j].avType != Eol
    ensures (exists j :: 0 <= j < |l| && l[j].avType == Eol) <==> |r| > 0 && r[|r| - 1].avType == Eol
    ensures (forall j :: 0 <= j < |l| ==> l[j].avType != Eol) ==> r == l
  {
    match FirstEol(l)
    case None => l
    case Some(i) => l[..i + 1]
  }

  /** Truncating twice truncates once. */
  lemma TruncateIdempotent(l: seq<AvPair>)
    ensures Truncate(Truncate(l)) == Truncate(l)
  {
    var r := Truncate(l);
    if |r| > 0 && r[|r| - 1].avType == Eol {
      assert FirstEol(r) == Some(|r| - 1);
    }
  }

  /** A list ending at its first end-of-list pair is cut back from any longer list. */
  lemma TruncateOfPrefix(l: seq<AvPair>, more: seq<AvPair>)
    requires |l| > 0 && l[|l| - 1].avType == Eol
    requires forall j :: 0 <= j < |l| - 1 ==> l[j].avType != Eol
    ensures Truncate(l + more) == l
  {
    var s := l + more;
    assert s[|l| - 1].avType == Eol;
    assert forall j :: 0 <= j < |l| - 1 ==> s[j] == l[j];
    assert FirstEol(s) == Some(|l| - 1);
    assert s[..|l|] == l;
  }

  /**
   * The truncation as lib/packetgen/plugin/ntlm/av_pair.rb:63-70 writes it:
   * `each_with_index` gives `i + 1` when it breaks at an end-of-list pair,
   * but the receiver itself when it runs through, and comparing that array
   * with `>=` raises NoMethodError.
   */
  function TruncateAsWritten(l: seq<AvPair>): (r: Result<seq<AvPair>>)
    ensures r.Err? <==> forall j :: 0 <= j < |l| ==> l[j].avType != Eol
    ensures r.Ok? ==> r.value == Truncate(l)
  {
    match FirstEol(l)
    case None => Err(NoMethodError)
    case Some(i) =>
      var stop := i + 1;
      if stop >= |l| then Ok(l) else Ok(l[..stop])
  }

  /** A list without end-of-list pair, even the empty one, makes the written truncation fail. */
  lemma NoEolRaises()
    ensures TruncateAsWritten([]) == Err(NoMethodError)
    ensures TruncateAsWritten([AvPair(2, 0, [])]) == Err(NoMethodError)
    ensures Truncate([AvPair(2, 0, [])]) == [AvPair(2, 0, [])]
  {
  }

  /** `ArrayOfAvPair#read`: the pairs, cut after the first end-of-list pair. */
  function ReadArray(s: seq<byte>): (r: Result<seq<AvPair>>)
    ensures r.Ok? ==> exists l :: ReadList(s) == Ok(l) && r.value == Truncate(l)
    ensures ReadList(s).Err? ==> r.Err?
  {
    var l :- ReadList(s);
    Ok(Truncate(l))
  }

  /** Well-formed pairs ending at their first end-of-list pair are read back, whatever follows them. */
  lemma ReadArrayOfBytes(l: seq<AvPair>, more: seq<AvPair>)
    requires AllWellFormed(l) && AllWellFormed(more)
    requires |l| > 0 && l[|l| - 1].avType == Eol
    requires forall j :: 0 <= j < |l| - 1 ==> l[j].avType != Eol
    ensures ReadArray(ListBytes(l + more)) == Ok(l)
  {
    assert AllWellFormed(l + more) by {
      forall i | 0 <= i < |l + more|
        ensures WellFormed((l + more)[i])
      {
        if i >= |l| {
          assert (l + more)[i] == more[i - |l|];
        }
      }
    }
    ReadListOfBytes(l + more);
    TruncateOfPrefix(l, more);
  }

  // ---- vector ------------------------------------------------------------------

  /** Types of the target information of a captured Challenge message. */
  const ChallengeTypes: seq<nat> := [2, 1, 4, 3, 7, 0]

  /** The six pairs are read as four SMB-string pairs, a timestamp and the end of the list. */
  lemma ChallengeVector(l: seq<AvPair>)
    requires |l| == 6 && forall i :: 0 <= i < 6 ==> l[i].avType == ChallengeTypes[i]
    ensures Truncate(l) == l
    ensures forall i :: 0 <= i < 6 ==> RealType(l[i].avType) == (if i == 4 then Timestamp else Plain)
  {
    assert l[5].avType == Eol;
    assert FirstEol(l) == Some(5);
    assert l[..6] == l;
  }
}
