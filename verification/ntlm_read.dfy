/**
 * `NTLM.read`: the bytes are first read as a generic frame; a type the
 * `TYPES` table names selects the class of that name, which reads the whole
 * input again, and any other type keeps the generic frame. Of the three
 * classes only Negotiate is loaded (lib/packetgen/plugin/ntlm.rb:86-88
 * leave the Challenge and Authenticate requires commented out), so asking
 * for either constant raises NameError.
 */
module NtlmRead {
  import opened Bytes
  import Ntlm
  import NtlmNegotiate

  /** What `NTLM.read` returns. */
  datatype Parsed = Generic(message: Ntlm.Message) | Negotiate(negotiate: NtlmNegotiate.Negotiate)

  /** The class of a known message type is loaded only for `negotiate`. */
  function Read(s: seq<byte>): (r: Result<Parsed>)
    ensures |s| < Ntlm.FrameSize ==> r == Err(Truncated)
    ensures r.Ok? && r.value.Generic? ==>
      Ntlm.Read(s) == Ok(r.value.message) && !(1 <= r.value.message.msgType <= 3)
    ensures r.Ok? && r.value.Negotiate? ==>
      NtlmNegotiate.Read(s) == Ok(r.value.negotiate) && r.value.negotiate.msgType == 1
    ensures Ntlm.Read(s).Ok? && !(1 <= Ntlm.Read(s).value.msgType <= 3) ==> r == Ok(Generic(Ntlm.Read(s).value))
    ensures Ntlm.Read(s).Ok? && 2 <= Ntlm.Read(s).value.msgType <= 3 ==> r == Err(NameError)
    ensures Ntlm.Read(s).Ok? && Ntlm.Read(s).value.msgType == 1 ==>
      (r.Ok? <==> |s| >= 8 + Total(NtlmNegotiate.Widths))
  {
    var m :- Ntlm.Read(s);
    match Ntlm.TypeName(m.msgType)
    case Unknown(_) => Ok(Generic(m))
    case Known(name) =>
      if name == "negotiate" then
        var n :- NtlmNegotiate.Read(s);
        SameType(s);
        Ok(Negotiate(n))
      else Err(NameError)
  }

  /** The frame and the Negotiate class read the same type from the same bytes. */
  lemma SameType(s: seq<byte>)
    requires Ntlm.Read(s).Ok? && NtlmNegotiate.ReadFields(s).Ok?
    ensures NtlmNegotiate.ReadFields(s).value.msgType == Ntlm.Read(s).value.msgType
  {
    var m := Ntlm.Read(s).value;
    var n := NtlmNegotiate.ReadFields(s).value;
    var v := NtlmNegotiate.Ints(n);
    var ws := NtlmNegotiate.Widths;
    assert WriteInts(v, ws) == LE(v[0], 4) + WriteInts(v[1..], ws[1..]);
    assert s[8..12] == LE(m.msgType, 4);
    assert s[8..12] == LE(n.msgType, 4);
    assert Fits(n.msgType, 4);
    FromLEOfLE(m.msgType, 4);
    FromLEOfLE(n.msgType, 4);
  }

  /** A Negotiate message written with fitting fields is read back as a Negotiate message. */
  lemma ReadNegotiate(n: NtlmNegotiate.Negotiate)
    requires NtlmNegotiate.WellFormed(n) && n.msgType == 1
    ensures Read(NtlmNegotiate.FieldBytes(n)).Ok?
    ensures Read(NtlmNegotiate.FieldBytes(n)).value.Negotiate?
  {
    var s := NtlmNegotiate.FieldBytes(n);
    NtlmNegotiate.ReadFieldsOfFields(n);
    SameType(s);
  }

  /** A frame of a type outside the table is read back unchanged. */
  lemma ReadGeneric(m: Ntlm.Message)
    requires Ntlm.WellFormed(m) && !(1 <= m.msgType <= 3)
    ensures Read(Ntlm.ToBytes(m)) == Ok(Generic(m))
  {
    Ntlm.ReadToBytes(m);
  }
}
