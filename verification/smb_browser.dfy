/**
 * The SMB Browser sub-protocol of Trans requests: an 8-bit opcode and a
 * body. Reading the generic class looks the opcode up in `OPCODES`; when a
 * class of that name is defined, that class reads the whole input again,
 * and otherwise the generic opcode and body are read.
 */
module SmbBrowser {
  import opened Bytes
  import opened Enums

  /** `OPCODES`. */
  const OpcodeNames: seq<string> := [
    "HostAnnouncement", "HostAnnouncementReq", "RequestElection", "GetBackupListReq", "GetBackupListResp",
    "BecomeBackup", "DomainAnnouncement", "MasterAnnouncement", "ResetStateRequest", "LocalMasterAnnouncement"]
  const OpcodeValues: seq<nat> := [1, 2, 8, 9, 10, 11, 12, 13, 14, 15]
  const Opcodes: Table := Zip(OpcodeNames, OpcodeValues)

  /** The announcement classes defined under `Browser`. */
  const ClassNames: seq<string> := ["HostAnnouncement", "DomainAnnouncement", "LocalMasterAnnouncement"]

  /** The opcodes whose class is defined. */
  const ClassOpcodes: seq<nat> := [1, 12, 15]

  /** `to_human` of the opcode: its name, or the unknown form. */
  function OpcodeName(v: nat): (r: EnumName)
    ensures r.Known? <==> v in OpcodeValues
    ensures r.Unknown? ==> r.value == v
  {
    NameOf(Opcodes, v)
  }

  /** The class of an opcode, when one of that name is defined. */
  function ClassOf(v: nat): (r: Option<string>)
    ensures r.Some? ==> r.value in ClassNames && OpcodeName(v) == Known(r.value)
  {
    match OpcodeName(v)
    case Known(name) => if name in ClassNames then Some(name) else None
    case Unknown(_) => None
  }

  /** Exactly the opcodes 1, 12 and 15 have a class, named as the table names them. */
  lemma ClassOfOpcode(v: nat)
    ensures ClassOf(v).Some? <==> v in ClassOpcodes
    ensures v == 1 ==> ClassOf(v) == Some("HostAnnouncement")
    ensures v == 12 ==> ClassOf(v) == Some("DomainAnnouncement")
    ensures v == 15 ==> ClassOf(v) == Some("LocalMasterAnnouncement")
  {
    var t := Opcodes;
    if v == 1 {
      NameOfFirst(t, v, 0);
    } else if v == 12 {
      NameOfFirst(t, v, 6);
    } else if v == 15 {
      NameOfFirst(t, v, 9);
    } else if ClassOf(v).Some? {
      var i :| 0 <= i < |t| && t[i] == (ClassOf(v).value, v);
      ClassNameIndex(i);
      assert false;
    }
  }

  /** Only the announcement entries of the table carry a class name. */
  lemma ClassNameIndex(i: nat)
    requires i < |OpcodeNames|
    ensures OpcodeNames[i] in ClassNames ==> i == 0 || i == 6 || i == 9
  {
  }

  // ---- the generic frame -------------------------------------------------------

  datatype Browser = Browser(opcode: nat, body: seq<byte>)

  /** The opcode fits its byte. */
  predicate WellFormed(b: Browser) {
    b.opcode < 256
  }

  function ToBytes(b: Browser): (r: seq<byte>)
    requires WellFormed(b)
    ensures |r| == 1 + |b.body| && r[0] == b.opcode
  {
    [b.opcode as byte] + b.body
  }

  /** What a read of the generic class gives. */
  datatype Parsed =
    | Plain(browser: Browser)                       // the generic opcode and body
    | Announcement(className: string, input: seq<byte>)  // the named class reads `input`

  /**
   * `read`: nil leaves the object as it is; otherwise the first byte is the
   * opcode, a defined class reads the whole input, and any other opcode,
   * unknown ones included, gives the generic read.
   */
  function Read(self: Browser, str: Option<seq<byte>>): (r: Result<Parsed>)
    ensures str.None? ==> r == Ok(Plain(self))
    ensures str.Some? ==> (r.Ok? <==> |str.value| > 0)
    ensures str.Some? && r.Ok? && r.value.Announcement? ==>
      r.value.input == str.value && ClassOf(str.value[0]) == Some(r.value.className)
    ensures str.Some? && r.Ok? && r.value.Plain? ==>
      WellFormed(r.value.browser) && ToBytes(r.value.browser) == str.value && ClassOf(str.value[0]).None?
  {
    match str
    case None => Ok(Plain(self))
    case Some(s) =>
      if |s| == 0 then Err(Truncated)
      else
        match ClassOf(s[0])
        case Some(name) => Ok(Announcement(name, s))
        case None =>
          assert [s[0]] + s[1..] == s;
          Ok(Plain(Browser(s[0], s[1..])))
  }

  /** A frame whose opcode has no class is read back as itself. */
  lemma ReadToBytes(self: Browser, b: Browser)
    requires WellFormed(b) && b.opcode !in ClassOpcodes
    ensures Read(self, Some(ToBytes(b))) == Ok(Plain(b))
  {
    ClassOfOpcode(b.opcode);
    assert ToBytes(b)[1..] == b.body;
  }

  /** A frame starting with an announcement opcode is handed whole to its class. */
  lemma ReadAnnouncement(self: Browser, s: seq<byte>)
    requires |s| > 0 && s[0] in ClassOpcodes
    ensures Read(self, Some(s)).Ok? && Read(self, Some(s)).value.Announcement?
    ensures Read(self, Some(s)).value.input == s
  {
    ClassOfOpcode(s[0]);
  }

  /**
   * `read` as lib/packetgen/plugin/smb/browser.rb:55 writes it: the name of
   * an opcode outside `OPCODES` is the unknown form, which is not a valid
   * constant name, so `const_defined?` raises NameError instead of letting
   * the generic read take over.
   */
  function ReadAsWritten(self: Browser, str: Option<seq<byte>>): (r: Result<Parsed>)
    ensures r.Err? <==> str.Some? && (|str.value| == 0 || str.value[0] !in OpcodeValues)
    ensures r.Ok? ==> r == Read(self, str)
  {
    match str
    case None => Ok(Plain(self))
    case Some(s) =>
      if |s| == 0 then Err(Truncated)
      else if OpcodeName(s[0]).Unknown? then Err(NameError)
      else Read(self, str)
  }

  /** Opcode 3 is not in the table: the written read raises, the generic read keeps the frame. */
  lemma UnknownOpcodeRaises()
    ensures ReadAsWritten(Browser(0, []), Some([3])) == Err(NameError)
    ensures Read(Browser(0, []), Some([3])) == Ok(Plain(Browser(3, [])))
  {
    ReadToBytes(Browser(0, []), Browser(3, []));
    assert ToBytes(Browser(3, [])) == [3];
  }
}
