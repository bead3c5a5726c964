# packetgen-plugin-smb layouts in Dafny

This project models the protocol logic of packetgen-plugin-smb. That Ruby library declares the binary layouts of SMB (version 1), SMB2, NTLM and the NetBIOS name and datagram services for the PacketGen packet framework. The model covers the parts of those declarations that carry logic of their own:

- the `calc_length` methods and alignment pads, which tie length, offset and pad fields to variable content;
- the presence predicates, which decide whether an optional field is on the wire;
- the bit-field groups of the flag words;
- the enumeration tables;
- the small codecs: NetBIOS first-level names, GUID text, SMB strings and AV_PAIR lists;
- the class dispatch of `NTLM.read` and of the Browser `read`.

Each message is an immutable datatype. Its wire form is a pure function to a sequence of bytes, and its reader is a pure function that returns a `Result`. For every layout whose fields are modelled, the reader gives back the message its writer produced. Where a field's content comes from code outside this model (the datagram names and data, the Browser announcement classes), the reader gives back its bytes.

There is one module per source file:

- `NetBIOSName` models `netbios/name.rb`.
- `NetBIOSDatagram` models `netbios/datagram.rb`.
- `Smb2Base` models `smb2/base.rb`.
- `Smb2Context`, `Smb2NegotiateRequest` and `Smb2NegotiateResponse` model `smb2/negotiate/`.
- `Smb2SessionSetupRequest` models `smb2/session_setup/request.rb`.
- `Smb2Header` models `smb2.rb`.
- `Smb2Guid` models `smb2/guid.rb`.
- `Ntlm` and `NtlmRead` model `ntlm.rb`.
- `NtlmNegotiate` models `ntlm/negotiate.rb`.
- `NtlmAvPair` models `ntlm/av_pair.rb`.
- `SmbHeader` models `smb.rb`.
- `SmbBlocks` models `smb/blocks.rb`.
- `SmbString` models `smb/string.rb`.
- `SmbNtCreateRequest` models `smb/ntcreateandx/request.rb`.
- `SmbTrans`, `SmbTransRequest` and `SmbTransResponse` model `smb/trans/`. `SmbTrans` holds what the request and the response share.
- `SmbBrowser` models `smb/browser.rb`.

The PacketGen/BinStruct field engine underneath is not part of the repository. Four helper modules give it the minimal meaning the schemas rely on:

- `Bytes`: little- and big-endian integers, runs of integer fields, and Ruby's `String#[start, length]`.
- `BitFields`: bit-field groups. The first declared sub-field is the most significant bit.
- `Enums`: enumeration tables.
- `Lists`: array fields, read up to a counter or to the end of the input.

Their lemmas are the laws the schema proofs build on. They need no row of their own below.

Three Ruby core methods are modelled where the schemas depend on them. `Smb2Guid.ParseHex` follows `String#to_i(16)`: leading blanks, an optional sign, an optional `0x`, and digits with single underscores between them. `SmbString.TakeChars` follows `String#[0, n]` on UTF-16LE text, which counts characters; a surrogate pair is one character. `SmbString.Encode` follows `String#encode('UTF-16LE')` on text given by its characters.

Paths in the table are relative to the repository root.

## Model

| member | source | states |
|---|---|---|
| NetBIOSName.StripTrailingDots | lib/packetgen/plugin/netbios/name.rb:39-41 | the text `split('.')` leaves: a prefix with no trailing dot, having dropped only dots |
| NetBIOSName.EncodeBytes | lib/packetgen/plugin/netbios/name.rb:43-47 | each byte of the basename becomes two characters |
| NetBIOSName.EncodeBytesNibbles | lib/packetgen/plugin/netbios/name.rb:43-47 | character 2i is 'A' plus the high nibble of byte i, character 2i+1 is 'A' plus its low nibble |
| NetBIOSName.Padding | lib/packetgen/plugin/netbios/name.rb:48 | n copies of "CA": 'C' at even positions, 'A' at odd ones |
| NetBIOSName.EncodedBase | lib/packetgen/plugin/netbios/name.rb:43-48 | the first label is the nibble letters followed by "CA" pairs, exactly 32 characters when the basename has fewer than 16 bytes |
| NetBIOSName.EncodedBaseLetters | lib/packetgen/plugin/netbios/name.rb:43-48 | every character of the first label lies between 'A' and 'P' |
| NetBIOSName.EncodeName | lib/packetgen/plugin/netbios/name.rb:38-51 | the text before the first dot is the encoded basename; the text after it is the scope id, not encoded |
| NetBIOSName.FromHuman | lib/packetgen/plugin/netbios/name.rb:21-27 | nil leaves the name cleared; any other string gives its encoded form |
| NetBIOSName.DecodePair | lib/packetgen/plugin/netbios/name.rb:56-58 | the decoded byte's high nibble is (a - 'A') mod 16 and its low nibble (b - 'A') mod 16 |
| NetBIOSName.DecodePairs | lib/packetgen/plugin/netbios/name.rb:55-59 | the pair scan yields at most one byte per two characters |
| NetBIOSName.LStrip | lib/packetgen/plugin/netbios/name.rb:60 | removes exactly the leading whitespace: a suffix, not starting with whitespace |
| NetBIOSName.RStrip | lib/packetgen/plugin/netbios/name.rb:60 | removes exactly the trailing whitespace: a prefix, not ending with whitespace |
| NetBIOSName.DecodeName | lib/packetgen/plugin/netbios/name.rb:53-61 | the decoded name has at most half as many bytes as the first label and neither starts nor ends with whitespace |
| NetBIOSName.DecodePairOfEncode | lib/packetgen/plugin/netbios/name.rb:43-58 | decoding the two letters of a byte gives the byte back |
| NetBIOSName.DecodeEncodeBytes | lib/packetgen/plugin/netbios/name.rb:43-59 | decoding the nibble letters of a byte string gives the string back, whatever follows |
| NetBIOSName.Spaces | lib/packetgen/plugin/netbios/name.rb:60 | n space characters |
| NetBIOSName.DecodePadding | lib/packetgen/plugin/netbios/name.rb:48-59 | the "CA" padding decodes to spaces |
| NetBIOSName.RStripTrailingSpaces | lib/packetgen/plugin/netbios/name.rb:60 | trailing spaces added to a string do not survive the strip |
| NetBIOSName.DecodeEncodedBase | lib/packetgen/plugin/netbios/name.rb:43-59 | the first label decodes to the basename followed by spaces |
| NetBIOSName.DecodeEncodeName | lib/packetgen/plugin/netbios/name.rb:38-61 | decoding an encoded name gives its basename, stripped; the scope id plays no part |
| NetBIOSName.DecodeEncodeTrimmed | lib/packetgen/plugin/netbios/name.rb:38-61 | a basename without surrounding whitespace survives the round trip exactly |
| NetBIOSName.StripUnchanged | lib/packetgen/plugin/netbios/name.rb:60 | a string without surrounding whitespace is unchanged by the strip |
| NetBIOSName.DecodeIgnoresScope | lib/packetgen/plugin/netbios/name.rb:55 | whatever follows the first dot has no effect on decoding |
| NetBIOSName.FredEncodes | spec/netbios_spec.rb:14-17 | "FRED.NETBIOS.COM" encodes to the letters of "FRED", twelve "CA" pairs, a dot and "NETBIOS.COM" |
| NetBIOSName.FredLettersOfFred | spec/netbios_spec.rb:14-17 | the nibble letters of "FRED" are "EGFCEFEE" |
| NetBIOSName.FredDecodes | spec/netbios_spec.rb:20-24 | that encoded form decodes to "FRED" |
| Smb2Base.PadLength | lib/packetgen/plugin/smb2/base.rb:22-24 | the pad is shorter than 8 and brings the end of the previous field to a multiple of 8 |
| Smb2Base.PadLengthIsLeast | lib/packetgen/plugin/smb2/base.rb:22-24 | no shorter pad aligns: any aligning length is at least the pad |
| Smb2Base.PadAfter | lib/packetgen/plugin/smb2/base.rb:19-27 | the pad length depends only on the offset and size of the field declared just before it, and aligns its end |
| Smb2Base.RequestPadVector | spec/smb2/negotiate_spec.rb:69-75 | with dialects starting at 36, a read takes a pad of (4 - 2i) mod 8 bytes after i dialects |
| Smb2Base.ResponsePadVector | spec/smb2/negotiate_spec.rb:165-171 | a read takes a pad of (8 - i) mod 8 bytes after an i-byte buffer at offset 64 |
| Smb2Context.HumanType | lib/packetgen/plugin/smb2/negotiate/context.rb:26-56 | a type has a name exactly when it is 1 or 2; any other type prints as the unknown form of its value |
| Smb2Context.HumanTypeMatchesTable | lib/packetgen/plugin/smb2/negotiate/context.rb:26-62 | the printed type and a lookup of its name in `TYPES` agree in both directions |
| Smb2Context.PadSize | lib/packetgen/plugin/smb2/negotiate/context.rb:50 | the pad is shorter than 8 and brings 8 + `data_length` to a multiple of 8 |
| Smb2Context.WidthsTotal | lib/packetgen/plugin/smb2/negotiate/context.rb:34-42 | the data starts at offset 8: type 2, length 2, reserved 4 |
| Smb2Context.ToBytes | lib/packetgen/plugin/smb2/negotiate/context.rb:34-50 | a context's size is 8 plus its data plus its pad |
| Smb2Context.Read | lib/packetgen/plugin/smb2/negotiate/context.rb:34-50 | the read needs the 8 integer bytes, writes back what it consumed, and takes `data_length` data bytes, fewer when the input ends |
| Smb2Context.ReadToBytes | lib/packetgen/plugin/smb2/negotiate/context.rb:34-50 | a well-formed context is read back from its bytes, whatever follows |
| Smb2Context.SizeAligned | lib/packetgen/plugin/smb2/negotiate/context.rb:46-50 | a context that follows its length rules fills a multiple of 8 bytes |
| Smb2Context.CalcLength | lib/packetgen/plugin/smb2/negotiate/response.rb:185 | `data_length` becomes the data size; no other field changes |
| Smb2Context.ReaderLaws | lib/packetgen/plugin/smb2/negotiate/context.rb:70-72 | the context reader consumes input, writes back what it read and inverts the writer, as an array of contexts needs |
| Smb2Context.ReadList | lib/packetgen/plugin/smb2/negotiate/context.rb:70-72 | an array read with a counter: at most that many contexts, writing back what was consumed, stopping early only at the end of the input |
| Smb2Context.ReadListOfConcat | lib/packetgen/plugin/smb2/negotiate/context.rb:70-72 | well-formed contexts written one after another read back as the same list |
| Smb2Context.ReadToEnd | lib/packetgen/plugin/smb2/negotiate/request.rb:125 | an array without counter consumes the whole input and writes it back |
| Smb2Context.ReadToEndOfConcat | lib/packetgen/plugin/smb2/negotiate/request.rb:125 | well-formed contexts written one after another read back to the end |
| Smb2Context.CalcAll | lib/packetgen/plugin/smb2/negotiate/response.rb:185 | every context of the array gets its own length update, in order |
| Smb2Context.ListAligned | lib/packetgen/plugin/smb2/negotiate/context.rb:46-50 | well-formed contexts one after another fill a multiple of 8 bytes |
| Smb2NegotiateRequest.SecurityModeName | lib/packetgen/plugin/smb2/negotiate/request.rb:48-64 | a security mode has a name exactly when it is 1 or 2 |
| Smb2NegotiateRequest.SecurityModeMatchesTable | lib/packetgen/plugin/smb2/negotiate/request.rb:48-51 | the printed mode and a lookup of its name agree in both directions |
| Smb2NegotiateRequest.CapIsBit | lib/packetgen/plugin/smb2/negotiate/request.rb:94-96 | capability i, from encryption down to dfs, is set exactly when bit 7 - i is |
| Smb2NegotiateRequest.SetCapabilities | lib/packetgen/plugin/smb2/negotiate/request.rb:132-138 | the printed list holds exactly the names of the one-bit capabilities that are set |
| Smb2NegotiateRequest.Capabilities0x7f | lib/packetgen/plugin/smb2/negotiate/request.rb:94-96 | capabilities 0x7f set all seven capabilities |
| Smb2NegotiateRequest.WidthsTotal | lib/packetgen/plugin/smb2/negotiate/request.rb:56-111 | the fields before `dialects` take 36 bytes, the default structure size |
| Smb2NegotiateRequest.PadSize | lib/packetgen/plugin/smb2/negotiate/request.rb:120 | the pad after n dialects is shorter than 8 and aligns 36 + 2n |
| Smb2NegotiateRequest.Make | lib/packetgen/plugin/smb2/negotiate/request.rb:56-125 | the request built from field runs holds exactly those fields |
| Smb2NegotiateRequest.Read | lib/packetgen/plugin/smb2/negotiate/request.rb:56-125 | fails below 36 bytes; writes back its input; at most `dialect_count` dialects, and when fewer, nothing after them |
| Smb2NegotiateRequest.ReadVariable | lib/packetgen/plugin/smb2/negotiate/request.rb:115-125 | the dialects, pad and contexts read after the fixed part keep the fixed fields and write back the input |
| Smb2NegotiateRequest.ReadToBytes | lib/packetgen/plugin/smb2/negotiate/request.rb:56-125 | a well-formed request is read back from its bytes |
| Smb2NegotiateRequest.ContextsAligned | lib/packetgen/plugin/smb2/negotiate/request.rb:116-125 | in a well-formed request every context starts 8-byte aligned from the start of the SMB2 header |
| Smb2NegotiateRequest.ListAlignedAfter | lib/packetgen/plugin/smb2/negotiate/request.rb:120 | dialects, the pad they call for and well-formed contexts end aligned after the 64-byte header |
| Smb2NegotiateResponse.WidthsTotal | lib/packetgen/plugin/smb2/negotiate/response.rb:64-140 | the fields before `buffer` take 64 bytes |
| Smb2NegotiateResponse.PadSize | lib/packetgen/plugin/smb2/negotiate/response.rb:148 | the pad after an n-byte buffer is shorter than 8 and aligns 64 + n |
| Smb2NegotiateResponse.Make | lib/packetgen/plugin/smb2/negotiate/response.rb:64-153 | the response built from field runs holds exactly those fields |
| Smb2NegotiateResponse.Read | lib/packetgen/plugin/smb2/negotiate/response.rb:64-153 | fails below 64 bytes; writes back what it consumed; never more contexts than `context_count` |
| Smb2NegotiateResponse.ReadVariable | lib/packetgen/plugin/smb2/negotiate/response.rb:143-153 | buffer, pad and counted contexts read after the fixed part keep the fixed fields and write back what they consumed |
| Smb2NegotiateResponse.ToBytesLength | lib/packetgen/plugin/smb2/negotiate/response.rb:64-153 | the size is 64 plus buffer, pad and contexts |
| Smb2NegotiateResponse.MakeToBytes | lib/packetgen/plugin/smb2/negotiate/response.rb:64-153 | a built response writes its integer runs, GUID, buffer, pad and contexts in declaration order |
| Smb2NegotiateResponse.ReadToBytes | lib/packetgen/plugin/smb2/negotiate/response.rb:64-153 | a well-formed response is read back from its bytes, whatever follows |
| Smb2NegotiateResponse.CalcLength | lib/packetgen/plugin/smb2/negotiate/response.rb:181-186 | buffer offset 128, buffer length the buffer size, context offset 128 plus buffer and pad, every context's length updated, nothing else changed |
| Smb2NegotiateResponse.CalcLengthIdempotent | lib/packetgen/plugin/smb2/negotiate/response.rb:181-186 | a second `calc_length` changes nothing |
| Smb2NegotiateResponse.CalcLengthLocates | lib/packetgen/plugin/smb2/negotiate/response.rb:181-184 | behind any 64-byte header, the buffer offset and length cut out the buffer and the context offset points at the contexts |
| Smb2NegotiateResponse.DefaultCalcLength | lib/packetgen/plugin/smb2/negotiate/response.rb:143-184 | a default response, whose buffer is the DER of a default GSSAPI object, gets buffer offset 128, buffer length the DER size and context offset 136 plus the DER size, and keeps `security_mode` at `signing_enabled` |
| Smb2NegotiateResponse.EmptyBufferCalcLength | spec/smb2/negotiate_spec.rb:144-157 | with an empty security buffer, the offsets are the test's 128 and 136 and the buffer length is 0 |
| Smb2NegotiateResponse.Capabilities0x2f | spec/smb2/negotiate_spec.rb:103 | capabilities 0x2f set dir_leasing, multi_channel, large_mtu, leasing and dfs |
| Smb2SessionSetupRequest.WidthsTotal | lib/packetgen/plugin/smb2/session_setup/request.rb:39-77 | the fields before `buffer` take 24 bytes |
| Smb2SessionSetupRequest.DefaultBufferOffset | lib/packetgen/plugin/smb2/session_setup/request.rb:51-80 | whatever the DER of the default GSSAPI buffer, the default buffer offset is the header size plus six 32-bit words, 88, so the buffer is present by default; `security_mode` starts as `signing_enabled`, the first value of its table |
| Smb2SessionSetupRequest.LastFlagIsLowBit | lib/packetgen/plugin/smb2/session_setup/request.rb:47-61 | the last one-bit sub-field of a two-field group is the lowest bit |
| Smb2SessionSetupRequest.BindingIsLowBit | lib/packetgen/plugin/smb2/session_setup/request.rb:47 | `flags_binding` is set exactly when the lowest bit of `flags` is |
| Smb2SessionSetupRequest.DfsIsLowBit | lib/packetgen/plugin/smb2/session_setup/request.rb:61 | `cap_dfs` is set exactly when the lowest bit of `capabilities` is |
| Smb2SessionSetupRequest.Capabilities1 | spec/smb2/session_setup_spec.rb:20-21 | capabilities 1 give `cap_dfs` and no reserved bit |
| Smb2SessionSetupRequest.ToBytes | lib/packetgen/plugin/smb2/session_setup/request.rb:39-80 | the buffer adds to the 24 fixed bytes only when it is present |
| Smb2SessionSetupRequest.Make | lib/packetgen/plugin/smb2/session_setup/request.rb:39-80 | the request built from its integers and buffer holds exactly those |
| Smb2SessionSetupRequest.Read | lib/packetgen/plugin/smb2/session_setup/request.rb:39-80 | fails below 24 bytes; writes back what it consumed; with offset 0 no buffer byte is consumed |
| Smb2SessionSetupRequest.ReadBuffer | lib/packetgen/plugin/smb2/session_setup/request.rb:80 | the buffer read splits its input and reads nothing when the offset is 0 |
| Smb2SessionSetupRequest.ToBytesParts | lib/packetgen/plugin/smb2/session_setup/request.rb:39-80 | the bytes are the fixed part followed by the buffer as it is on the wire |
| Smb2SessionSetupRequest.FixedOfMake | lib/packetgen/plugin/smb2/session_setup/request.rb:39-77 | a built request writes the integers it was built from |
| Smb2SessionSetupRequest.ToBytesOfMake | lib/packetgen/plugin/smb2/session_setup/request.rb:39-80 | a built request writes its integers and then its buffer |
| Smb2SessionSetupRequest.ReadToBytes | lib/packetgen/plugin/smb2/session_setup/request.rb:39-80 | a well-formed request is read back from its bytes, whatever follows |
| Smb2SessionSetupRequest.CalcLength | lib/packetgen/plugin/smb2/session_setup/request.rb:84-91 | buffer length is the buffer size; buffer offset is 0 exactly for an empty buffer and 88 otherwise; nothing else changes |
| Smb2SessionSetupRequest.CalcLengthIdempotent | lib/packetgen/plugin/smb2/session_setup/request.rb:84-91 | a second `calc_length` changes nothing |
| Smb2SessionSetupRequest.CalcLengthKeepsBuffer | lib/packetgen/plugin/smb2/session_setup/request.rb:80-91 | after `calc_length` the buffer is on the wire exactly when it is non-empty, so none of it is lost |
| Smb2SessionSetupRequest.CalcLengthLocates | lib/packetgen/plugin/smb2/session_setup/request.rb:84-91 | behind any SMB2 header, the buffer offset and length cut out a non-empty buffer |
| Smb2Header.FlagBits | lib/packetgen/plugin/smb2.rb:129-132 | the `async` sub-field is set exactly when `flags & 2 == 2`, the `response` sub-field exactly when `flags & 1 == 1` |
| Smb2Header.SetFlags | lib/packetgen/plugin/smb2.rb:155-161 | the printed flag list holds exactly the names of the one-bit sub-fields that are set |
| Smb2Header.CommandsDistinct | lib/packetgen/plugin/smb2.rb:13-33 | no command name appears twice in `COMMANDS` |
| Smb2Header.CommandName | lib/packetgen/plugin/smb2.rb:13-33 | a command has a name exactly when it is below 19, and looking the name up gives the command back |
| Smb2Header.WidthsTotal | lib/packetgen/plugin/smb2.rb:44-94 | the integers before the optional fields take 28 bytes and the tail 16 bytes in both layouts |
| Smb2Header.ToBytes | lib/packetgen/plugin/smb2.rb:40-101 | the size is marker, 44 integer bytes, signature and body |
| Smb2Header.Size | lib/packetgen/plugin/smb2.rb:80-98 | a well-formed header without body is 64 bytes, async or not |
| Smb2Header.Make | lib/packetgen/plugin/smb2.rb:40-101 | the header built from integer runs holds exactly those, with the absent fields at 0 |
| Smb2Header.Read | lib/packetgen/plugin/smb2.rb:40-101 | succeeds exactly from 48 bytes, writes back its input and leaves the absent fields at 0 |
| Smb2Header.ReadTail | lib/packetgen/plugin/smb2.rb:80-101 | the tail chosen by `flags` needs 16 bytes and writes back its input |
| Smb2Header.MakeToBytes | lib/packetgen/plugin/smb2.rb:40-101 | a built header writes its fields in declaration order |
| Smb2Header.ReadToBytes | lib/packetgen/plugin/smb2.rb:40-101 | a well-formed header is read back from its bytes |
| Smb2Header.AbsentFieldsNotWritten | lib/packetgen/plugin/smb2.rb:80-90 | async headers write neither `reserved` nor `tree_id`, sync headers do not write `async_id` |
| Smb2Header.BodyDirection | lib/packetgen/plugin/smb2.rb:143-145 | the response class is bound exactly when the `response` sub-field is set |
| Smb2Header.BodyClass | lib/packetgen/plugin/smb2.rb:137-146 | `bind_command` gives a body class exactly to commands 0 (negotiate) and 1 (session_setup), the only commands it is called for; the class is named by the table and has the direction the flags give |
| Smb2Header.Bindings | lib/packetgen/plugin/smb2/error.rb:48 | a header matches `ErrorResponse` exactly when its status is positive, and a command class exactly when `BodyClass` gives one |
| Smb2Header.UnboundCommand | lib/packetgen/plugin/smb2/negotiate.rb:401 | with a zero status, a command other than negotiate and session_setup matches no binding |
| Smb2Header.ErrorStatusBinds | lib/packetgen/plugin/smb2/error.rb:48 | a positive status binds `ErrorResponse` for any command, and alone for commands without a class |
| Smb2Header.StartsSmb2Iff | lib/packetgen/plugin/smb2.rb:178-179 | a NetBIOS body is taken for SMB2 exactly when it has 4 bytes starting with the marker |
| Smb2Header.HeaderIsRecognised | lib/packetgen/plugin/smb2.rb:178-179 | a written header is taken for SMB2 exactly when its protocol field is the marker |
| Smb2Header.DefaultHeader | lib/packetgen/plugin/smb2.rb:35-101 | the default header is well formed, 64 bytes long, synchronous, and binds the `negotiate` request |
| Smb2Header.Flags0x19 | spec/smb2_spec.rb:86-89 | flags 0x19 give response, signed, priority 1, and a synchronous layout |
| Smb2Guid.ToBytes | lib/packetgen/plugin/smb2/guid.rb:30-42 | the wire form is 16 bytes: le32, le16, le16, be64 |
| Smb2Guid.Read | lib/packetgen/plugin/smb2/guid.rb:30-42 | succeeds exactly from 16 bytes, with fitting fields that write back what was consumed |
| Smb2Guid.ReadToBytes | lib/packetgen/plugin/smb2/guid.rb:30-42 | a GUID whose fields fit is read back from its 16 bytes, whatever follows |
| Smb2Guid.DigitValueOfDigit | lib/packetgen/plugin/smb2/guid.rb:50-59 | a digit `%x` prints reads back with `to_i(16)` as the same value |
| Smb2Guid.Hex | lib/packetgen/plugin/smb2/guid.rb:50 | `%0wx` gives at least w hexadecimal digits and never a dash |
| Smb2Guid.SkipBlanks | lib/packetgen/plugin/smb2/guid.rb:59 | `to_i(16)` drops exactly the leading blanks (space, tab, LF, VT, FF, CR) and stops at the first other character |
| Smb2Guid.SkipRadix | lib/packetgen/plugin/smb2/guid.rb:59 | a leading `0x` or `0X` is dropped, and nothing else is |
| Smb2Guid.DigitRun | lib/packetgen/plugin/smb2/guid.rb:59 | the digits `to_i(16)` reads: a run of hexadecimal digits in which single underscores between digits are dropped; it is empty exactly when the text does not start with a digit |
| Smb2Guid.ParseHex | lib/packetgen/plugin/smb2/guid.rb:59 | `to_i(16)` of a group; text without a minus sign never gives a negative value |
| Smb2Guid.DigitRunOfHex | lib/packetgen/plugin/smb2/guid.rb:50-59 | a run of bare digits is read whole |
| Smb2Guid.ParseHexSkipsBlank | lib/packetgen/plugin/smb2/guid.rb:59 | a blank before the number does not change the value |
| Smb2Guid.ParseHexOfSign | lib/packetgen/plugin/smb2/guid.rb:59 | `+` keeps the value of what follows, `-` negates it; no blank may come between sign and digits |
| Smb2Guid.ParseHexOfRadix | lib/packetgen/plugin/smb2/guid.rb:59 | a `0x` or `0X` before the digits is skipped |
| Smb2Guid.DigitRunOfUnderscore | lib/packetgen/plugin/smb2/guid.rb:59 | one underscore after a digit is dropped; two end the number |
| Smb2Guid.ParseHexVector | lib/packetgen/plugin/smb2/guid.rb:59 | "0x1f" reads as 31 |
| Smb2Guid.HexValueOfToHex | lib/packetgen/plugin/smb2/guid.rb:50-59 | the digits of a value read back as that value |
| Smb2Guid.HexValueOfZeros | lib/packetgen/plugin/smb2/guid.rb:50-59 | leading zeros do not change the value of a digit string |
| Smb2Guid.ParseHexOfHex | lib/packetgen/plugin/smb2/guid.rb:50-59 | a zero-padded group reads back as the value printed into it |
| Smb2Guid.IndexOf | lib/packetgen/plugin/smb2/guid.rb:59 | the position of the first occurrence, or the length when there is none |
| Smb2Guid.Split | lib/packetgen/plugin/smb2/guid.rb:59 | `split('-')` gives no more pieces than there are dash-separated fields, and no piece holds a dash |
| Smb2Guid.DropTrailingEmpty | lib/packetgen/plugin/smb2/guid.rb:59 | `split` drops exactly the trailing empty pieces |
| Smb2Guid.SplitDashOfJoin | lib/packetgen/plugin/smb2/guid.rb:50-59 | dash-free groups joined with dashes split back into the same groups |
| Smb2Guid.SplitOfJoin | lib/packetgen/plugin/smb2/guid.rb:50-59 | the same holds for `split`, when the last group is not empty |
| Smb2Guid.Groups | lib/packetgen/plugin/smb2/guid.rb:48-50 | `to_human` prints five groups |
| Smb2Guid.ToHuman | lib/packetgen/plugin/smb2/guid.rb:47-51 | the text splits back into the five groups it was printed from |
| Smb2Guid.OrShl | lib/packetgen/plugin/smb2/guid.rb:65 | or-ing a value below 2^48 into `g3 << 48` adds it |
| Smb2Guid.FromHuman | lib/packetgen/plugin/smb2/guid.rb:56-67 | nil, empty text, or text that is not five groups leaves the GUID as it is; five groups set data1 to data3 and data4 = (g3 << 48) or g4 |
| Smb2Guid.FromHumanOfGroups | lib/packetgen/plugin/smb2/guid.rb:56-67 | five dash-free groups, the last one non-empty, set each field from the `to_i(16)` value of its group |
| Smb2Guid.FromHumanPrefixed | lib/packetgen/plugin/smb2/guid.rb:56-67 | "0x1f-0-0-0-0" sets data1 to 31 and the other fields to 0 |
| Smb2Guid.FromHumanToHuman | lib/packetgen/plugin/smb2/guid.rb:47-67 | the printed form reads back as the same GUID, whatever GUID it is read into |
| Smb2Guid.ZeroToHuman | spec/smb2/guid_spec.rb:6-9 | the zero GUID prints as 00000000-0000-0000-0000-000000000000 |
| SmbHeader.CommandName | lib/packetgen/plugin/smb.rb:13-42 | a command has a name exactly when `COMMANDS` holds its value, and the name is the table's |
| SmbHeader.CommandVectors | spec/smb_spec.rb:18-58 | the default command 1 prints as `delete_dir` and 0x2b as `echo` |
| SmbHeader.FlagIsBitOf | lib/packetgen/plugin/smb.rb:71-73 | sub-field i of `flags` is bit 7 - i, `reply` the highest |
| SmbHeader.Flags2Shift | lib/packetgen/plugin/smb.rb:112-117 | the bits below each sub-field of `flags2`: 15 - i for the first six, 7 for the 3-bit reserved one, 13 - i after it |
| SmbHeader.UnicodeIsBit | lib/packetgen/plugin/smb.rb:112 | `flags2_unicode` is the highest bit of `flags2` |
| SmbHeader.SetFlags | lib/packetgen/plugin/smb.rb:177-181 | the printed list for `flags` holds exactly the names of the set sub-fields |
| SmbHeader.SetFlags2 | lib/packetgen/plugin/smb.rb:177-181 | the printed list for `flags2` holds exactly the names of the set one-bit sub-fields |
| SmbHeader.Flags0x18 | spec/smb_spec.rb:60-61 | flags 0x18 set canon_paths and case_insensitive and nothing else |
| SmbHeader.Flags0x18Names | spec/smb_spec.rb:60-78 | the printed list for 0x18 is exactly canon_paths and case_insensitive, and the request class is bound |
| SmbHeader.ShiftsOf0xc843 | spec/smb_spec.rb:62 | the shifted values of 0xc843 that the sub-fields of `flags2` start at |
| SmbHeader.Flags2VectorHigh | spec/smb_spec.rb:62-80 | 0xc843 sets unicode, ntstatus and extended_security among the top six sub-fields |
| SmbHeader.Flags2VectorMid | spec/smb_spec.rb:62-80 | 0xc843 leaves the reserved bits 0 and sets is_long_name |
| SmbHeader.Flags2VectorLow | spec/smb_spec.rb:62-80 | 0xc843 sets eas and long_names among the last four sub-fields |
| SmbHeader.Flags2Vector | lib/packetgen/plugin/smb.rb:112-117 | 0xc843 sets unicode, ntstatus, extended_security, is_long_name, eas and long_names |
| SmbHeader.Flags2Field | lib/packetgen/plugin/smb.rb:112-117 | each sub-field of `flags2` is its bit, or the three reserved bits |
| SmbHeader.Flags2Unicode | spec/smb_spec.rb:62 | 0xc843 marks the message's strings as UTF-16 |
| SmbHeader.WidthsTotal | lib/packetgen/plugin/smb.rb:42-149 | the integers after the marker take 28 bytes |
| SmbHeader.ToBytes | lib/packetgen/plugin/smb.rb:38-152 | the size is marker, 28 integer bytes and body |
| SmbHeader.Make | lib/packetgen/plugin/smb.rb:38-152 | the header built from its integers holds exactly those |
| SmbHeader.DefaultHeader | spec/smb_spec.rb:15-29 | the default header is well formed and 32 bytes long |
| SmbHeader.Read | lib/packetgen/plugin/smb.rb:38-152 | succeeds exactly from 32 bytes and writes back its input |
| SmbHeader.ReadToBytes | lib/packetgen/plugin/smb.rb:38-152 | a well-formed header is read back from its bytes |
| SmbHeader.RecognisedIffParses | lib/packetgen/plugin/smb.rb:169-191 | a written header is taken for SMB by the NetBIOS binding exactly when `parse?` holds |
| SmbHeader.BodyDirection | lib/packetgen/plugin/smb.rb:162-164 | the response class is bound exactly when the `reply` bit is set |
| SmbBlocks.Size | lib/packetgen/plugin/smb/blocks.rb:24-36 | a well-formed block takes one byte, two per word, two more and one per byte |
| SmbBlocks.Read | lib/packetgen/plugin/smb/blocks.rb:24-36 | what is read writes back the bytes it came from; counters fit their fields and bound the arrays; empty input fails |
| SmbBlocks.ReadToBytes | lib/packetgen/plugin/smb/blocks.rb:24-36 | well-formed blocks are read back from their bytes, whatever follows |
| SmbBlocks.EchoWellFormed | spec/smb_spec.rb:71-74 | the echo blocks (one word, 1, sixteen zero bytes) are well formed |
| SmbBlocks.EchoBytes | spec/smb_spec.rb:71-74 | the echo blocks are written as 1, 1, 0, 16, 0 and sixteen zeros |
| SmbBlocks.EchoVector | spec/smb_spec.rb:71-74 | those bytes are read as the echo blocks, nothing left over |
| SmbString.ScanNul | lib/packetgen/plugin/smb/string.rb:28-31 | the scan over even offsets finds a NUL code unit, the last one when it finds any, and none is missed |
| SmbString.FirstNul | lib/packetgen/plugin/smb/string.rb:44 | the first NUL code unit from an even offset, with none before it, or proof that there is none |
| SmbString.CharWidth | lib/packetgen/plugin/smb/string.rb:43 | the UTF-16LE character at an offset is 4 bytes exactly for a high surrogate followed by a low one, 1 byte exactly for a lone last byte, 2 bytes otherwise, and never runs past the end |
| SmbString.CharsEndBounds | lib/packetgen/plugin/smb/string.rb:43 | n characters span at most 4n bytes, and at least 2n unless the bytes run out |
| SmbString.CharsEndEven | lib/packetgen/plugin/smb/string.rb:43 | counted from an even offset, characters end at even offsets unless at a lone last byte |
| SmbString.TakeChars | lib/packetgen/plugin/smb/string.rb:43 | `str2[0, n]` keeps a prefix of n characters: at most 4n bytes, at least 2n unless it is the whole string, and an even length unless it is the whole string |
| SmbString.CharsEndOfBmp | lib/packetgen/plugin/smb/string.rb:43 | without surrogate pairs, n characters from offset 2j end at 2j + 2n, or at the end |
| SmbString.TakeCharsOfBmp | lib/packetgen/plugin/smb/string.rb:43 | without surrogate pairs, n characters are the first 2n bytes |
| SmbString.TakeCharsPair | lib/packetgen/plugin/smb/string.rb:43 | U+1F600 then 'A', cut to one character, keeps the 4 bytes of the surrogate pair |
| SmbString.WidthOfPrefix | lib/packetgen/plugin/smb/string.rb:32-43 | before a NUL code unit, a character is as wide in the prefix as in the whole and ends within the prefix |
| SmbString.CharsEndAgree | lib/packetgen/plugin/smb/string.rb:43 | where two strings agree on every character width, characters are counted alike until the shorter one runs out |
| SmbString.CharsEndOfPrefix | lib/packetgen/plugin/smb/string.rb:32-43 | n characters end at the same offset in the input and in its prefix ending at a NUL code unit, or at the end of that prefix |
| SmbString.TakeCharsOfPrefix | lib/packetgen/plugin/smb/string.rb:32-43 | characters are counted alike in the input and in its prefix ending at a NUL code unit |
| SmbString.CutAtNul | lib/packetgen/plugin/smb/string.rb:44-45 | the result is the NUL-free prefix ending at the first NUL code unit, or all of it |
| SmbString.Reinterpret | lib/packetgen/plugin/smb/string.rb:26-42 | a prefix of the input's UTF-16LE bytes; a binary input loses exactly the part from a NUL code unit on; UTF-16LE input is kept and other text is encoded whole |
| SmbString.Read | lib/packetgen/plugin/smb/string.rb:23-48 | nil keeps the string; otherwise a NUL-free prefix of the input's UTF-16LE bytes, at most 4 bytes per character the static length allows |
| SmbString.CutLengthOfPrefix | lib/packetgen/plugin/smb/string.rb:44-45 | cutting at the first NUL ignores everything from a NUL code unit on |
| SmbString.CutOfPrefix | lib/packetgen/plugin/smb/string.rb:32-45 | cutting first at the last NUL and then at the first equals cutting at the first |
| SmbString.CutOfLongerPrefix | lib/packetgen/plugin/smb/string.rb:44-45 | a prefix reaching past a NUL code unit cuts where the prefix ending there does |
| SmbString.CutCharsOfPrefix | lib/packetgen/plugin/smb/string.rb:32-45 | the static-length cut in between does not change that |
| SmbString.BinaryIsUtf16 | lib/packetgen/plugin/smb/string.rb:26-45 | the binary and UTF-16LE branches read the same bytes to the same string: the first NUL-free code units within the static length in characters |
| SmbString.ReadTerminated | lib/packetgen/plugin/smb/string.rb:23-48 | whole NUL-free code units followed by a NUL code unit read back as themselves, whatever follows |
| SmbString.Wire | lib/packetgen/plugin/smb/string.rb:12 | a string is written with its NUL terminator, two bytes more |
| SmbString.ReadField | lib/packetgen/plugin/smb/string.rb:23-48 | a string field holds a NUL-free prefix of its input and consumes it and its terminator when there is one |
| SmbString.ReadFieldIsRead | lib/packetgen/plugin/smb/string.rb:23-48 | the string a field holds is what `read` gives for its input |
| SmbString.ReadFieldOfWire | lib/packetgen/plugin/smb/string.rb:12-48 | a valid string is read back from its terminated bytes, whatever follows |
| SmbString.ReadAlign | lib/packetgen/plugin/smb/ntcreateandx/request.rb:131 | the pad byte is present exactly in a unicode message, writes back its input, and fails only when a unicode message has no byte left |
| SmbString.ReadAlignOfAlign | lib/packetgen/plugin/smb/ntcreateandx/request.rb:131 | a pad byte, or none, is read back from its bytes |
| SmbString.AbcdVector | spec/smb/string_spec.rb:52-56 | "a\0b\0c\0d\0\0\0" reads as "abcd" in UTF-16LE |
| SmbString.EncodeChar | lib/packetgen/plugin/smb/string.rb:41 | a character encodes to one code unit, not a surrogate, below U+10000 and to a high and a low surrogate above |
| SmbString.DecodeEncodeChar | lib/packetgen/plugin/smb/string.rb:41 | every character decodes back from its code unit or surrogate pair |
| SmbString.Encode | lib/packetgen/plugin/smb/string.rb:41 | text encodes to whole code units, 2 to 4 bytes per character |
| SmbString.EncodeEven | lib/packetgen/plugin/smb/string.rb:41 | encoded text is whole code units: an even number of bytes |
| SmbString.EncodeAppend | lib/packetgen/plugin/smb/string.rb:41 | the encoding of joined texts is the join of their encodings |
| SmbString.NulFreeEncode | lib/packetgen/plugin/smb/string.rb:41-44 | text without a NUL character has no NUL code unit once encoded |
| SmbString.NulAtEncodeChar | lib/packetgen/plugin/smb/string.rb:41-44 | no character but NUL encodes to a NUL code unit, even inside a surrogate pair |
| SmbString.CharWidthOfEncode | lib/packetgen/plugin/smb/string.rb:41-43 | Ruby's character stepping takes each encoded character whole |
| SmbString.EncodeSplit | lib/packetgen/plugin/smb/string.rb:41 | encoded text is the encoding of any prefix followed by that of the rest |
| SmbString.EncodeAt | lib/packetgen/plugin/smb/string.rb:41 | encoded text is the encoding of the characters before position j, then character j's, then the rest's |
| SmbString.CharWidthAt | lib/packetgen/plugin/smb/string.rb:41-43 | Ruby's character stepping over encoded text takes character j whole, from where the characters before it end |
| SmbString.CharsEndAlong | lib/packetgen/plugin/smb/string.rb:43 | along a list of offsets each one character apart, n characters from one offset reach the offset n further on, or the end |
| SmbString.Offsets | lib/packetgen/plugin/smb/string.rb:41-43 | offset number k of encoded text is where the encoding of its first k characters ends |
| SmbString.StepsAlongEncode | lib/packetgen/plugin/smb/string.rb:41-43 | Ruby's character stepping over encoded text visits exactly those offsets |
| SmbString.TakeCharsOfEncode | lib/packetgen/plugin/smb/string.rb:41-43 | the first n characters of encoded text are the encoding of its first n characters |
| SmbString.EncodeCharOfLatin1 | lib/packetgen/plugin/smb/string.rb:41 | a character below U+0100 encodes to its own byte then a zero byte |
| SmbString.EncodeOfLatin1 | lib/packetgen/plugin/smb/string.rb:41 | text below U+0100 encodes to twice its length, each character's byte followed by a zero byte |
| SmbString.BeforeNul | lib/packetgen/plugin/smb/string.rb:44-45 | the prefix of the text up to its first NUL character, or all of it |
| SmbString.CutAtNulUnique | lib/packetgen/plugin/smb/string.rb:44-45 | the cut is the only NUL-free prefix that ends at a NUL code unit or at the end |
| SmbString.EncodeNulHead | lib/packetgen/plugin/smb/string.rb:41-44 | text starting with NUL encodes to bytes starting with a NUL code unit |
| SmbString.NulAtJoin | lib/packetgen/plugin/smb/string.rb:41-44 | a NUL character after any text sits at an even offset of the encoding as a NUL code unit |
| SmbString.CutOfEncode | lib/packetgen/plugin/smb/string.rb:41-45 | cutting encoded text at its first NUL code unit cuts it at its first NUL character |
| SmbString.ReadText | lib/packetgen/plugin/smb/string.rb:40-45 | text in another encoding reads as the encoding of its characters within the static length, up to the first NUL character |
| SmbString.ReadNulFreeText | lib/packetgen/plugin/smb/string.rb:40-45 | text without NUL and without a static length reads as its whole encoding |
| SmbString.TextVector | spec/smb/string_spec.rb:70-74 | the UTF-8 string "abcd" reads as its UTF-16LE bytes |
| SmbNtCreateRequest.WidthsTotal | lib/packetgen/plugin/smb/ntcreateandx/request.rb:54-126 | the seventeen integer fields take 28 + 23 = 51 bytes |
| SmbNtCreateRequest.AndxCommandName | lib/packetgen/plugin/smb/ntcreateandx/request.rb:44-59 | `and_xcommand` has a name exactly when it is 0x0a, 0x2e, 0x27 or 0xff, and the name is one of `COMMANDS` |
| SmbNtCreateRequest.NoFurtherCommands | lib/packetgen/plugin/smb/ntcreateandx/request.rb:48 | 0xff prints as "no further commands" |
| SmbNtCreateRequest.Make | lib/packetgen/plugin/smb/ntcreateandx/request.rb:54-140 | the request built from its integers and data holds exactly those |
| SmbNtCreateRequest.DataLength | lib/packetgen/plugin/smb/ntcreateandx/request.rb:131-140 | the data part takes the pad, the terminated file name and the extra bytes |
| SmbNtCreateRequest.ReadName | lib/packetgen/plugin/smb/ntcreateandx/request.rb:136-140 | the file name read is NUL-free and the extra bytes stay within what `byte_count` leaves |
| SmbNtCreateRequest.ReadNameOfName | lib/packetgen/plugin/smb/ntcreateandx/request.rb:136-140 | a valid file name and the extra bytes `byte_count` announces are read back, whatever follows |
| SmbNtCreateRequest.ReadFixed | lib/packetgen/plugin/smb/ntcreateandx/request.rb:54-126 | the integers are read exactly from 51 bytes, fit their widths, and write back what they consumed |
| SmbNtCreateRequest.ReadFixedOfFixed | lib/packetgen/plugin/smb/ntcreateandx/request.rb:54-126 | fitting integers are read back from their bytes |
| SmbNtCreateRequest.Read | lib/packetgen/plugin/smb/ntcreateandx/request.rb:54-140 | succeeds exactly from 51 bytes, 52 in a unicode message; the pad is there exactly for unicode; the name is NUL-free; the extra bytes stay within `byte_count` |
| SmbNtCreateRequest.ReadToBytes | lib/packetgen/plugin/smb/ntcreateandx/request.rb:54-140 | a well-formed request is read back from its bytes, whatever follows |
| SmbNtCreateRequest.CalcLength | lib/packetgen/plugin/smb/ntcreateandx/request.rb:150-155 | `filename_len` becomes the name's size on the wire and `byte_count` the data's size; nothing else changes |
| SmbNtCreateRequest.CalcLengthIdempotent | lib/packetgen/plugin/smb/ntcreateandx/request.rb:150-155 | a second `calc_length` changes nothing |
| SmbNtCreateRequest.CalcLengthReads | lib/packetgen/plugin/smb/ntcreateandx/request.rb:139-155 | after `calc_length` the request is read back whole, its extra bytes exactly those `byte_count` announces |
| SmbNtCreateRequest.PipeNameOfText | spec/smb/nt_create_and_x_spec.rb:39 | the file name `\PIPE\`, a Ruby string in another encoding, is stored as the 12 UTF-16LE bytes the length vectors start from |
| SmbNtCreateRequest.CalcLengthVectors | spec/smb/nt_create_and_x_spec.rb:42-58 | `\PIPE\` gives filename length 14 and byte count 15; `a` gives 5; with four extra bytes, 9 |
| SmbTrans.ParamBytes | lib/packetgen/plugin/smb/trans/request.rb:21-94 | the parameter block takes its integers, two bytes per setup word and two for `byte_count` |
| SmbTrans.ReadParams | lib/packetgen/plugin/smb/trans/request.rb:21-94 | the integers fit their fields, at most `setup_count` words are read, and the block writes back what it consumed; too short an input fails |
| SmbTrans.ReadParamsOfBytes | lib/packetgen/plugin/smb/trans/response.rb:21-76 | a parameter block that fits is read back from its bytes, whatever follows |
| SmbTrans.PadLength | lib/packetgen/plugin/smb/trans/request.rb:107-109 | the pad reaches exactly `data_offset`, counted from the SMB header, or is empty when the fields before it already pass it |
| SmbTransRequest.WidthsTotal | lib/packetgen/plugin/smb/trans/request.rb:21-87 | the integer fields before `setup` take 29 bytes |
| SmbTransRequest.Make | lib/packetgen/plugin/smb/trans/request.rb:21-112 | the request built from a parameter block and data holds exactly those |
| SmbTransRequest.ReadData | lib/packetgen/plugin/smb/trans/request.rb:99-112 | the alignment byte is there exactly for a unicode header, the name is NUL-free, and only a unicode header with no byte left fails |
| SmbTransRequest.ReadDataOfData | lib/packetgen/plugin/smb/trans/request.rb:99-112 | the data of a well-formed request is read back from its bytes |
| SmbTransRequest.ReadRest | lib/packetgen/plugin/smb/trans/request.rb:91-112 | a failed parameter block fails the read; the setup words and count come from the block |
| SmbTransRequest.ReadRestOfData | lib/packetgen/plugin/smb/trans/request.rb:91-112 | the data of a well-formed request, behind its block, gives back the request |
| SmbTransRequest.Read | lib/packetgen/plugin/smb/trans/request.rb:21-112 | too short an input fails; the alignment byte matches the header; the name is NUL-free; no more setup words than `setup_count` |
| SmbTransRequest.ReadToBytes | lib/packetgen/plugin/smb/trans/request.rb:21-112 | a well-formed request is read back from its bytes |
| SmbTransRequest.BodyAtDataOffset | lib/packetgen/plugin/smb/trans/request.rb:107-112 | when `data_offset` lies past the name, the body starts exactly at `data_offset` from the start of the SMB header |
| SmbTransRequest.Pad1Vector | spec/smb/trans_spec.rb:29-34 | two setup words, a unicode header, `\PIPE\` and `data_offset` 84 leave a 2-byte pad |
| SmbTransResponse.WidthsTotal | lib/packetgen/plugin/smb/trans/response.rb:21-69 | the integer fields before `setup` take 21 bytes |
| SmbTransResponse.Make | lib/packetgen/plugin/smb/trans/response.rb:21-84 | the response built from a parameter block, pad and body holds exactly those |
| SmbTransResponse.ReadRest | lib/packetgen/plugin/smb/trans/response.rb:73-84 | it fails exactly when the block fails; pad and body split what follows, the pad no longer than it is read with |
| SmbTransResponse.ReadRestOfData | lib/packetgen/plugin/smb/trans/response.rb:73-84 | the pad and body of a well-formed response give it back |
| SmbTransResponse.Read | lib/packetgen/plugin/smb/trans/response.rb:21-84 | too short an input fails; no more setup words than `setup_count`; the pad within its length |
| SmbTransResponse.ReadToBytes | lib/packetgen/plugin/smb/trans/response.rb:21-84 | a well-formed response is read back from its bytes |
| SmbTransResponse.BodyAtDataOffset | lib/packetgen/plugin/smb/trans/response.rb:80-84 | when `data_offset` lies past the block, the body starts exactly at `data_offset` from the start of the SMB header |
| SmbTransResponse.Pad1Vector | spec/smb/trans_spec.rb:55-61 | no setup word and `data_offset` 56 leave a 1-byte pad |
| Ntlm.TypeName | lib/packetgen/plugin/ntlm.rb:13-42 | a type has a name exactly when it is 1, 2 or 3: negotiate, challenge, authenticate |
| Ntlm.TypeNameOfValue | lib/packetgen/plugin/ntlm.rb:13-32 | printing a type and looking a name up agree, both directions |
| Ntlm.ToBytes | lib/packetgen/plugin/ntlm.rb:28-35 | a frame takes the 8-byte signature, the 4-byte type and the payload |
| Ntlm.DefaultMessage | lib/packetgen/plugin/ntlm.rb:28-32 | a message built with no argument is a 12-byte negotiate frame that reads back as built |
| Ntlm.Read | lib/packetgen/plugin/ntlm.rb:28-41 | succeeds exactly from 12 bytes; the frame read is well formed and writes back its input |
| Ntlm.ReadToBytes | lib/packetgen/plugin/ntlm.rb:28-35 | a well-formed frame is read back from its bytes |
| Ntlm.FlagShift | lib/packetgen/plugin/ntlm.rb:52-59 | the bits below each sub-field of `flags`: 31 - i before the 3-bit reserved one, 29 - i after it |
| Ntlm.HighSum | lib/packetgen/plugin/ntlm.rb:52 | the widths between one of the first four sub-fields and the reserved one |
| Ntlm.FlagsWidth | lib/packetgen/plugin/ntlm.rb:51-59 | the sub-fields span the whole 32-bit field |
| Ntlm.FlagIsBitOf | lib/packetgen/plugin/ntlm.rb:52-59 | a one-bit sub-field is set exactly when its bit, 31 for flags_w down to 0 for flags_a, is |
| Ntlm.AliasBits | lib/packetgen/plugin/ntlm.rb:60-81 | `unicode?` is bit 0 and `nego56?` bit 31 |
| Ntlm.FlagsVector | spec/ntlm/negotiate_spec.rb:14 | flags 0x62088215 have unicode, request_target and sign set and oem clear |
| NtlmNegotiate.WidthsTotal | lib/packetgen/plugin/ntlm/negotiate.rb:96-120 | signature, integers and version put the payload at 0x28 |
| NtlmNegotiate.Make | lib/packetgen/plugin/ntlm/negotiate.rb:96-120 | the message built from its fields holds exactly those, with no names |
| NtlmNegotiate.FieldBytes | lib/packetgen/plugin/ntlm/negotiate.rb:96-120 | the declared fields of a well-formed message take 0x28 bytes and the payload |
| NtlmNegotiate.ToBytes | lib/packetgen/plugin/ntlm/negotiate.rb:156-161 | `to_s` adds the domain name and the workstation, when set, behind the fields |
| NtlmNegotiate.NameLength | lib/packetgen/plugin/ntlm/negotiate.rb:145-152 | a name's length is the size it is written with, and 0 exactly when it is nil or empty |
| NtlmNegotiate.CalcLength | lib/packetgen/plugin/ntlm/negotiate.rb:140-153 | the domain name starts the payload, the workstation follows it, each length is its name's size, nothing else changes |
| NtlmNegotiate.CalcLengthIdempotent | lib/packetgen/plugin/ntlm/negotiate.rb:140-153 | a second `calc_length` changes nothing |
| NtlmNegotiate.ReadFields | lib/packetgen/plugin/ntlm/negotiate.rb:96-126 | the generic read succeeds exactly from 32 bytes, writes back its input, and sets no names |
| NtlmNegotiate.Names | lib/packetgen/plugin/ntlm/negotiate.rb:128-132 | cutting the names out of the payload changes nothing else |
| NtlmNegotiate.Read | lib/packetgen/plugin/ntlm/negotiate.rb:125-135 | succeeds exactly from 32 bytes; the fields read write back the input and fit their widths |
| NtlmNegotiate.ReadFieldsOfFields | lib/packetgen/plugin/ntlm/negotiate.rb:96-126 | the fields of a well-formed message are read back from its bytes |
| NtlmNegotiate.FilledWellFormed | lib/packetgen/plugin/ntlm/negotiate.rb:140-153 | names that fit 16-bit lengths leave the message well formed after `calc_length` |
| NtlmNegotiate.ToBytesOfFilled | lib/packetgen/plugin/ntlm/negotiate.rb:156-161 | with no payload of its own, `to_s` after `calc_length` writes the names as the payload |
| NtlmNegotiate.ReadOfCalcLength | lib/packetgen/plugin/ntlm/negotiate.rb:125-161 | after `calc_length` and `to_s`, `read` gives back both names, at their offsets, and every field written |
| NtlmNegotiate.CalcLengthEmptyVector | spec/ntlm/negotiate_spec.rb:56-77 | with no names both offsets are 0x28 and both lengths 0 |
| NtlmNegotiate.CalcLengthNamesVector | spec/ntlm/negotiate_spec.rb:84-92 | DOMAIN and PC1 give lengths 6 and 3 and the workstation at 0x2e; PC1 alone sits at 0x28 |
| NtlmRead.Read | lib/packetgen/plugin/ntlm.rb:40-47 | short input fails; an unknown type keeps the generic frame; type 1 is read by the Negotiate class; types 2 and 3 raise NameError, their classes not being loaded |
| NtlmRead.SameType | lib/packetgen/plugin/ntlm.rb:41-46 | the frame and the Negotiate class read the same type from the same bytes |
| NtlmRead.ReadNegotiate | lib/packetgen/plugin/ntlm.rb:40-47 | a written Negotiate message is read back as a Negotiate message |
| NtlmRead.ReadGeneric | lib/packetgen/plugin/ntlm.rb:40-43 | a frame of a type outside the table is read back unchanged |
| NtlmAvPair.RealType | lib/packetgen/plugin/ntlm/av_pair.rb:76-87 | type 7 is read as a timestamp, 6 as a 32-bit integer, 8 and 10 as binary strings, and any other type, each in both directions |
| NtlmAvPair.TypeTable | lib/packetgen/plugin/ntlm/av_pair.rb:11-23 | value i below 11 prints as the i-th name of `AVPAIR_TYPES`; no other value has a name |
| NtlmAvPair.PairBytes | lib/packetgen/plugin/ntlm/av_pair.rb:26-28 | a pair takes four bytes and its value |
| NtlmAvPair.ReadPair | lib/packetgen/plugin/ntlm/av_pair.rb:26-28 | succeeds exactly from four bytes; type and length fit 16 bits; the value takes at most `length` bytes; the pair writes back what it consumed |
| NtlmAvPair.PairBytesThen | lib/packetgen/plugin/ntlm/av_pair.rb:26-28 | a pair and what follows it are type, length, value, rest |
| NtlmAvPair.ReadPairOfBytes | lib/packetgen/plugin/ntlm/av_pair.rb:26-28 | a well-formed pair is read back, whatever follows |
| NtlmAvPair.ReadList | lib/packetgen/plugin/ntlm/av_pair.rb:60-62 | the pairs read one after the other to the end write back the whole input |
| NtlmAvPair.ReadListOfBytes | lib/packetgen/plugin/ntlm/av_pair.rb:60-62 | well-formed pairs are read back from their bytes |
| NtlmAvPair.FirstEol | lib/packetgen/plugin/ntlm/av_pair.rb:63-66 | the position of the first end-of-list pair, none before it, or none in the list |
| NtlmAvPair.Truncate | lib/packetgen/plugin/ntlm/av_pair.rb:63-70 | a prefix with no end-of-list pair before its last; it ends with one exactly when the list holds one; a list without one is kept whole |
| NtlmAvPair.TruncateIdempotent | lib/packetgen/plugin/ntlm/av_pair.rb:63-70 | truncating twice truncates once |
| NtlmAvPair.TruncateOfPrefix | lib/packetgen/plugin/ntlm/av_pair.rb:63-70 | pairs ending at their first end-of-list pair are cut back from any longer list |
| NtlmAvPair.TruncateAsWritten | lib/packetgen/plugin/ntlm/av_pair.rb:63-70 | as written the truncation fails exactly on lists without an end-of-list pair, and otherwise agrees with `Truncate` |
| NtlmAvPair.NoEolRaises | lib/packetgen/plugin/ntlm/av_pair.rb:63-68 | the empty list and a list of one DomainName pair fail as written; the intended truncation keeps the latter |
| NtlmAvPair.ReadArray | lib/packetgen/plugin/ntlm/av_pair.rb:60-72 | the pairs read, cut after the first end-of-list pair; a failed pair read fails it |
| NtlmAvPair.ReadArrayOfBytes | lib/packetgen/plugin/ntlm/av_pair.rb:60-72 | well-formed pairs ending at their first end-of-list pair are read back, whatever pairs follow |
| NtlmAvPair.ChallengeVector | spec/ntlm/challenge_spec.rb:32-51 | the six pairs of a captured Challenge are kept whole and read as four SMB-string pairs, a timestamp and the end of the list |
| NetBIOSDatagram.PresenceExclusive | lib/packetgen/plugin/netbios/datagram.rb:58-78 | each type has either the length fields or the error code, and a type with source and data also has the rest |
| NetBIOSDatagram.FixedBytes | lib/packetgen/plugin/netbios/datagram.rb:38-54 | the head takes 10 bytes |
| NetBIOSDatagram.OptionalBytes | lib/packetgen/plugin/netbios/datagram.rb:58-66 | the optional integers take 4 bytes, or 2 in an error datagram |
| NetBIOSDatagram.NamesAndBody | lib/packetgen/plugin/netbios/datagram.rb:70-78 | names and data take their sizes when their type has them |
| NetBIOSDatagram.ToBytesOfVisible | lib/packetgen/plugin/netbios/datagram.rb:58-78 | absent fields leave no trace on the wire |
| NetBIOSDatagram.ReadFixed | lib/packetgen/plugin/netbios/datagram.rb:38-54 | succeeds exactly from 10 bytes; the head writes back what it consumed and leaves names and data empty |
| NetBIOSDatagram.ReadFixedOfBytes | lib/packetgen/plugin/netbios/datagram.rb:38-54 | the head of a well-formed datagram is read back |
| NetBIOSDatagram.ReadOptional | lib/packetgen/plugin/netbios/datagram.rb:58-66 | succeeds exactly when the 4 or 2 bytes the type asks for are there; writes back what it consumed; only the optional integers change |
| NetBIOSDatagram.ReadIntegers | lib/packetgen/plugin/netbios/datagram.rb:38-66 | the integers read write back what they consumed and are the visible ones; too short an input fails |
| NetBIOSDatagram.ReadOptionalOfBytes | lib/packetgen/plugin/netbios/datagram.rb:58-66 | the optional integers of a well-formed datagram are read back behind its head |
| NetBIOSDatagram.ReadIntegersOfBytes | lib/packetgen/plugin/netbios/datagram.rb:38-78 | a well-formed datagram gives back its visible integers, followed by its names and data |
| NetBIOSDatagram.CalcLength | lib/packetgen/plugin/netbios/datagram.rb:98-103 | `dgm_length` is the data's size, counted even when absent, plus each present name; for data-carrying types, everything behind `packet_offset`; nothing else changes |
| NetBIOSDatagram.CalcLengthIdempotent | lib/packetgen/plugin/netbios/datagram.rb:98-103 | a second `calc_length` changes nothing |
| NetBIOSDatagram.CalcLengthVectors | spec/netbios_spec.rb:44-62 | with empty names, direct and broadcast datagrams count the data and 68 bytes, query datagrams the data and 34 |
| NetBIOSDatagram.FlagFields | lib/packetgen/plugin/netbios/datagram.rb:94 | `m` is bit 0, `f` bit 1, `snt` bits 2-3 and `rsv` the upper four bits |
| SmbBrowser.OpcodeName | lib/packetgen/plugin/smb/browser.rb:20-39 | an opcode has a name exactly when `OPCODES` holds it |
| SmbBrowser.ClassOf | lib/packetgen/plugin/smb/browser.rb:55-57 | a class is chosen only by the name the opcode prints as, and only among the defined announcement classes |
| SmbBrowser.ClassOfOpcode | lib/packetgen/plugin/smb/browser.rb:20-57 | exactly opcodes 1, 12 and 15 select a class: HostAnnouncement, DomainAnnouncement, LocalMasterAnnouncement |
| SmbBrowser.ClassNameIndex | lib/packetgen/plugin/smb/browser.rb:20-31 | only the entries 0, 6 and 9 of `OPCODES` name a defined class |
| SmbBrowser.ToBytes | lib/packetgen/plugin/smb/browser.rb:36-39 | the frame is its opcode byte and its body |
| SmbBrowser.Read | lib/packetgen/plugin/smb/browser.rb:48-64 | nil keeps the object; empty input fails; a class opcode hands the whole input to its class; any other opcode reads the generic frame, which writes back the input |
| SmbBrowser.ReadToBytes | lib/packetgen/plugin/smb/browser.rb:58-81 | a frame whose opcode has no class is read back as itself |
| SmbBrowser.ReadAnnouncement | lib/packetgen/plugin/smb/browser.rb:55-57 | input starting with an announcement opcode goes whole to its class |
| SmbBrowser.ReadAsWritten | lib/packetgen/plugin/smb/browser.rb:48-64 | as written the read fails exactly on empty input or an opcode outside `OPCODES`, and otherwise agrees with `Read` |
| SmbBrowser.UnknownOpcodeRaises | lib/packetgen/plugin/smb/browser.rb:53-55 | opcode 3 raises as written, while the generic read keeps the frame |

## Left out

- The PacketGen/BinStruct engine is not part of this model. Its meaning is given only as far as the schemas need it:
  - integer fields read from too short an input give `Err(Truncated)`, because the engine's own behaviour there is not in the repository;
  - string fields with a length take what is there, as the SMB2 negotiate test shows for its last pad.
- Field assignment is not modelled. Every writer requires the integers to fit their widths (`WellFormed`), so the engine's truncation of an oversized value on write is not modelled.
- The GSSAPI security buffers of the SMB2 Negotiate response and SessionSetup request wrap an external ASN.1/DER library. Their content is opaque bytes, read as `buffer_length` bytes. The DER of a default GSSAPI object (an OID and an empty NegTokenInit, lib/packetgen/plugin/gssapi.rb:47-49) is not computed. `Smb2NegotiateResponse.Default` and `Smb2SessionSetupRequest.Default` take it as a parameter.
- Smb2NegotiateResponse.EmptyBufferCalcLength: the test's buffer length 0 and context offset 136 were written for the empty String buffer of the superseded smb2/negotiate.rb. In this revision the default buffer is a GSSAPI object whose DER is not empty, so the vector holds only for an empty buffer. `Smb2NegotiateResponse.DefaultCalcLength` states the offsets for any default buffer.
- FILETIME fields (`smb/filetime.rb`) use Ruby `Time`, `Rational` and the clock. They are plain 64-bit integers here.
- This revision's SMB string has no non-unicode mode. `initialize` (lib/packetgen/plugin/smb/string.rb:16-19) hands `unicode:` to the engine's `CString` and always re-encodes to UTF-16LE, although the NT_CREATE_ANDX and Trans requests pass `unicode: false` for a non-unicode header. The test expectations written for a non-unicode mode are left out:
  - the 7-byte "\\PIPE\\" filename length of the NT_CREATE_ANDX test;
  - the `unicode: false` cases of the SMB string test (spec/smb/string_spec.rb:7-47).
- SmbString.Read: a `Text` input is given by its characters. A source string with bytes invalid in its encoding makes `encode` raise; that error is not modelled.
- AV_PAIR values are kept as their bytes. `RealType` picks the class that would hold them, but decoding them into an SMB string, a FILETIME or an integer is not modelled.
- The DNS label form of the datagram source and destination names comes from the engine's DNS name type. The names are their encoded bytes: an empty name is 34 bytes. `ReadIntegers` stops before the names.
- The NTLM Challenge and Authenticate messages, `ntlmv2_response.rb`, and the `define_in_payload` helper that lays them out are not part of this model. `NTLM.read` on those types is modelled with the NameError it raises.
- Ruby's `String#size` counts characters while the wire counts bytes. The model works on bytes throughout, so names and file names are their byte strings.
- `inspect` and the pretty-printing of flag and capability lists are not modelled beyond the list of set flag names.
- Spec files that parse pcap captures need file I/O. Only their literal values are used.
- The Browser announcement classes have no logic of their own. `SmbBrowser.Read` says which class re-reads the input, not what that class reads.
- `SmbBrowser.Read`: an empty input gives `Err(Truncated)`, because reading the opcode from `str[0]` is engine behaviour.
- Registering classes with the framework (`add_class`, `added_to_packet`) is left out. So is the choice the framework's parser makes when a header matches both a command class and `ErrorResponse`. `Smb2Header.Bindings` states which bindings match.
- `llmnr.rb`, `netbios/session.rb` and `gssapi.rb` are I/O-side plumbing and are left out.
- The superseded copies `smb2/negotiate.rb`, `smb/nt_create_and_x.rb`, `smb/nt_create_andx.rb`, `smb/trans.rb` and `smb/close.rb` are left out. So are the declaration-only files (`smb2/error.rb` apart from its binding, `smb2/session_setup/response.rb`, `smb/close/*`, `smb/negotiate/*`, `smb/ntcreateandx/response.rb`).
- The SMB2 Negotiate test expects `context_offset` to be 0 before any context exists. lib/packetgen/plugin/smb2/negotiate/response.rb:182 always sets it to the header size plus the offset of `context_list`. The model follows the code.
- The SMB2 Negotiate request has no `calc_length` in this revision of the source, so only its layout and pad rule are modelled.
- `Smb2Base.RequestPadVector`: the request test (spec/smb2/negotiate_spec.rb:69-75) checks `pad.size` after a `calc_length` that this revision lacks. The lemma states the pad length a read takes after i dialects.
- `Smb2Base.ResponsePadVector`: the response test (spec/smb2/negotiate_spec.rb:165-171) expects `calc_length` to resize the pad to (8 - i) mod 8 bytes. lib/packetgen/plugin/smb2/negotiate/response.rb:181-186 never touches the pad, so a built response keeps its 8 default bytes. The lemma states the pad length a read takes after an i-byte buffer, not the size the test checks.
- When `data_offset` or `byte_count` is too small, the `pad1` and `extra_bytes` lengths computed from it would be negative. `SmbTrans.PadLength` and `SmbNtCreateRequest.ExtraLength` read no bytes then. The engine's handling of a negative length is not part of this model.
- `SmbHeader.Read`: the header read vector of bytes 0 to 31 (spec/smb_spec.rb:34-50) is not evaluated field by field. The contract states that every 32-byte input is read and written back, not the values of that particular input.
- `Smb2Header.Read`: the same holds for the SMB2 header read vector of bytes 0 to 63 (spec/smb2_spec.rb:38-55).
- `NtlmNegotiate.Names` states only that nothing but the two names changes. The values of the names are stated by `NtlmNegotiate.ReadOfCalcLength`.
- `NtlmNegotiate.Read` states the field read but not the names. The names are stated by `NtlmNegotiate.ReadOfCalcLength` for messages whose lengths `calc_length` set.
- `SmbBrowser.ClassOf` states one direction. The exact set of opcodes with a class is `SmbBrowser.ClassOfOpcode`.

## Findings

| source | as written | input that shows it | evidently intended | confidence | as-written member | corrected member |
|---|---|---|---|---|---|---|
| lib/packetgen/plugin/ntlm/av_pair.rb:63-68 | `each_with_index` returns the array itself when no end-of-list pair stops it, and `stop >= size` then calls `>=` on an array, which raises NoMethodError | an empty list, or one DomainName pair with no end-of-list pair | a list without an end-of-list pair is kept whole | not executed | NtlmAvPair.TruncateAsWritten, NtlmAvPair.NoEolRaises | NtlmAvPair.Truncate, NtlmAvPair.ReadArrayOfBytes |
| lib/packetgen/plugin/smb/browser.rb:55 | `const_defined?` is asked for the printed opcode; an opcode outside `OPCODES` prints as `<unknown:N>`, which is not a valid constant name, so NameError is raised | the one-byte input `[3]` | an opcode with no class falls back to the generic opcode and body read | not executed | SmbBrowser.ReadAsWritten, SmbBrowser.UnknownOpcodeRaises | SmbBrowser.Read, SmbBrowser.ReadToBytes |
