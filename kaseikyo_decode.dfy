/** The receiving side: `IRrecv::decodeKaseikyo`.

    The decoder checks the length of the timing buffer, asks the generic
    routines to check the header and to decode the 16-bit vendor word and
    then the 32-bit payload word, and fills in the decoded-result record
    field by field. Parity failures are recorded in the flags; they never
    make the decoder return false.

    The generic routines are not part of this model: their outcomes are the
    parameters `headerMatches`, `vendorDecode` and `payloadDecode`. A
    successful word decode leaves the word in `decodedRawData`, as the
    library's routine does. */
module KaseikyoDecode {
  import opened Bitwise
  import opened IRData
  import opened LongUnions
  import opened PulseDistance
  import opened Kaseikyo

  /** What the decoder checks about a payload word: the parity field holds
      the parity of the vendor code, and the checksum field the XOR of the
      three bytes below it. */
  function ChecksPass(vendorId: Word, payload: Long): (pass: bool)
    ensures pass <==> Unpack(payload).vendorParity == VendorParity(vendorId)
                      && Unpack(payload).checksum == XorOfLowBytes(payload)
  {
    LowNibble(payload);
    VendorParity(vendorId) == LowByteOf(payload) % 0x10 && ChecksumValid(payload)
  }

  /** The record after a frame whose vendor word and payload word were both
      decoded: the address and command fields of the payload, the protocol of
      the vendor code, 48 bits, and the payload as raw data. The
      vendor-parity failure assigns the flags, everything after it only adds
      flags. */
  function KaseikyoResult(prev: DecodedResult, vendorId: Word, payload: Long): (r: DecodedResult)
    ensures r.address == Unpack(payload).address < 0x1000
    ensures r.command == Unpack(payload).command
    ensures r.protocol == VendorProtocol(vendorId) && r.numberOfBits == 48
    ensures r.decodedRawData == payload
  {
    AddressAndCommand(payload);
    var protocol := VendorProtocol(vendorId);
    var checked :=
      if VendorParity(vendorId) != LowByteOf(payload) % 0x10 then {ParityFailed, IsLsbFirst} else prev.flags;
    var tagged := if protocol == Protocol.Kaseikyo then checked + {ExtraInfo} else checked;
    var flags := if !ChecksumValid(payload) then tagged + {ParityFailed} else tagged;
    DecodedResult(protocol, LowWordOf(payload) / 0x10, MidHighByteOf(payload),
      if protocol == Protocol.Kaseikyo then vendorId else prev.extra, KaseikyoBits, flags, payload)
  }

  /** The record and the verdict of the decoder, given the record it starts
      from, the buffer length and what the generic routines report. */
  function DecodeOutcome(prev: DecodedResult, rawlen: nat, headerMatches: bool,
                         vendorDecode: Option<Long>, payloadDecode: Option<Long>): (out: (DecodedResult, bool))
    ensures out.1 <==> rawlen == 100 && headerMatches && vendorDecode.Some? && payloadDecode.Some?
    ensures !out.1 ==> out.0.(decodedRawData := prev.decodedRawData) == prev
  {
    if rawlen != FrameEntries || !headerMatches || vendorDecode.None? then (prev, false)
    else
      var afterVendor := prev.(decodedRawData := vendorDecode.value);
      if payloadDecode.None? then (afterVendor, false)
      else (KaseikyoResult(afterVendor, vendorDecode.value % 0x1_0000, payloadDecode.value), true)
  }

  /** The receiver: the length of the current timing buffer and the record
      that the decoders fill in. */
  class Receiver {
    var rawlen: nat
    var decodedIRData: DecodedResult

    constructor(rawlen: nat, decodedIRData: DecodedResult)
      ensures this.rawlen == rawlen && this.decodedIRData == decodedIRData
    {
      this.rawlen := rawlen;
      this.decodedIRData := decodedIRData;
    }

    /** `IRrecv::decodeKaseikyo` */
    method DecodeKaseikyo(headerMatches: bool, vendorDecode: Option<Long>, payloadDecode: Option<Long>)
      returns (decoded: bool)
      modifies this
      ensures rawlen == old(rawlen)
      ensures (decodedIRData, decoded)
           == DecodeOutcome(old(decodedIRData), rawlen, headerMatches, vendorDecode, payloadDecode)
    {
      if rawlen != 2 * KaseikyoBits + 4 {
        return false;
      }
      if !headerMatches {
        return false;
      }
      if vendorDecode.None? {
        return false;
      }
      decodedIRData := decodedIRData.(decodedRawData := vendorDecode.value);
      ghost var afterVendor := decodedIRData;

      var vendorId: Word := decodedIRData.decodedRawData % 0x1_0000;
      // The chain of vendor-code comparisons is the table `VendorProtocol`.
      var protocol := VendorProtocol(vendorId);

      Pow2Values();
      var vendorParity: Byte := Xor(vendorId, vendorId / 0x100, 16) % 0x100;
      vendorParity := Xor(vendorParity, vendorParity / 0x10, 8) % 0x10;
      assert vendorParity == VendorParity(vendorId);

      if payloadDecode.None? {
        return false;
      }
      decodedIRData := decodedIRData.(decodedRawData := payloadDecode.value);

      var value := new LongUnion();
      value.SetLong(decodedIRData.decodedRawData);
      WordsOfBytes(payloadDecode.value);
      decodedIRData := decodedIRData.(address := value.LowWord() / 0x10);
      decodedIRData := decodedIRData.(command := value.MidHighByte);
      var parity: Byte := Xor(Xor(value.LowByte, value.MidLowByte, 8), value.MidHighByte, 8);
      ghost var payload := payloadDecode.value;
      ghost var expected := KaseikyoResult(afterVendor, vendorId, payload);
      assert parity == XorOfLowBytes(payload);

      if vendorParity != value.LowByte % 0x10 {
        decodedIRData := decodedIRData.(flags := {ParityFailed, IsLsbFirst});
      }
      if protocol == Protocol.Kaseikyo {
        decodedIRData := decodedIRData.(flags := decodedIRData.flags + {ExtraInfo});
        decodedIRData := decodedIRData.(extra := vendorId);
      }
      if value.HighByte != parity {
        decodedIRData := decodedIRData.(flags := decodedIRData.flags + {ParityFailed});
      }
      decodedIRData := decodedIRData.(numberOfBits := KaseikyoBits);
      decodedIRData := decodedIRData.(protocol := protocol);
      assert decodedIRData.flags == expected.flags;
      assert decodedIRData.extra == expected.extra;
      assert decodedIRData.address == expected.address && decodedIRData.command == expected.command;
      return true;
    }
  }

  /** The address is the 12 bits of the low word above the parity nibble;
      the command is the third byte. */
  lemma AddressAndCommand(payload: Long)
    ensures LowWordOf(payload) / 0x10 == Unpack(payload).address
    ensures MidHighByteOf(payload) == Unpack(payload).command
  {
    var q := payload / 0x10;
    DivModOf(payload, 0x1_0000, q / 0x1000, 0x10 * (q % 0x1000) + payload % 0x10);
    DivModOf(LowWordOf(payload), 0x10, q % 0x1000, payload % 0x10);
  }

  /** PARITY_FAILED is set after the frame exactly when the vendor parity or
      the checksum is wrong, or when it was already set. */
  lemma ParityFailedIff(prev: DecodedResult, vendorId: Word, payload: Long)
    ensures ParityFailed in KaseikyoResult(prev, vendorId, payload).flags
        <==> !ChecksPass(vendorId, payload) || ParityFailed in prev.flags
  {
  }

  /** A wrong vendor parity throws away the flags the record held before;
      otherwise the decoder only adds flags, and only EXTRA_INFO and
      PARITY_FAILED. */
  lemma FlagsUpdate(prev: DecodedResult, vendorId: Word, payload: Long)
    ensures var r := KaseikyoResult(prev, vendorId, payload);
      if VendorParity(vendorId) != LowByteOf(payload) % 0x10 then
        r.flags - {ExtraInfo} == {ParityFailed, IsLsbFirst}
      else
        prev.flags <= r.flags && r.flags - prev.flags <= {ExtraInfo, ParityFailed}
  {
  }

  /** An unknown vendor code is kept in `extra` and announced by EXTRA_INFO;
      a known one leaves `extra` alone. */
  lemma ExtraInfoForUnknownVendor(prev: DecodedResult, vendorId: Word, payload: Long)
    ensures var r := KaseikyoResult(prev, vendorId, payload);
      && (r.protocol == Protocol.Kaseikyo ==> ExtraInfo in r.flags && r.extra == vendorId)
      && (r.protocol != Protocol.Kaseikyo ==>
            r.extra == prev.extra && (ExtraInfo in r.flags ==> ExtraInfo in prev.flags))
  {
  }

  /** A payload word passes both checks exactly when it is the word a sender
      builds for this vendor code from the address and command it carries. */
  lemma ChecksPassIffEncoded(vendorId: Word, payload: Long)
    ensures ChecksPass(vendorId, payload)
        <==> payload == EncodePayload(vendorId, LowWordOf(payload) / 0x10, MidHighByteOf(payload))
  {
    if ChecksPass(vendorId, payload) {
      ChecksPassEncoded(vendorId, payload);
    }
    if payload == EncodePayload(vendorId, LowWordOf(payload) / 0x10, MidHighByteOf(payload)) {
      EncodedChecksPass(vendorId, LowWordOf(payload) / 0x10, MidHighByteOf(payload));
    }
  }

  /** The low nibble of the low byte is the low nibble of the word. */
  lemma LowNibble(p: Long)
    ensures LowByteOf(p) % 0x10 == p % 0x10
  {
    var b := p % 0x100;
    DivModOf(p, 0x10, 0x10 * (p / 0x100) + b / 0x10, b % 0x10);
  }

  lemma ChecksPassEncoded(vendorId: Word, payload: Long)
    requires ChecksPass(vendorId, payload)
    ensures payload == EncodePayload(vendorId, LowWordOf(payload) / 0x10, MidHighByteOf(payload))
  {
    var f := Unpack(payload);
    AddressAndCommand(payload);
    LowNibble(payload);
    PackUnpack(payload);
    var unchecked := PayloadFields(VendorParity(vendorId), f.address, f.command, 0);
    BytesOfPayload(unchecked);
    BytesOfPayload(f);
    assert XorOfLowBytes(Pack(unchecked)) == XorOfLowBytes(payload);
    var full := unchecked.(checksum := XorOfLowBytes(Pack(unchecked)));
    assert full == f;
    var address: Word, command: Byte := LowWordOf(payload) / 0x10, MidHighByteOf(payload);
    assert address == f.address < 0x1000;
    DivModOf(address, 0x1000, 0, address);
    assert EncodePayload(vendorId, address, command) == Pack(full);
  }

  lemma EncodedChecksPass(vendorId: Word, address: Word, command: Byte)
    ensures ChecksPass(vendorId, EncodePayload(vendorId, address, command))
  {
    LowNibble(EncodePayload(vendorId, address, command));
  }
}
