/** Sending and receiving together: what the decoder makes of the frame the
    sender builds, read through the ideal pulse-distance coding. */
module KaseikyoRoundTrip {
  import opened Bitwise
  import opened IRData
  import opened PulseDistance
  import opened Kaseikyo
  import opened KaseikyoSend
  import opened KaseikyoDecode

  /** Decoding the vendor code and the payload word the sender built gives
      back the address without its top nibble and the command, maps the
      vendor code to its protocol, and leaves PARITY_FAILED as it was: both
      parity checks pass. */
  lemma SendThenDecode(prev: DecodedResult, vendorCode: Word, address: Word, command: Byte)
    ensures var r := KaseikyoResult(prev, vendorCode, EncodePayload(vendorCode, address, command));
      && r.address == address % 0x1000
      && r.command == command
      && r.protocol == VendorProtocol(vendorCode)
      && r.numberOfBits == 48
      && (ParityFailed in r.flags <==> ParityFailed in prev.flags)
  {
    var payload := EncodePayload(vendorCode, address, command);
    EncodedChecksPass(vendorCode, address, command);
    ParityFailedIff(prev, vendorCode, payload);
  }

  /** The timing buffer of the frame a transmission carries has 100 entries,
      its header matches, and the ideal word decoder reads the vendor code
      from the 16 bits at entry 3 and the payload word from the 32 bits at
      entry 35 = 3 + 2 * 16. */
  lemma FrameOfTransmission(address: Word, command: Byte, numberOfRepeats: int, vendorCode: Word, gap: nat)
    ensures var t := KaseikyoTransmission(address, command, numberOfRepeats, vendorCode);
      var buffer := Frame(t.constants, gap, Stream(t.rawData, t.numberOfBits));
      && |buffer| == 2 * KaseikyoBits + 4 == 100
      && HeaderMatches(t.constants, buffer)
      && DecodeWord(t.constants, buffer, 3, VendorIdBits) == Some(vendorCode as nat)
      && DecodeWord(t.constants, buffer, 3 + 2 * VendorIdBits, 32)
         == Some(EncodePayload(vendorCode, address, command) as nat)
  {
    var t := KaseikyoTransmission(address, command, numberOfRepeats, vendorCode);
    var c := t.constants;
    var payload := EncodePayload(vendorCode, address, command);
    var buffer := Frame(c, gap, Bits(vendorCode, 16) + Bits(payload, 32));
    FrameSlices(c, gap, Bits(vendorCode, 16), Bits(payload, 32));
    Pow2Values();
    DecodeTimings(c, buffer, 3, vendorCode, 16);
    DecodeTimings(c, buffer, 35, payload, 32);
  }

  /** The whole receive path on the frame of a transmission: the header
      check and the word decodes at entries 3 and 35 of its timing buffer,
      handed to the decoder, make it accept the frame with the record for
      the vendor code and payload word the sender built. */
  lemma DecodeOfTransmission(prev: DecodedResult, address: Word, command: Byte, numberOfRepeats: int,
                             vendorCode: Word, gap: nat)
    ensures var t := KaseikyoTransmission(address, command, numberOfRepeats, vendorCode);
      var buffer := Frame(t.constants, gap, Stream(t.rawData, t.numberOfBits));
      DecodeOutcome(prev, |buffer|, HeaderMatches(t.constants, buffer),
                    DecodeRawWord(t.constants, buffer, 3, VendorIdBits),
                    DecodeRawWord(t.constants, buffer, 3 + 2 * VendorIdBits, 32))
      == (KaseikyoResult(prev.(decodedRawData := vendorCode), vendorCode,
                         EncodePayload(vendorCode, address, command)), true)
  {
    var t := KaseikyoTransmission(address, command, numberOfRepeats, vendorCode);
    var buffer := Frame(t.constants, gap, Stream(t.rawData, t.numberOfBits));
    var payload := EncodePayload(vendorCode, address, command);
    FrameOfTransmission(address, command, numberOfRepeats, vendorCode, gap);
    assert |buffer| == FrameEntries && HeaderMatches(t.constants, buffer);
    assert DecodeRawWord(t.constants, buffer, 3, VendorIdBits) == Some(vendorCode as Long);
    assert DecodeRawWord(t.constants, buffer, 3 + 2 * VendorIdBits, 32) == Some(payload);
    DivModOf(vendorCode, 0x1_0000, 0, vendorCode);
  }

  /** Each vendor stub of the sender produces a frame that decodes to its
      own protocol, without a parity failure. */
  lemma StubsDecodeToTheirProtocol(prev: DecodedResult, address: Word, command: Byte)
    requires ParityFailed !in prev.flags
    ensures var r := KaseikyoResult(prev, PanasonicVendorIdCode,
                                    EncodePayload(PanasonicVendorIdCode, address, command));
      r.protocol == Panasonic && ParityFailed !in r.flags
    ensures var r := KaseikyoResult(prev, DenonVendorIdCode, EncodePayload(DenonVendorIdCode, address, command));
      r.protocol == KaseikyoDenon && ParityFailed !in r.flags
    ensures var r := KaseikyoResult(prev, MitsubishiVendorIdCode,
                                    EncodePayload(MitsubishiVendorIdCode, address, command));
      r.protocol == KaseikyoMitsubishi && ParityFailed !in r.flags
    ensures var r := KaseikyoResult(prev, SharpVendorIdCode, EncodePayload(SharpVendorIdCode, address, command));
      r.protocol == KaseikyoSharp && ParityFailed !in r.flags
    ensures var r := KaseikyoResult(prev, JvcVendorIdCode, EncodePayload(JvcVendorIdCode, address, command));
      r.protocol == KaseikyoJvc && ParityFailed !in r.flags
  {
    SendThenDecode(prev, PanasonicVendorIdCode, address, command);
    SendThenDecode(prev, DenonVendorIdCode, address, command);
    SendThenDecode(prev, MitsubishiVendorIdCode, address, command);
    SendThenDecode(prev, SharpVendorIdCode, address, command);
    SendThenDecode(prev, JvcVendorIdCode, address, command);
  }
}
