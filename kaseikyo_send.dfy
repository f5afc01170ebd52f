/** The sending side: `IRsend::sendKaseikyo` and its five vendor stubs.

    The sender builds the payload word by successive writes through the views
    of a `LongUnion`, fills a two-word raw array and hands it, with the
    protocol constants, the bit count and the repeat count, to the generic
    pulse-distance sender. That hand-over is the result here: a
    `Transmission` record. Carrier set-up (`enableIROut`) and the pulse
    output itself are not part of this model. */
module KaseikyoSend {
  import opened Bitwise
  import opened LongUnions
  import opened PulseDistance
  import opened Kaseikyo

  /** What `sendPulseDistanceWidthFromArray` is called with. */
  datatype Transmission = Transmission(
    constants: ProtocolConstants,
    rawData: seq<Long>,
    numberOfBits: nat,
    numberOfRepeats: int
  )

  /** The transmission of a frame with the given address, command and vendor
      code: 48 bits of the Kaseikyo constants taken from the two raw words of
      the vendor code and the payload word. */
  function KaseikyoTransmission(address: Word, command: Byte, numberOfRepeats: int, vendorCode: Word): (t: Transmission)
    ensures t.constants == KaseikyoProtocolConstants() && t.numberOfRepeats == numberOfRepeats
    ensures t.numberOfBits == KaseikyoBits <= 32 * |t.rawData|
    ensures Stream(t.rawData, t.numberOfBits)
         == Bits(vendorCode, 16) + Bits(EncodePayload(vendorCode, address, command), 32)
  {
    RawWordsStream(vendorCode, EncodePayload(vendorCode, address, command));
    Transmission(KaseikyoProtocolConstants(), RawWords(vendorCode, EncodePayload(vendorCode, address, command)),
      KaseikyoBits, numberOfRepeats)
  }

  /** What goes on the air: 48 bits, LSB first, that are the vendor code, its
      parity nibble, the address without its top nibble, the command and the
      XOR checksum of the three payload bytes before it. */
  lemma TransmissionBits(address: Word, command: Byte, numberOfRepeats: int, vendorCode: Word)
    ensures var t := KaseikyoTransmission(address, command, numberOfRepeats, vendorCode);
      var payload := EncodePayload(vendorCode, address, command);
      && t.numberOfBits == 48 == 32 * |t.rawData| - 16
      && t.constants == KaseikyoProtocolConstants()
      && Stream(t.rawData, t.numberOfBits)
         == Bits(vendorCode, 16) + Bits(VendorParity(vendorCode), 4) + Bits(address % 0x1000, 12)
            + Bits(command, 8) + Bits(XorOfLowBytes(payload), 8)
  {
    var payload := EncodePayload(vendorCode, address, command);
    var f := Unpack(payload);
    RawWordsStream(vendorCode, payload);
    PackUnpack(payload);
    PayloadBits(f);
    ConcatAfter(Bits(vendorCode, 16), Bits(payload, 32), Bits(f.vendorParity, 4), Bits(f.address, 12),
      Bits(f.command, 8), Bits(f.checksum, 8));
  }

  lemma ConcatAfter<T>(v: seq<T>, p: seq<T>, a: seq<T>, b: seq<T>, c: seq<T>, d: seq<T>)
    requires p == a + b + c + d
    ensures v + p == v + a + b + c + d
  {
  }

  /** `IRsend::sendKaseikyo`: the vendor parity, then the payload written
      through the union (low word = address << 4, low byte |= parity,
      mid-high byte = command, high byte = checksum), then the two raw
      words. */
  method SendKaseikyo(address: Word, command: Byte, numberOfRepeats: int, vendorCode: Word) returns (t: Transmission)
    ensures t == KaseikyoTransmission(address, command, numberOfRepeats, vendorCode)
  {
    Pow2Values();
    var vendorParity: Byte := Xor(vendorCode, vendorCode / 0x100, 16) % 0x100;
    vendorParity := Xor(vendorParity, vendorParity / 0x10, 8) % 0x10;
    assert vendorParity == VendorParity(vendorCode);

    var sendValue := new LongUnion();
    sendValue.SetLowWord((address * 0x10) % 0x1_0000);
    sendValue.SetLowByte(Or(sendValue.LowByte, vendorParity, 8));
    sendValue.SetMidHighByte(command);
    sendValue.SetHighByte(Xor(Xor(command, sendValue.LowByte, 8), sendValue.MidLowByte, 8));
    ghost var payload := EncodePayload(vendorCode, address, command);
    SenderLowBytes(address, vendorParity);
    SenderPayload(vendorCode, address, command, sendValue.LowByte, sendValue.MidLowByte, sendValue.HighByte);

    var rawKaseikyoData := new Long[2];
    rawKaseikyoData[0] := Or((sendValue.LowWord() * 0x1_0000) % 0x1_0000_0000, vendorCode, 32);
    rawKaseikyoData[1] := sendValue.HighWord();
    RawWordsFromUnion(vendorCode, payload, sendValue.LowWord(), sendValue.HighWord());
    SeqOfTwo(rawKaseikyoData[..], rawKaseikyoData[0], rawKaseikyoData[1]);
    t := Transmission(KaseikyoProtocolConstants(), rawKaseikyoData[..], KaseikyoBits, numberOfRepeats);
  }

  /** The two low bytes after `LowWord = address << 4; LowByte |= parity`:
      the parity under the low nibble of the address, then the next two
      nibbles of the address. The top nibble is shifted out of the 16-bit
      word. */
  lemma SenderLowBytes(address: Word, parity: nat)
    requires parity < 0x10
    ensures Or((address * 0x10) % 0x1_0000 % 0x100, parity, 8) == parity + 0x10 * (address % 0x1000 % 0x10)
    ensures (address * 0x10) % 0x1_0000 / 0x100 == address % 0x1000 / 0x10
  {
    var m := address % 0x1000;
    DivModOf(address * 0x10, 0x1_0000, address / 0x1000, 0x10 * m);
    DivModOf(0x10 * m, 0x100, m / 0x10, 0x10 * (m % 0x10));
    Pow2Values();
    OrCommutes(0x10 * (m % 0x10), parity, 8);
    OrIsAdd(parity, m % 0x10, 4, 8);
  }

  /** The checksum the sender writes (command first) is the one the payload
      word carries (command last). */
  lemma ChecksumOrder(command: nat, low: nat, midLow: nat)
    ensures Xor(Xor(command, low, 8), midLow, 8) == Xor(Xor(low, midLow, 8), command, 8)
  {
    XorCommutes(command, low, 8);
    XorAssociates(low, command, midLow, 8);
    XorCommutes(command, midLow, 8);
    XorAssociates(low, midLow, command, 8);
  }

  /** The four bytes the sender leaves in the union are those of the payload
      word. */
  lemma SenderPayload(vendorCode: Word, address: Word, command: Byte, low: Byte, midLow: Byte, high: Byte)
    requires low == VendorParity(vendorCode) + 0x10 * (address % 0x1000 % 0x10)
    requires midLow == address % 0x1000 / 0x10
    requires high == Xor(Xor(command, low, 8), midLow, 8)
    ensures FromBytes(low, midLow, command, high) == EncodePayload(vendorCode, address, command)
  {
    var parity, m := VendorParity(vendorCode), address % 0x1000;
    var unchecked := PayloadFields(parity, m, command, 0);
    BytesOfPayload(unchecked);
    ChecksumOrder(command, low, midLow);
    assert XorOfLowBytes(Pack(unchecked)) == high;
    var full := unchecked.(checksum := high);
    assert EncodePayload(vendorCode, address, command) == Pack(full);
    LowBytesOfFields(parity, m, low, midLow);
    assert FromBytes(low, midLow, command, high) == parity + 0x10 * m + 0x1_0000 * command + 0x100_0000 * high;
  }

  /** The two low bytes that hold a parity nibble and a 12-bit address. */
  lemma LowBytesOfFields(parity: nat, m: nat, low: nat, midLow: nat)
    requires m < 0x1000 && low == parity + 0x10 * (m % 0x10) && midLow == m / 0x10
    ensures low + 0x100 * midLow == parity + 0x10 * m
  {
  }

  /** The raw words as the sender writes them from the words of the union
      that holds the payload. */
  lemma RawWordsFromUnion(vendorCode: Word, payload: Long, lowWord: Word, highWord: Word)
    requires payload == lowWord + 0x1_0000 * highWord
    ensures Or((lowWord * 0x1_0000) % 0x1_0000_0000, vendorCode, 32) == RawWords(vendorCode, payload)[0]
    ensures highWord == RawWords(vendorCode, payload)[1]
  {
    var shifted := 0x1_0000 * lowWord;
    DivModOf(shifted, 0x1_0000_0000, 0, shifted);
    assert (lowWord * 0x1_0000) % 0x1_0000_0000 == shifted;
    Pow2Values();
    OrCommutes(shifted, vendorCode, 32);
    OrIsAdd(vendorCode, lowWord, 16, 32);
    assert Or(shifted, vendorCode, 32) == vendorCode + shifted;
    DivModOf(payload, 0x1_0000, highWord, lowWord);
  }

  lemma SeqOfTwo(s: seq<Long>, a: Long, b: Long)
    requires |s| == 2 && s[0] == a && s[1] == b
    ensures s == [a, b]
  {
  }

  /** `sendPanasonic`: Kaseikyo with the Panasonic vendor code. */
  method SendPanasonic(address: Word, command: Byte, numberOfRepeats: int) returns (t: Transmission)
    ensures t == KaseikyoTransmission(address, command, numberOfRepeats, PanasonicVendorIdCode)
  {
    t := SendKaseikyo(address, command, numberOfRepeats, PanasonicVendorIdCode);
  }

  /** `sendKaseikyo_Denon`: Kaseikyo with the Denon vendor code. */
  method SendKaseikyoDenon(address: Word, command: Byte, numberOfRepeats: int) returns (t: Transmission)
    ensures t == KaseikyoTransmission(address, command, numberOfRepeats, DenonVendorIdCode)
  {
    t := SendKaseikyo(address, command, numberOfRepeats, DenonVendorIdCode);
  }

  /** `sendKaseikyo_Mitsubishi`: Kaseikyo with the Mitsubishi vendor code. */
  method SendKaseikyoMitsubishi(address: Word, command: Byte, numberOfRepeats: int) returns (t: Transmission)
    ensures t == KaseikyoTransmission(address, command, numberOfRepeats, MitsubishiVendorIdCode)
  {
    t := SendKaseikyo(address, command, numberOfRepeats, MitsubishiVendorIdCode);
  }

  /** `sendKaseikyo_Sharp`: Kaseikyo with the Sharp vendor code. */
  method SendKaseikyoSharp(address: Word, command: Byte, numberOfRepeats: int) returns (t: Transmission)
    ensures t == KaseikyoTransmission(address, command, numberOfRepeats, SharpVendorIdCode)
  {
    t := SendKaseikyo(address, command, numberOfRepeats, SharpVendorIdCode);
  }

  /** `sendKaseikyo_JVC`: Kaseikyo with the JVC vendor code. */
  method SendKaseikyoJvc(address: Word, command: Byte, numberOfRepeats: int) returns (t: Transmission)
    ensures t == KaseikyoTransmission(address, command, numberOfRepeats, JvcVendorIdCode)
  {
    t := SendKaseikyo(address, command, numberOfRepeats, JvcVendorIdCode);
  }
}
