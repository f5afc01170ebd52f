/** The Kaseikyo (Panasonic) 48-bit frame: its timing constants, the vendor
    codes the library knows, the 4-bit vendor parity, the layout of the 32-bit
    payload word that follows the 16-bit vendor code, and the two raw words in
    which the frame is sent.

    Frame, least significant bit first:
      16 bits vendor code V,
       4 bits vendor parity (XOR of the four nibbles of V),
      12 bits address (device and sub-device),
       8 bits command,
       8 bits checksum (XOR of the three payload bytes before it),
    framed by a 3456/1728 us header and a stop mark. */
module Kaseikyo {
  import opened Bitwise
  import opened IRData
  import opened LongUnions
  import opened PulseDistance

  const VendorIdBits: nat := 16
  const VendorIdParityBits: nat := 4
  const AddressBits: nat := 12
  const CommandBits: nat := 8
  const ParityBits: nat := 8
  /** 48 bits in a frame. */
  const KaseikyoBits: nat := VendorIdBits + VendorIdParityBits + AddressBits + CommandBits + ParityBits

  /** The carrier is 37 kHz; the base unit is 16 carrier periods. */
  const KaseikyoKHz: nat := 37
  const Unit: nat := 432
  const HeaderMark: nat := 8 * Unit
  const HeaderSpace: nat := 4 * Unit
  const BitMark: nat := Unit
  const OneSpace: nat := 3 * Unit
  const ZeroSpace: nat := Unit

  const AverageDuration: nat := 56000
  const RepeatPeriod: nat := 130000
  const RepeatDistance: int := RepeatPeriod - AverageDuration
  const MicrosInOneMilli: nat := 1000

  const PanasonicVendorIdCode: Word := 0x2002
  const DenonVendorIdCode: Word := 0x3254
  const MitsubishiVendorIdCode: Word := 0xCB23
  const SharpVendorIdCode: Word := 0x5AAA
  const JvcVendorIdCode: Word := 0x0103

  /** `KaseikyoProtocolConstants`: one and zero share the bit mark and differ
      in the space; LSB first; a stop bit is sent; repeat period in ms. */
  function KaseikyoProtocolConstants(): (c: ProtocolConstants)
    ensures Distinguishable(c) && c.isLsbFirst && c.sendStopBit
    ensures c.oneMarkMicros == c.zeroMarkMicros == BitMark
    ensures c.oneSpaceMicros == 3 * c.zeroSpaceMicros
    ensures c.headerMarkMicros == 2 * c.headerSpaceMicros == 8 * c.zeroSpaceMicros
  {
    ProtocolConstants(Protocol.Kaseikyo, KaseikyoKHz, HeaderMark, HeaderSpace, BitMark, OneSpace,
      BitMark, ZeroSpace, true, true, RepeatPeriod / MicrosInOneMilli)
  }

  /** The number of entries a complete frame leaves in the timing buffer:
      the gap, header mark and space, a mark and a space per bit, the stop
      mark. */
  const FrameEntries: nat := 2 * KaseikyoBits + 4

  /** The layout of the timing buffer of every 48-bit frame, which the
      decoder relies on: 100 entries; the durations of the 16 vendor-code
      bits from entry 3; those of the 32 payload bits from entry 35; and the
      stop mark as the one entry after the payload run, closing the buffer. */
  lemma FrameLayout(gap: nat, bits: seq<bool>)
    requires |bits| == KaseikyoBits
    ensures var c := KaseikyoProtocolConstants();
      var buffer := Frame(c, gap, bits);
      && |buffer| == FrameEntries == 100
      && buffer[3..3 + 2 * VendorIdBits] == Timings(c, bits[..VendorIdBits])
      && 3 + 2 * VendorIdBits == 35
      && buffer[35..35 + 2 * 32] == Timings(c, bits[VendorIdBits..])
      && 35 + 2 * 32 + 1 == |buffer|
      && buffer[|buffer| - 1] == BitMark
  {
    var c := KaseikyoProtocolConstants();
    assert bits == bits[..VendorIdBits] + bits[VendorIdBits..];
    FrameSlices(c, gap, bits[..VendorIdBits], bits[VendorIdBits..]);
  }

  /** The 4-bit vendor parity: the vendor code folded onto itself twice, by
      XOR-ing its two bytes into one byte and then the two nibbles of that
      byte into one nibble. */
  function VendorParity(vendorCode: Word): (p: nat)
    ensures p < 0x10
  {
    var folded := Xor(vendorCode, vendorCode / 0x100, 16) % 0x100;
    Xor(folded, folded / 0x10, 8) % 0x10
  }

  /** The XOR of the four nibbles of a 16-bit value, lowest first. */
  function NibbleXor(v: Word): nat {
    Xor(Xor(Xor(v % 0x10, v / 0x10 % 0x10, 4), v / 0x100 % 0x10, 4), v / 0x1000, 4)
  }

  /** The byte the first fold leaves: its low nibble is the XOR of nibbles 0
      and 2 of the vendor code, its high nibble the XOR of nibbles 1 and 3. */
  lemma FoldedNibbles(v: Word)
    ensures var folded := Xor(v, v / 0x100, 16) % 0x100;
      folded % 0x10 == Xor(v % 0x10, v / 0x100 % 0x10, 4)
      && folded / 0x10 == Xor(v / 0x10 % 0x10, v / 0x1000, 4)
  {
    var hi := v / 0x100;
    var folded := Xor(v, hi, 16) % 0x100;
    Octet(Xor(v, hi, 16));
    XorLowBits(v, hi, 16, 8);
    assert folded == Xor(v, hi, 8);
    Nibble(folded);
    XorLowBits(v, hi, 8, 4);
    XorOfLowBits(v, hi, 4);
    Nibble(v);
    Nibble(hi);
    XorShiftRight(v, hi, 8, 4);
    XorOfLowBits(v / 0x10, hi / 0x10, 4);
    Nibble(v / 0x10);
    Nibble(hi);
    Octet(v);
    ShiftShift(v, 8, 4);
    ShiftBy12(v);
    Pow2Values();
    LowBitsOfSmall(v / 0x1000, 4);
  }

  /** XOR of four values taken in pairs (0 with 2, 1 with 3) is their XOR in
      order. */
  lemma XorOfFourInPairs(n0: nat, n1: nat, n2: nat, n3: nat, n: nat)
    ensures Xor(Xor(n0, n2, n), Xor(n1, n3, n), n) == Xor(Xor(Xor(n0, n1, n), n2, n), n3, n)
  {
    XorAssociates(n0, n2, Xor(n1, n3, n), n);
    XorAssociates(n2, n1, n3, n);
    XorCommutes(n2, n1, n);
    XorAssociates(n1, n2, n3, n);
    XorAssociates(Xor(n0, n1, n), n2, n3, n);
    XorAssociates(n0, n1, Xor(n2, n3, n), n);
  }

  /** The vendor parity is the XOR of the four nibbles of the vendor code. */
  lemma VendorParityIsNibbleXor(v: Word)
    ensures VendorParity(v) == NibbleXor(v)
  {
    var folded := Xor(v, v / 0x100, 16) % 0x100;
    var n0, n1, n2, n3 := v % 0x10, v / 0x10 % 0x10, v / 0x100 % 0x10, v / 0x1000;
    FoldedNibbles(v);
    Nibble(Xor(folded, folded / 0x10, 8));
    XorLowBits(folded, folded / 0x10, 8, 4);
    XorOfLowBits(folded, folded / 0x10, 4);
    Nibble(folded);
    Nibble(folded / 0x10);
    Pow2Values();
    LowBitsOfSmall(folded / 0x10, 4);
    XorOfFourInPairs(n0, n1, n2, n3, 4);
  }

  /** The vendor code -> protocol table of the decoder; every code the table
      does not name is plain Kaseikyo. */
  function VendorProtocol(vendorId: Word): (p: Protocol)
    ensures p != Unknown
    ensures p == Panasonic <==> vendorId == PanasonicVendorIdCode
    ensures p == KaseikyoSharp <==> vendorId == SharpVendorIdCode
    ensures p == KaseikyoDenon <==> vendorId == DenonVendorIdCode
    ensures p == KaseikyoJvc <==> vendorId == JvcVendorIdCode
    ensures p == KaseikyoMitsubishi <==> vendorId == MitsubishiVendorIdCode
  {
    if vendorId == PanasonicVendorIdCode then Panasonic
    else if vendorId == SharpVendorIdCode then KaseikyoSharp
    else if vendorId == DenonVendorIdCode then KaseikyoDenon
    else if vendorId == JvcVendorIdCode then KaseikyoJvc
    else if vendorId == MitsubishiVendorIdCode then KaseikyoMitsubishi
    else Protocol.Kaseikyo
  }

  /** The fields of the 32-bit payload word that follows the vendor code. */
  datatype PayloadFields = PayloadFields(vendorParity: nat, address: nat, command: nat, checksum: nat)
  {
    /** Each field within its width: 4-bit parity, 12-bit address, 8-bit
        command and checksum. */
    predicate WellFormed() {
      vendorParity < 0x10 && address < 0x1000 && command < 0x100 && checksum < 0x100
    }
  }

  /** The payload word with the given fields: parity in bits 0-3, address in
      bits 4-15, command in bits 16-23, checksum in bits 24-31. */
  function Pack(f: PayloadFields): (p: Long)
    requires f.WellFormed()
    ensures Unpack(p) == f
  {
    var p := f.vendorParity + 0x10 * f.address + 0x1_0000 * f.command + 0x100_0000 * f.checksum;
    DivModOf(p, 0x10, f.address + 0x1000 * f.command + 0x10_0000 * f.checksum, f.vendorParity);
    DivModOf(p / 0x10, 0x1000, f.command + 0x100 * f.checksum, f.address);
    DivModOf(p, 0x1_0000, f.command + 0x100 * f.checksum, f.vendorParity + 0x10 * f.address);
    DivModOf(p / 0x1_0000, 0x100, f.checksum, f.command);
    DivModOf(p, 0x100_0000, f.checksum, f.vendorParity + 0x10 * f.address + 0x1_0000 * f.command);
    p
  }

  /** The fields of a payload word. */
  function Unpack(p: Long): (f: PayloadFields)
    ensures f.WellFormed()
  {
    PayloadFields(p % 0x10, p / 0x10 % 0x1000, p / 0x1_0000 % 0x100, p / 0x100_0000)
  }

  /** Every word is the packing of its fields. */
  lemma PackUnpack(p: Long)
    ensures Pack(Unpack(p)) == p
  {
    var q1, r0 := p / 0x10, p % 0x10;
    var q2, r1 := q1 / 0x1000, q1 % 0x1000;
    var q3, r2 := q2 / 0x100, q2 % 0x100;
    assert p == r0 + 0x10 * r1 + 0x1_0000 * r2 + 0x100_0000 * q3;
    DivModOf(p, 0x1_0000, r2 + 0x100 * q3, r0 + 0x10 * r1);
    DivModOf(p, 0x100_0000, q3, r0 + 0x10 * r1 + 0x1_0000 * r2);
  }

  /** The XOR of the three low bytes of a payload word: what its high byte
      must hold. */
  function XorOfLowBytes(p: Long): Byte {
    Pow2Values();
    Xor(Xor(LowByteOf(p), MidLowByteOf(p), 8), MidHighByteOf(p), 8)
  }

  /** The checksum depends on the three low bytes only. */
  lemma LowBytesDecideChecksum(p: Long, q: Long)
    requires LowByteOf(p) == LowByteOf(q) && MidLowByteOf(p) == MidLowByteOf(q)
    requires MidHighByteOf(p) == MidHighByteOf(q)
    ensures XorOfLowBytes(p) == XorOfLowBytes(q)
  {
  }

  /** The payload word carries a correct checksum. */
  predicate ChecksumValid(p: Long) {
    HighByteOf(p) == XorOfLowBytes(p)
  }

  /** The payload word the sender transmits for a vendor code, address and
      command: its parity is the vendor parity, its address the address
      without its top nibble, its command the command, and its checksum is
      correct. The checksum is computed over the three low bytes with the
      high byte still clear. */
  function EncodePayload(vendorCode: Word, address: Word, command: Byte): (p: Long)
    ensures Unpack(p) == PayloadFields(VendorParity(vendorCode), address % 0x1000, command, HighByteOf(p))
    ensures ChecksumValid(p)
  {
    var unchecked := PayloadFields(VendorParity(vendorCode), address % 0x1000, command, 0);
    var draft := Pack(unchecked);
    var f := unchecked.(checksum := XorOfLowBytes(draft));
    var p := Pack(f);
    BytesOfPayload(f);
    BytesOfPayload(unchecked);
    assert LowByteOf(p) == LowByteOf(draft) && MidLowByteOf(p) == MidLowByteOf(draft);
    assert MidHighByteOf(p) == MidHighByteOf(draft);
    LowBytesDecideChecksum(p, draft);
    p
  }

  /** The three low bytes of a payload word do not depend on its checksum. */
  lemma BytesOfPayload(f: PayloadFields)
    requires f.WellFormed()
    ensures LowByteOf(Pack(f)) == f.vendorParity + 0x10 * (f.address % 0x10)
    ensures MidLowByteOf(Pack(f)) == f.address / 0x10
    ensures MidHighByteOf(Pack(f)) == f.command && HighByteOf(Pack(f)) == f.checksum
  {
    BytesOfFields(f.vendorParity, f.address, f.command, f.checksum, Pack(f));
  }

  lemma BytesOfFields(parity: nat, address: nat, command: Byte, checksum: Byte, p: Long)
    requires parity < 0x10 && address < 0x1000
    requires p == parity + 0x10 * address + 0x1_0000 * command + 0x100_0000 * checksum
    ensures LowByteOf(p) == parity + 0x10 * (address % 0x10) && MidLowByteOf(p) == address / 0x10
    ensures MidHighByteOf(p) == command && HighByteOf(p) == checksum
  {
    var b0, b1 := parity + 0x10 * (address % 0x10), address / 0x10;
    assert p == b0 + 0x100 * b1 + 0x1_0000 * command + 0x100_0000 * checksum;
    BytesOfFromBytes(b0, b1, command, checksum);
  }

  /** The two 32-bit raw words the frame is sent from: word 0 holds the vendor
      code in its low half and the low half of the payload in its high half,
      word 1 the high half of the payload. */
  function RawWords(vendorCode: Word, payload: Long): (raw: seq<Long>)
    ensures |raw| == 2 && 32 * |raw| >= KaseikyoBits
  {
    [vendorCode + 0x1_0000 * LowWordOf(payload), HighWordOf(payload)]
  }

  /** The 48 bits that go on the air from the raw words are the 16 bits of
      the vendor code followed by the 32 bits of the payload. */
  lemma RawWordsStream(vendorCode: Word, payload: Long)
    ensures Stream(RawWords(vendorCode, payload), KaseikyoBits)
         == Bits(vendorCode, 16) + Bits(payload, 32)
  {
    StreamOfTwoWords(RawWords(vendorCode, payload), vendorCode, payload);
  }

  /** The 32 bits of a payload word on the air, LSB first: 4 bits of parity,
      12 of address, 8 of command, 8 of checksum. */
  lemma PayloadBits(f: PayloadFields)
    requires f.WellFormed()
    ensures Bits(Pack(f), 32)
         == Bits(f.vendorParity, 4) + Bits(f.address, 12) + Bits(f.command, 8) + Bits(f.checksum, 8)
  {
    FieldBits(f.vendorParity, f.address, f.command, f.checksum, Pack(f));
  }

  lemma FieldBits(parity: nat, address: nat, command: nat, checksum: nat, total: nat)
    requires parity < 0x10 && address < 0x1000 && command < 0x100
    requires total == parity + 0x10 * address + 0x1_0000 * command + 0x100_0000 * checksum
    ensures Bits(total, 32) == Bits(parity, 4) + Bits(address, 12) + Bits(command, 8) + Bits(checksum, 8)
  {
    var upper := command + 0x100 * checksum;
    var middle := address + 0x1000 * upper;
    var whole, low4, rest28, mid12, rest16, byte2, byte3 :=
      Bits(total, 32), Bits(parity, 4), Bits(middle, 28), Bits(address, 12),
      Bits(upper, 16), Bits(command, 8), Bits(checksum, 8);
    SplitBits4(parity, middle, total);
    assert whole == low4 + rest28;
    SplitBits12(address, upper, middle);
    assert rest28 == mid12 + rest16;
    SplitBits8(command, checksum, upper);
    assert rest16 == byte2 + byte3;
    ConcatChain(whole, low4, rest28, mid12, rest16, byte2, byte3);
  }

  /** `BitsSplit` below a nibble, a 12-bit field and a byte. */
  lemma SplitBits4(x: nat, y: nat, z: nat)
    requires x < 0x10 && z == x + 0x10 * y
    ensures Bits(z, 32) == Bits(x, 4) + Bits(y, 28)
  {
    assert Pow2(4) == 0x10;
    BitsSplit(x, y, 4, 28);
  }

  lemma SplitBits12(x: nat, y: nat, z: nat)
    requires x < 0x1000 && z == x + 0x1000 * y
    ensures Bits(z, 28) == Bits(x, 12) + Bits(y, 16)
  {
    assert Pow2(12) == 0x1000;
    BitsSplit(x, y, 12, 16);
  }

  lemma SplitBits8(x: nat, y: nat, z: nat)
    requires x < 0x100 && z == x + 0x100 * y
    ensures Bits(z, 16) == Bits(x, 8) + Bits(y, 8)
  {
    assert Pow2(8) == 0x100;
    BitsSplit(x, y, 8, 8);
  }

  lemma ConcatChain<T>(s: seq<T>, a: seq<T>, m: seq<T>, b: seq<T>, u: seq<T>, c: seq<T>, d: seq<T>)
    requires s == a + m && m == b + u && u == c + d
    ensures s == a + b + c + d
  {
  }
}
