# Kaseikyo / Panasonic IR codec

This project models the Kaseikyo (Panasonic) 48-bit infrared frame codec of
the Arduino-IRremote library, `src/ir_Kaseikyo.hpp`, and proves what the
sender builds and what the decoder makes of it.

A frame is sent least significant bit first and holds:

- the 16-bit vendor code;
- a 4-bit vendor parity, the XOR of the four nibbles of the vendor code;
- a 12-bit address;
- an 8-bit command;
- an 8-bit checksum, the XOR of the three payload bytes before it.

A 3456/1728 µs header comes before these fields and a stop mark after them.
The model is made of these modules:

- `Bitwise`: the C unsigned types `uint8_t`, `uint16_t` and `uint32_t` as
  bounded naturals. Masks and shifts are `%` and `/` by powers of two. `^`
  and `|` are the bit-by-bit functions `Xor` and `Or`, with their algebra
  proved.
- `LongUnions`: the library's `LongUnion`, a class holding four byte fields.
  Its word and long views are functions of those bytes. Each write through a
  view is a method that changes only the bytes under the view.
- `IRData`: the decoded-result record and the protocol and flag enumerations
  it uses.
- `PulseDistance`: an ideal, noise-free LSB-first pulse-distance coding,
  built from the protocol constants. It gives the order in which the bits of
  the raw words go on the air, the mark/space pair that carries each bit, and
  a word decoder that accepts exactly those durations. It says what the
  library's generic send and decode routines mean for a clean frame. It is
  not their implementation.
- `Kaseikyo`: the timing constants, the vendor codes, the vendor parity, the
  vendor → protocol table, and the layout of the 32-bit payload word and of
  the two raw words.
- `KaseikyoSend`: `sendKaseikyo` as a method. It writes the payload through
  a `LongUnion`, fills a two-element array and returns what it hands to the
  generic sender (a `Transmission`). The five vendor stubs are methods that
  call it.
- `KaseikyoDecode`: `decodeKaseikyo` as a method of a `Receiver` class. The
  receiver holds the buffer length and the `decodedIRData` record, and the
  method updates the record field by field. The header check and the two
  word decodes are parameters of the method. The method is proved equal to
  the function `DecodeOutcome`, and the flag, address and parity properties
  are proved about that function.
- `KaseikyoRoundTrip`: the sender and the decoder together, both on the
  payload word and on the timing buffer of the frame.

Where the documentation and the code disagree, the model follows the code:

- The reduced IRP comment at `src/ir_Kaseikyo.hpp:67` writes the checksum as
  `(X^D^S^F):8`, an XOR of fields of different widths. The code
  (`src/ir_Kaseikyo.hpp:120`, `:229`) and the first interpretation at `:57`
  XOR the three payload bytes. The model uses the byte XOR.
- The file header calls the address 16 bits. The code shifts it left by 4
  in a 16-bit word (`:117`), so only its low 12 bits are sent.

The decoder updates the receiver's record in place and does not reset its
flags. At `src/ir_Kaseikyo.hpp:224` the assignment of IS_LSB_FIRST is
commented out, with the remark that it is the start value of the flags.
The flags are assigned only on a vendor-parity failure (`:231-232`); every
other change OR-s a flag into what the record held (`:245-251`). The model
takes the record as it stands before the call (`prev`) and states every flag
property relative to it.

## Model

| member | source | states |
|---|---|---|
| Kaseikyo.KaseikyoProtocolConstants | src/ir_Kaseikyo.hpp:76-83 | one and zero share the 432 µs bit mark and differ in the space (3 units against 1); the header mark is twice the header space and 8 units; LSB first; a stop bit is sent |
| Kaseikyo.FrameLayout | src/ir_Kaseikyo.hpp:168-214 | for every 48-bit frame the timing buffer has 2·48+4 = 100 entries; the vendor-code durations lie from entry 3; the payload durations lie from entry 3+2·16 = 35; the stop mark is the single entry after them and ends the buffer |
| Kaseikyo.VendorParity | src/ir_Kaseikyo.hpp:111-112 | the vendor parity is below 16 |
| Kaseikyo.VendorParityIsNibbleXor | src/ir_Kaseikyo.hpp:111-112 | the two XOR folds give the XOR of the four nibbles of the vendor code, which is X of the IRP at :55 |
| Kaseikyo.VendorProtocol | src/ir_Kaseikyo.hpp:192-204 | the vendor → protocol table is total; each of the five known codes maps to its own protocol, in both directions; every other code is plain Kaseikyo, never UNKNOWN |
| Kaseikyo.Unpack | src/ir_Kaseikyo.hpp:225-229 | the fields read from a payload word fit their widths: parity 4 bits, address 12, command 8, checksum 8 |
| Kaseikyo.Pack | src/ir_Kaseikyo.hpp:117-120 | placing the four fields at bits 0, 4, 16 and 24 gives a word whose fields read back as those fields |
| Kaseikyo.PackUnpack | src/ir_Kaseikyo.hpp:225-229 | a payload word is determined by its four fields |
| Kaseikyo.BytesOfPayload | src/ir_Kaseikyo.hpp:117-120 | byte 0 of the payload is the parity under the low address nibble; byte 1 holds the upper 8 address bits; byte 2 is the command; byte 3 is the checksum |
| Kaseikyo.EncodePayload | src/ir_Kaseikyo.hpp:110-120 | the payload the sender builds carries the vendor parity, the address without its top nibble and the command, and its checksum is the XOR of its three low bytes |
| Kaseikyo.RawWords | src/ir_Kaseikyo.hpp:122-124 | the frame goes out from two 32-bit words, enough for its 48 bits |
| Kaseikyo.RawWordsStream | src/ir_Kaseikyo.hpp:123-125 | the 48 bits sent from the raw words are the 16 bits of the vendor code followed by the 32 bits of the payload |
| Kaseikyo.PayloadBits | src/ir_Kaseikyo.hpp:67-68 | the 32 payload bits on the air are 4 of parity, 12 of address, 8 of command and 8 of checksum, in that order |
| LongUnions.BytesOfFromBytes | src/ir_Kaseikyo.hpp:114-120 | the byte views of a value stored from four bytes are those bytes |
| LongUnions.FromBytesOfBytes | src/ir_Kaseikyo.hpp:225-226 | a 32-bit value is its four bytes, lowest first |
| LongUnions.WordsOfBytes | src/ir_Kaseikyo.hpp:123-124 | the low word is bytes 0-1 and the high word is bytes 2-3 |
| LongUnions.LongUnion.SetLong | src/ir_Kaseikyo.hpp:226 | `ULong = x` writes all four bytes, and the union then reads back x |
| LongUnions.LongUnion.SetLowWord | src/ir_Kaseikyo.hpp:117 | `UWord.LowWord = x` writes bytes 0 and 1 and keeps the high word |
| LongUnions.LongUnion.SetLowByte | src/ir_Kaseikyo.hpp:118 | writes byte 0 only |
| LongUnions.LongUnion.SetMidHighByte | src/ir_Kaseikyo.hpp:119 | writes byte 2 only |
| LongUnions.LongUnion.SetHighByte | src/ir_Kaseikyo.hpp:120 | writes byte 3 only |
| KaseikyoSend.KaseikyoTransmission | src/ir_Kaseikyo.hpp:122-125 | the generic sender gets the Kaseikyo constants, the caller's repeat count and 48 bits, which fit in the raw words; those bits are the 16 bits of the vendor code followed by the 32 bits of the sender's payload word |
| KaseikyoSend.SendKaseikyo | src/ir_Kaseikyo.hpp:106-126 | the union writes and the raw array produce exactly the transmission of the vendor code and of the payload word with the vendor parity, address, command and checksum: 48 bits, the Kaseikyo constants, the caller's repeat count |
| KaseikyoSend.TransmissionBits | src/ir_Kaseikyo.hpp:117-125 | what goes on the air is the vendor code (16 bits), then the vendor parity (4), the address without its top nibble (12), the command (8) and the checksum (8), LSB first |
| KaseikyoSend.SenderLowBytes | src/ir_Kaseikyo.hpp:117-118 | after `LowWord = aAddress << 4` and `LowByte \|= parity`, byte 0 is the parity plus the low address nibble and byte 1 the next two nibbles; the top nibble is lost |
| KaseikyoSend.ChecksumOrder | src/ir_Kaseikyo.hpp:120 | the checksum the sender writes with the command first equals the XOR of bytes 0, 1 and 2 |
| KaseikyoSend.SenderPayload | src/ir_Kaseikyo.hpp:117-120 | the four bytes left in the union form the payload word of the frame |
| KaseikyoSend.RawWordsFromUnion | src/ir_Kaseikyo.hpp:123-124 | `(uint32_t)LowWord << 16 \| aVendorCode` is the vendor code plus 2^16 times the low payload word, and word 1 is the high payload word |
| KaseikyoSend.SendPanasonic | src/ir_Kaseikyo.hpp:131-133 | sends the frame with vendor code 0x2002 |
| KaseikyoSend.SendKaseikyoDenon | src/ir_Kaseikyo.hpp:138-140 | sends the frame with vendor code 0x3254 |
| KaseikyoSend.SendKaseikyoMitsubishi | src/ir_Kaseikyo.hpp:145-147 | sends the frame with vendor code 0xCB23 |
| KaseikyoSend.SendKaseikyoSharp | src/ir_Kaseikyo.hpp:152-154 | sends the frame with vendor code 0x5AAA |
| KaseikyoSend.SendKaseikyoJvc | src/ir_Kaseikyo.hpp:159-161 | sends the frame with vendor code 0x0103 |
| KaseikyoDecode.DecodeOutcome | src/ir_Kaseikyo.hpp:168-272 | the decoder returns true exactly when the buffer has 100 entries, the header matches and both word decodes succeed, whatever the parities; when it returns false, it changes at most `decodedRawData` |
| KaseikyoDecode.Receiver.DecodeKaseikyo | src/ir_Kaseikyo.hpp:166-273 | the field-by-field updates of `decodedIRData` and the verdict are those of `DecodeOutcome`; the buffer length is unchanged |
| KaseikyoDecode.ChecksPass | src/ir_Kaseikyo.hpp:229-250 | the two checks pass exactly when the parity field of the payload is the vendor parity and its checksum field is the XOR of its three low bytes |
| KaseikyoDecode.KaseikyoResult | src/ir_Kaseikyo.hpp:224-267 | after a successful decode the address is the 12 payload bits above the parity nibble (below 4096); the command is payload byte 2; the protocol is the mapped one; `numberOfBits` is 48; the raw data is the payload word |
| KaseikyoDecode.AddressAndCommand | src/ir_Kaseikyo.hpp:227-228 | `LowWord >> 4` and `MidHighByte` are the address and command fields of the payload word |
| KaseikyoDecode.ParityFailedIff | src/ir_Kaseikyo.hpp:229-232 | PARITY_FAILED is set afterwards exactly when the vendor parity or the checksum is wrong, or when it was already set |
| KaseikyoDecode.FlagsUpdate | src/ir_Kaseikyo.hpp:231-251 | a vendor-parity mismatch assigns the flags {PARITY_FAILED, IS_LSB_FIRST}, and only EXTRA_INFO can join them; otherwise the earlier flags are kept and only EXTRA_INFO and PARITY_FAILED are added |
| KaseikyoDecode.ExtraInfoForUnknownVendor | src/ir_Kaseikyo.hpp:245-248 | an unknown vendor code sets EXTRA_INFO and is stored in `extra`; a known one leaves `extra` unchanged and adds no EXTRA_INFO |
| KaseikyoDecode.ChecksPassIffEncoded | src/ir_Kaseikyo.hpp:229-231 | a payload word passes both parity checks exactly when it is the word the sender builds for that vendor code from the address and command it carries |
| KaseikyoDecode.LowNibble | src/ir_Kaseikyo.hpp:231 | `LowByte & 0xF` is the low nibble of the payload word |
| KaseikyoDecode.ChecksPassEncoded | src/ir_Kaseikyo.hpp:250 | a word that passes both checks is the sender's word for its address and command |
| KaseikyoDecode.EncodedChecksPass | src/ir_Kaseikyo.hpp:207-208 | the sender's word passes both checks: the decoder's vendor parity equals the sender's, and the checksum matches |
| KaseikyoRoundTrip.SendThenDecode | src/ir_Kaseikyo.hpp:225-251 | decoding the vendor code and the sender's payload gives address = A & 0xFFF and command = C, the mapped protocol and 48 bits, and neither parity check sets PARITY_FAILED |
| PulseDistance.FrameSlices | src/ir_Kaseikyo.hpp:215 | in the frame buffer, the first run of bit durations starts at entry 3 and the second follows it immediately |
| KaseikyoRoundTrip.FrameOfTransmission | src/ir_Kaseikyo.hpp:168-221 | the frame of a transmission has 100 entries and a matching header; the 16 bits at entry 3 read back as the vendor code, and the 32 bits at entry 35 read back as the payload word |
| KaseikyoRoundTrip.DecodeOfTransmission | src/ir_Kaseikyo.hpp:166-272 | on the frame of a transmission, the header check and the 16-bit and 32-bit word decodes at entries 3 and 35, handed to the decoder, make it return true with the record for the sent vendor code and payload |
| KaseikyoRoundTrip.StubsDecodeToTheirProtocol | src/ir_Kaseikyo.hpp:131-161 | each vendor stub's frame decodes to that stub's protocol without PARITY_FAILED |

## Left out

- `enableIROut` (`src/ir_Kaseikyo.hpp:108`) is left out: it only sets up the carrier hardware.
- The debug output (`IR_DEBUG_PRINT`, `Serial.print`) is left out. It is I/O only.
- `sendPulseDistanceWidthFromArray`, `checkHeader` and `decodePulseDistanceWidthData` are not part of this model.
  - The sender returns the arguments it would pass to the send routine.
  - The decoder takes the header verdict and the two word-decode results as parameters.
  - `PulseDistance` gives their ideal meaning on exact durations. It has no tolerance matching and no timer ticks.
- `checkForRepeatSpaceAndSetFlag` (`:270`) and the repeat count (`:125`) are left out. They depend on timing code outside this file and on wall-clock gaps. The repeat count is only passed through.
- KaseikyoDecode.DecodeOutcome: what a failed word decode leaves in `decodedRawData` is not modelled, because that routine is not part of this model. The model leaves the record unchanged on such a failure.
- The bit values of the `IRDATA_FLAGS_*` constants are defined outside this file. The flags are modelled as the set of flags that are on.
- IRData.Flag: IS_LSB_FIRST is modelled as a flag of its own. By `:224` it is the start value of the flags, and its bit value is defined outside this file, so it may be the empty bit pattern. In that case the `{ParityFailed, IsLsbFirst}` that the model assigns on a vendor-parity failure is the same flag byte as `{ParityFailed}` in the library.
- The definitions of `LongUnion`, `KASEIKYO_KHZ` and `MICROS_IN_ONE_MILLI` are not part of this model.
  - The union is taken as little-endian: byte 0 is the least significant.
  - The carrier is 37 kHz, as the IRP at `:55` and the comment at `:108` say.
  - A millisecond is 1000 µs.
- KaseikyoDecode.Receiver.DecodeKaseikyo: the chain of vendor-code comparisons (`:192-204`) is the function `VendorProtocol`. The method calls it rather than repeating the `if` chain.
- The capture state machine and the Doxygen navigation files (`docs/`) are left out. They hold no logic of this codec.
