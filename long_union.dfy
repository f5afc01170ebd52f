/** The `LongUnion` of the library: four bytes of storage seen whole
    (`ULong`), as two 16-bit words (`UWord.LowWord`, `UWord.HighWord`) or as
    the four bytes themselves (`UByte.LowByte`, `MidLowByte`, `MidHighByte`,
    `HighByte`). The targets are little-endian: the low byte is the least
    significant. The class keeps the four bytes as its fields; the word and
    long views are functions of them, and each write through a view is a
    method that replaces only the bytes under that view. */
module LongUnions {
  import opened Bitwise

  /** The views of a 32-bit value. */
  function LowWordOf(w: Long): Word { w % 0x1_0000 }
  function HighWordOf(w: Long): Word { w / 0x1_0000 }
  function LowByteOf(w: Long): Byte { w % 0x100 }
  function MidLowByteOf(w: Long): Byte { w / 0x100 % 0x100 }
  function MidHighByteOf(w: Long): Byte { w / 0x1_0000 % 0x100 }
  function HighByteOf(w: Long): Byte { w / 0x100_0000 }

  /** The value stored in four bytes, lowest first. */
  function FromBytes(b0: Byte, b1: Byte, b2: Byte, b3: Byte): Long {
    b0 as nat + 0x100 * (b1 as nat) + 0x1_0000 * (b2 as nat) + 0x100_0000 * (b3 as nat)
  }

  /** The bytes of a stored value are the bytes it was stored from. */
  lemma BytesOfFromBytes(b0: Byte, b1: Byte, b2: Byte, b3: Byte)
    ensures LowByteOf(FromBytes(b0, b1, b2, b3)) == b0 && MidLowByteOf(FromBytes(b0, b1, b2, b3)) == b1
    ensures MidHighByteOf(FromBytes(b0, b1, b2, b3)) == b2 && HighByteOf(FromBytes(b0, b1, b2, b3)) == b3
  {
    var x := FromBytes(b0, b1, b2, b3);
    DivModOf(x, 0x100, b1 + 0x100 * b2 + 0x1_0000 * b3, b0);
    DivModOf(x / 0x100, 0x100, b2 + 0x100 * b3, b1);
    DivModOf(x, 0x1_0000, b2 + 0x100 * b3, b0 + 0x100 * b1);
    DivModOf(x / 0x1_0000, 0x100, b3, b2);
    DivModOf(x, 0x100_0000, b3, b0 + 0x100 * b1 + 0x1_0000 * b2);
  }

  /** A value is determined by its four bytes. */
  lemma FromBytesOfBytes(w: Long)
    ensures FromBytes(LowByteOf(w), MidLowByteOf(w), MidHighByteOf(w), HighByteOf(w)) == w
  {
    var q1, r0 := w / 0x100, w % 0x100;
    var q2, r1 := q1 / 0x100, q1 % 0x100;
    var q3, r2 := q2 / 0x100, q2 % 0x100;
    assert w == r0 + 0x100 * r1 + 0x1_0000 * r2 + 0x100_0000 * q3;
    DivModOf(w, 0x1_0000, r2 + 0x100 * q3, r0 + 0x100 * r1);
    DivModOf(w, 0x100_0000, q3, r0 + 0x100 * r1 + 0x1_0000 * r2);
  }

  /** The words of a value are made of its bytes. */
  lemma WordsOfBytes(w: Long)
    ensures LowWordOf(w) == LowByteOf(w) + 0x100 * MidLowByteOf(w)
    ensures HighWordOf(w) == MidHighByteOf(w) + 0x100 * HighByteOf(w)
  {
    FromBytesOfBytes(w);
    var b0: nat, b1: nat, b2: nat, b3: nat := LowByteOf(w), MidLowByteOf(w), MidHighByteOf(w), HighByteOf(w);
    DivModOf(w, 0x1_0000, b2 + 0x100 * b3, b0 + 0x100 * b1);
  }

  class LongUnion {
    var LowByte: Byte
    var MidLowByte: Byte
    var MidHighByte: Byte
    var HighByte: Byte

    /** A fresh local union: its bytes are whatever the storage held, so
        nothing is promised about them. */
    constructor()
    {
    }

    /** `ULong` */
    function ULong(): Long
      reads this
    {
      FromBytes(LowByte, MidLowByte, MidHighByte, HighByte)
    }

    /** `UWord.LowWord` */
    function LowWord(): Word
      reads this
    {
      LowByte as nat + 0x100 * (MidLowByte as nat)
    }

    /** `UWord.HighWord` */
    function HighWord(): Word
      reads this
    {
      MidHighByte as nat + 0x100 * (HighByte as nat)
    }

    /** `ULong = x`: every byte is written. */
    method SetLong(x: Long)
      modifies this
      ensures LowByte == LowByteOf(x) && MidLowByte == MidLowByteOf(x)
      ensures MidHighByte == MidHighByteOf(x) && HighByte == HighByteOf(x)
      ensures ULong() == x
    {
      LowByte, MidLowByte, MidHighByte, HighByte := LowByteOf(x), MidLowByteOf(x), MidHighByteOf(x), HighByteOf(x);
      FromBytesOfBytes(x);
    }

    /** `UWord.LowWord = x`: the two low bytes are written, the high word
        keeps its value. */
    method SetLowWord(x: Word)
      modifies this
      ensures LowByte == x % 0x100 && MidLowByte == x / 0x100
      ensures MidHighByte == old(MidHighByte) && HighByte == old(HighByte)
      ensures LowWord() == x
    {
      LowByte, MidLowByte := x % 0x100, x / 0x100;
    }

    /** `UByte.LowByte = x` */
    method SetLowByte(x: Byte)
      modifies this
      ensures LowByte == x
      ensures MidLowByte == old(MidLowByte) && MidHighByte == old(MidHighByte) && HighByte == old(HighByte)
    {
      LowByte := x;
    }

    /** `UByte.MidHighByte = x` */
    method SetMidHighByte(x: Byte)
      modifies this
      ensures MidHighByte == x
      ensures LowByte == old(LowByte) && MidLowByte == old(MidLowByte) && HighByte == old(HighByte)
    {
      MidHighByte := x;
    }

    /** `UByte.HighByte = x` */
    method SetHighByte(x: Byte)
      modifies this
      ensures HighByte == x
      ensures LowByte == old(LowByte) && MidLowByte == old(MidLowByte) && MidHighByte == old(MidHighByte)
    {
      HighByte := x;
    }
  }
}
