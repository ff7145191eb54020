/** A byte as its eight bits. */
module ByteBits {
  function Bits(x: nat): bv8
    requires x < 256
  {
    x as bv8
  }

  lemma OneMore(b: bv8)
    requires b as int < 255
    ensures b < 255 && (b + 1) as int == b as int + 1
  {
    BelowTop(b);
    Successor(b);
  }

  lemma BelowTop(b: bv8)
    requires b as int < 255
    ensures b < 255
  {
  }

  lemma Successor(b: bv8)
    requires b < 255
    ensures (b + 1) as int == b as int + 1
  {
  }

  /** Counting up reaches the bits of every byte. */
  lemma {:induction false} BitsOfByte(x: nat) returns (b: bv8)
    requires x < 256
    ensures b as int == x
  {
    if x == 0 {
      b := 0;
    } else {
      var c := BitsOfByte(x - 1);
      OneMore(c);
      b := c + 1;
    }
  }

  lemma SameBits(x: nat, b: bv8)
    requires x < 256 && b as int == x
    ensures Bits(x) == b
  {
  }

  lemma BitsBack(x: nat)
    requires x < 256
    ensures Bits(x) as int == x
  {
    hide Bits;
    var b := BitsOfByte(x);
    SameBits(x, b);
  }

  lemma BitsAreInjective(x: nat, y: nat)
    requires x < 256 && y < 256
    requires Bits(x) == Bits(y)
    ensures x == y
  {
    hide Bits;
    BitsBack(x);
    BitsBack(y);
  }
}

/** CRC-32 as hash/crc32 computes it for log records (internal/storage/wal/record.go). */
module Checksums {
  import opened ByteStrings
  import opened ByteBits

  /** One bit, with the reflected polynomial of IEEE 802.3. */
  function CrcBit(c: bv32): bv32 {
    if c & 1 == 1 then (c >> 1) ^ 0xEDB8_8320 else c >> 1
  }

  function CrcBits(c: bv32, n: nat): bv32
    decreases n
  {
    if n == 0 then c else CrcBits(CrcBit(c), n - 1)
  }

  function Widened(x: byte): bv32 {
    Bits(x) as bv32
  }

  function CrcWord(c: bv32, w: bv32): bv32 {
    CrcBits(c ^ w, 8)
  }

  function CrcByte(c: bv32, x: byte): bv32 {
    CrcWord(c, Widened(x))
  }

  function CrcUpdate(c: bv32, data: Bytes): bv32
    decreases |data|
  {
    if data == [] then c else CrcUpdate(CrcByte(c, data[0]), data[1..])
  }

  function Inverted(c: bv32): bv32 {
    c ^ 0xFFFF_FFFF
  }

  function Final(c: bv32): (crc: nat)
    ensures crc < 0x1_0000_0000
  {
    Inverted(c) as nat
  }

  function ChecksumIEEE(data: Bytes): (crc: nat)
    ensures crc < 0x1_0000_0000
  {
    Final(CrcUpdate(0xFFFF_FFFF, data))
  }

  // ------------------------------------------------------------------ the check value

  lemma EightBits(c: bv32)
    ensures CrcBits(c, 8) == CrcBit(CrcBit(CrcBit(CrcBit(CrcBit(CrcBit(CrcBit(CrcBit(c))))))))
  {
    hide CrcBit;
    var c4 := CrcBit(CrcBit(CrcBit(CrcBit(c))));
    assert CrcBits(c, 8) == CrcBits(CrcBit(c), 7) == CrcBits(CrcBit(CrcBit(c)), 6);
    assert CrcBits(CrcBit(CrcBit(c)), 6) == CrcBits(CrcBit(CrcBit(CrcBit(c))), 5) == CrcBits(c4, 4);
    assert CrcBits(c4, 4) == CrcBits(CrcBit(c4), 3) == CrcBits(CrcBit(CrcBit(c4)), 2) == CrcBits(CrcBit(CrcBit(CrcBit(c4))), 1);
    assert CrcBits(CrcBit(CrcBit(CrcBit(c4))), 1) == CrcBits(CrcBit(CrcBit(CrcBit(CrcBit(c4)))), 0);
  }

  lemma ByteIs(c: bv32, x: byte, wide: bv32, next: bv32)
    requires Widened(x) == wide
    requires CrcBit(CrcBit(CrcBit(CrcBit(CrcBit(CrcBit(CrcBit(CrcBit(c ^ wide)))))))) == next
    ensures CrcByte(c, x) == next
  {
    hide CrcBit, CrcBits, Widened;
    EightBits(c ^ wide);
  }

  lemma DigitsWidened()
    ensures Widened(49) == 49 && Widened(50) == 50 && Widened(51) == 51 && Widened(52) == 52 && Widened(53) == 53
    ensures Widened(54) == 54 && Widened(55) == 55 && Widened(56) == 56 && Widened(57) == 57
  {
  }

  /** The state after each of the digits 1 to 9. */
  lemma DigitStates()
    ensures CrcByte(0xFFFF_FFFF, 49) == 0x7C23_1048 && CrcByte(0x7C23_1048, 50) == 0xB0AC_BB32
    ensures CrcByte(0xB0AC_BB32, 51) == 0x77B7_9C2D && CrcByte(0x77B7_9C2D, 52) == 0x641C_1F5C
    ensures CrcByte(0x641C_1F5C, 53) == 0x340A_C5E3 && CrcByte(0x340A_C5E3, 54) == 0xF68D_2C9E
    ensures CrcByte(0xF68D_2C9E, 55) == 0xAFFC_9660 && CrcByte(0xAFFC_9660, 56) == 0x651F_2550
    ensures CrcByte(0x651F_2550, 57) == 0x340B_C6D9
  {
    hide Widened, CrcByte, CrcBits;
    DigitsWidened();
    ByteIs(0xFFFF_FFFF, 49, 49, 0x7C23_1048);
    ByteIs(0x7C23_1048, 50, 50, 0xB0AC_BB32);
    ByteIs(0xB0AC_BB32, 51, 51, 0x77B7_9C2D);
    ByteIs(0x77B7_9C2D, 52, 52, 0x641C_1F5C);
    ByteIs(0x641C_1F5C, 53, 53, 0x340A_C5E3);
    ByteIs(0x340A_C5E3, 54, 54, 0xF68D_2C9E);
    ByteIs(0xF68D_2C9E, 55, 55, 0xAFFC_9660);
    ByteIs(0xAFFC_9660, 56, 56, 0x651F_2550);
    ByteIs(0x651F_2550, 57, 57, 0x340B_C6D9);
  }

  lemma FromDigit(c: bv32, d: Bytes, i: nat)
    requires i < |d|
    ensures CrcUpdate(c, d[i..]) == CrcUpdate(CrcByte(c, d[i]), d[i + 1..])
  {
    hide CrcByte;
    assert d[i..][1..] == d[i + 1..];
  }

  /** The published check value of this checksum: that of the digits 1 to 9. */
  lemma CheckValue()
    ensures ChecksumIEEE([49, 50, 51, 52, 53, 54, 55, 56, 57]) == 0xCBF4_3926
  {
    hide CrcByte;
    var d: Bytes := [49, 50, 51, 52, 53, 54, 55, 56, 57];
    DigitStates();
    FromDigit(0xFFFF_FFFF, d, 0);
    FromDigit(0x7C23_1048, d, 1);
    FromDigit(0xB0AC_BB32, d, 2);
    FromDigit(0x77B7_9C2D, d, 3);
    FromDigit(0x641C_1F5C, d, 4);
    FromDigit(0x340A_C5E3, d, 5);
    FromDigit(0xF68D_2C9E, d, 6);
    FromDigit(0xAFFC_9660, d, 7);
    FromDigit(0x651F_2550, d, 8);
    assert CrcUpdate(0x340B_C6D9, d[9..]) == 0x340B_C6D9;
    hide CrcUpdate;
    assert d[0..] == d;
  }

  // ----------------------------------------------------------------- a byte replaced

  /** The state before a bit can be read off the state after it: the polynomial has its top bit set. */
  lemma CrcBitIsInjective(a: bv32, b: bv32)
    requires CrcBit(a) == CrcBit(b)
    ensures a == b
  {
  }

  lemma {:induction false} CrcBitsIsInjective(a: bv32, b: bv32, n: nat)
    requires CrcBits(a, n) == CrcBits(b, n)
    ensures a == b
    decreases n
  {
    hide CrcBit;
    if n > 0 {
      CrcBitsIsInjective(CrcBit(a), CrcBit(b), n - 1);
      CrcBitIsInjective(a, b);
    }
  }

  lemma XorIsInjective(x: bv32, a: bv32, b: bv32)
    requires a ^ x == b ^ x || x ^ a == x ^ b
    ensures a == b
  {
  }

  lemma WidenedIsInjective(x: byte, y: byte)
    requires Widened(x) == Widened(y)
    ensures x == y
  {
    hide Bits;
    WideningIsInjective(Bits(x), Bits(y));
    BitsAreInjective(x, y);
  }

  lemma WideningIsInjective(a: bv8, b: bv8)
    requires a as bv32 == b as bv32
    ensures a == b
  {
  }

  lemma MixedIsInjective(a: bv32, b: bv32, w: bv32)
    requires CrcWord(a, w) == CrcWord(b, w)
    ensures a == b
  {
    hide CrcBits;
    CrcBitsIsInjective(a ^ w, b ^ w, 8);
    XorIsInjective(w, a, b);
  }

  lemma MixingIsInjective(c: bv32, v: bv32, w: bv32)
    requires CrcWord(c, v) == CrcWord(c, w)
    ensures v == w
  {
    hide CrcBits;
    CrcBitsIsInjective(c ^ v, c ^ w, 8);
    XorIsInjective(c, v, w);
  }

  lemma CrcStateIsInjective(a: bv32, b: bv32, x: byte)
    requires CrcByte(a, x) == CrcByte(b, x)
    ensures a == b
  {
    hide CrcWord, Widened;
    MixedIsInjective(a, b, Widened(x));
  }

  lemma CrcInputIsInjective(c: bv32, x: byte, y: byte)
    requires CrcByte(c, x) == CrcByte(c, y)
    ensures Widened(x) == Widened(y)
  {
    hide CrcWord, Widened;
    MixingIsInjective(c, Widened(x), Widened(y));
  }

  lemma CrcByteIsInjective(c: bv32, x: byte, y: byte)
    requires CrcByte(c, x) == CrcByte(c, y)
    ensures x == y
  {
    hide CrcByte, Widened;
    CrcInputIsInjective(c, x, y);
    WidenedIsInjective(x, y);
  }

  /** A difference is never lost to the bytes that follow. */
  lemma {:induction false} CrcUpdateIsInjective(a: bv32, b: bv32, data: Bytes)
    requires CrcUpdate(a, data) == CrcUpdate(b, data)
    ensures a == b
    decreases |data|
  {
    hide CrcByte;
    if data != [] {
      CrcUpdateIsInjective(CrcByte(a, data[0]), CrcByte(b, data[0]), data[1..]);
      CrcStateIsInjective(a, b, data[0]);
    }
  }

  lemma {:induction false} CrcOfConcatenation(c: bv32, a: Bytes, b: Bytes)
    ensures CrcUpdate(c, a + b) == CrcUpdate(CrcUpdate(c, a), b)
    decreases |a|
  {
    hide CrcByte;
    if a == [] {
      assert a + b == b;
    } else {
      assert (a + b)[1..] == a[1..] + b;
      CrcOfConcatenation(CrcByte(c, a[0]), a[1..], b);
    }
  }

  lemma CrcAround(c: bv32, before: Bytes, x: byte, after: Bytes)
    ensures CrcUpdate(c, before + ([x] + after)) == CrcUpdate(CrcByte(CrcUpdate(c, before), x), after)
  {
    hide CrcByte;
    CrcOfConcatenation(c, before, [x] + after);
    assert ([x] + after)[1..] == after;
  }

  lemma NatBack(b: bv32)
    ensures (b as nat) as bv32 == b
  {
  }

  lemma SameNumber(a: bv32, b: bv32)
    requires a as nat == b as nat
    ensures a == b
  {
    NatBack(a);
    NatBack(b);
  }

  lemma FinalXor(a: bv32, b: bv32)
    requires Final(a) == Final(b)
    ensures a == b
  {
    hide Inverted;
    SameNumber(Inverted(a), Inverted(b));
    InvertingIsInjective(a, b);
  }

  lemma InvertingIsInjective(a: bv32, b: bv32)
    requires Inverted(a) == Inverted(b)
    ensures a == b
  {
  }

  /** Replacing any one byte changes the checksum. */
  lemma OneByteShows(data: Bytes, i: nat, x: byte)
    requires i < |data| && data[i] != x
    ensures ChecksumIEEE(data[i := x]) != ChecksumIEEE(data)
  {
    hide CrcByte, CrcUpdate, Final;
    var before, after := data[..i], data[i + 1..];
    var c := CrcUpdate(0xFFFF_FFFF, before);
    assert data == before + ([data[i]] + after) && data[i := x] == before + ([x] + after);
    CrcAround(0xFFFF_FFFF, before, data[i], after);
    CrcAround(0xFFFF_FFFF, before, x, after);
    if ChecksumIEEE(data[i := x]) == ChecksumIEEE(data) {
      FinalXor(CrcUpdate(0xFFFF_FFFF, data), CrcUpdate(0xFFFF_FFFF, data[i := x]));
      CrcUpdateIsInjective(CrcByte(c, data[i]), CrcByte(c, x), after);
      CrcByteIsInjective(c, data[i], x);
    }
  }
}
