/** Which checksum this is: the residue that every message with its own checksum leaves, and the
    published check value of the polynomial of section 8 of RFC 1952. */
module Crc32Laws {
  import opened ByteWords
  import opened Crc32
  import opened WalFormat

  // ---------------------------------------------------------------- the register is linear

  function Xor(c: bv32, d: bv32): bv32 {
    c ^ d
  }

  function Half(c: bv32): bv32 {
    c >> 1
  }

  function Mask(c: bv32): bv32 {
    if c & 1 == 1 then POLYNOMIAL else 0
  }

  lemma StepParts(c: bv32)
    ensures BitStep(c) == Xor(Half(c), Mask(c))
  {
  }

  lemma HalfLinear(c: bv32, d: bv32)
    ensures Half(Xor(c, d)) == Xor(Half(c), Half(d))
  {
  }

  lemma MaskLinear(c: bv32, d: bv32)
    ensures Mask(Xor(c, d)) == Xor(Mask(c), Mask(d))
  {
    LowBits(c, d);
  }

  lemma LowBits(c: bv32, d: bv32)
    ensures (c ^ d) & 1 == (c & 1) ^ (d & 1)
    ensures c & 1 == 0 || c & 1 == 1
    ensures d & 1 == 0 || d & 1 == 1
  {
  }

  lemma XorAssociates(a: bv32, b: bv32, c: bv32)
    ensures Xor(Xor(a, b), c) == Xor(a, Xor(b, c))
  {
  }

  lemma XorCommutes(a: bv32, b: bv32)
    ensures Xor(a, b) == Xor(b, a)
  {
  }

  lemma XorSwap(a: bv32, b: bv32, x: bv32, y: bv32)
    ensures Xor(Xor(a, b), Xor(x, y)) == Xor(Xor(a, x), Xor(b, y))
  {
    hide Xor;
    XorAssociates(a, b, Xor(x, y));
    XorAssociates(b, x, y);
    XorCommutes(b, x);
    XorAssociates(x, b, y);
    XorAssociates(a, x, Xor(b, y));
  }

  lemma StepLinear(c: bv32, d: bv32)
    ensures BitStep(Xor(c, d)) == Xor(BitStep(c), BitStep(d))
  {
    hide Xor, Half, Mask, BitStep;
    StepParts(c);
    StepParts(d);
    StepParts(Xor(c, d));
    HalfLinear(c, d);
    MaskLinear(c, d);
    XorSwap(Half(c), Half(d), Mask(c), Mask(d));
  }

  lemma {:induction false} Linear(c: bv32, d: bv32, n: nat)
    ensures Bits(Xor(c, d), n) == Xor(Bits(c, n), Bits(d, n))
  {
    if n > 0 {
      hide BitStep, Xor;
      Linear(c, d, n - 1);
      StepLinear(Bits(c, n - 1), Bits(d, n - 1));
    }
  }

  // ---------------------------------------------------------------- eight steps

  lemma {:induction false} BitsAdd(c: bv32, m: nat, n: nat)
    ensures Bits(c, m + n) == Bits(Bits(c, m), n)
  {
    hide BitStep;
    if n > 0 {
      BitsAdd(c, m, n - 1);
    }
  }

  lemma EvenStep(c: bv32)
    requires c & 1 == 0
    ensures BitStep(c) == c >> 1
  {
  }

  lemma OneStep(c: bv32)
    ensures Bits(c, 1) == BitStep(c)
  {
    hide BitStep;
    assert Bits(c, 0) == c;
  }

  lemma TwoShift(c: bv32)
    requires c & 3 == 0
    ensures Bits(c, 2) == c >> 2
  {
    EvenStep(c);
    EvenStep(c >> 1);
    OneStep(c);
    OneStep(c >> 1);
    BitsAdd(c, 1, 1);
    hide BitStep, Bits;
  }

  lemma FourShift(c: bv32)
    requires c & 15 == 0
    ensures Bits(c, 4) == c >> 4
  {
    hide Bits;
    BitsAdd(c, 2, 2);
    TwoShift(c);
    TwoShift(c >> 2);
  }

  lemma EightShift(c: bv32)
    requires c & 0xFF == 0
    ensures Bits(c, 8) == c >> 8
  {
    hide Bits;
    BitsAdd(c, 4, 4);
    FourShift(c);
    FourShift(c >> 4);
  }

  /** All but the low byte of a register. */
  function Above(c: bv32): bv32 {
    c & 0xFFFF_FF00
  }

  function ByteOff(c: bv32): bv32 {
    c >> 8
  }

  /** A register whose low byte is zero is only shifted. */
  lemma ZeroByteShifts(c: bv32)
    ensures Bits(Above(c), 8) == ByteOff(c)
  {
    hide Bits;
    EightShift(Above(c));
  }

  // ---------------------------------------------------------------- the residue

  /** The low byte of a register. */
  function LowByte(c: bv32): Byte {
    (c & 0xFF) as bv8
  }

  /** The bytes of a register as stored, the lowest first. */
  function RegisterBytes(c: bv32): seq<Byte> {
    [LowByte(c), LowByte(ByteOff(c)), LowByte(ByteOff(ByteOff(c))), LowByte(ByteOff(ByteOff(ByteOff(c))))]
  }

  /** Mixing in the complement of its own low byte leaves a register with its low byte all ones. */
  lemma OwnComplement(y: bv32)
    ensures Mixed(y, LowByte(!y)) == Xor(Above(y), 0xFF)
  {
  }

  lemma MixedIs(c: bv32, b: Byte)
    ensures Mixed(c, b) == Xor(c, b as bv32)
  {
  }

  /** So a register that is `y` up to a constant is afterwards the rest of `y` up to the next one. */
  lemma ComplementStep(y: bv32, k: bv32)
    ensures ByteStep(Xor(y, k), LowByte(!y)) == Xor(ByteOff(y), Bits(Xor(0xFF, k), 8))
  {
    var b := LowByte(!y);
    MixedIs(Xor(y, k), b);
    MixedIs(y, b);
    OwnComplement(y);
    ZeroByteShifts(y);
    hide Xor, Bits, Mixed, Above, ByteOff, LowByte;
    XorAssociates(y, k, b as bv32);
    XorCommutes(k, b as bv32);
    XorAssociates(y, b as bv32, k);
    XorAssociates(Above(y), 0xFF, k);
    Linear(Above(y), Xor(0xFF, k), 8);
  }

  /** The complement's bytes are the complements of the bytes. */
  lemma ComplementBytes(c: bv32)
    ensures LowByte(ByteOff(!c)) == LowByte(!ByteOff(c))
    ensures LowByte(ByteOff(ByteOff(!c))) == LowByte(!ByteOff(ByteOff(c)))
    ensures LowByte(ByteOff(ByteOff(ByteOff(!c)))) == LowByte(!ByteOff(ByteOff(ByteOff(c))))
    ensures ByteOff(ByteOff(ByteOff(ByteOff(c)))) == 0
  {
  }

  lemma Remainders()
    ensures Bits(Xor(0xFF, 0), 8) == 0x2D02_EF8D && Bits(Xor(0xFF, 0x2D02_EF8D), 8) == 0xBE26_12FF
    ensures Bits(Xor(0xFF, 0xBE26_12FF), 8) == 0x00BE_2612 && Bits(Xor(0xFF, 0x00BE_2612), 8) == 0xDEBB_20E3
  {
    assert Xor(0xFF, 0) == 0xFF && Xor(0xFF, 0x2D02_EF8D) == 0x2D02_EF72;
    assert Xor(0xFF, 0xBE26_12FF) == 0xBE26_1200 && Xor(0xFF, 0x00BE_2612) == 0x00BE_26ED;
    assert Bits(0xFF, 8) == 0x2D02_EF8D;
    assert Bits(0x2D02_EF72, 8) == 0xBE26_12FF;
    assert Bits(0xBE26_1200, 8) == 0x00BE_2612;
    assert Bits(0x00BE_26ED, 8) == 0xDEBB_20E3;
  }

  /** Four bytes, one after the other. */
  lemma FoldFour(c: bv32, b0: Byte, b1: Byte, b2: Byte, b3: Byte)
    ensures Fold(c, [b0, b1, b2, b3]) == ByteStep(ByteStep(ByteStep(ByteStep(c, b0), b1), b2), b3)
  {
    hide ByteStep;
    assert [b0, b1, b2, b3][1..] == [b1, b2, b3] && [b1, b2, b3][1..] == [b2, b3] && [b2, b3][1..] == [b3]
      && [b3][1..] == [];
    var c3 := ByteStep(ByteStep(ByteStep(c, b0), b1), b2);
    assert Fold(c3, [b3]) == Fold(ByteStep(c3, b3), []) == ByteStep(c3, b3);
    assert Fold(ByteStep(ByteStep(c, b0), b1), [b2, b3]) == Fold(c3, [b3]);
    assert Fold(ByteStep(c, b0), [b1, b2, b3]) == Fold(ByteStep(ByteStep(c, b0), b1), [b2, b3]);
  }

  lemma NoXor(c: bv32)
    ensures Xor(c, 0) == c && Xor(0, c) == c
  {
  }

  /** Whatever the register holds, the stored bytes of its complement take it to one constant. */
  lemma RegisterResidue(c: bv32)
    ensures Fold(c, RegisterBytes(!c)) == 0xDEBB_20E3
  {
    var c1 := ByteOff(c);
    var c2 := ByteOff(c1);
    var c3 := ByteOff(c2);
    ComplementBytes(c);
    FoldFour(c, LowByte(!c), LowByte(!c1), LowByte(!c2), LowByte(!c3));
    NoXor(c);
    NoXor(0xDEBB_20E3);
    Remainders();
    ComplementStep(c, 0);
    ComplementStep(c1, 0x2D02_EF8D);
    ComplementStep(c2, 0xBE26_12FF);
    ComplementStep(c3, 0x00BE_2612);
    assert RegisterBytes(!c) == [LowByte(!c), LowByte(!c1), LowByte(!c2), LowByte(!c3)];
    hide *;
  }

  // ---------------------------------------------------------------- the checksum as stored

  lemma JoinedNumber(b3: Byte, b2: Byte, b1: Byte, b0: Byte)
    ensures ((((((b3 as bv16) << 8) | (b2 as bv16)) as bv32) << 16)
        | ((((b1 as bv16) << 8) | (b0 as bv16)) as bv32)) as nat
      == (b0 as nat) + 256 * ((b1 as nat) + 256 * ((b2 as nat) + 256 * (b3 as nat)))
  {
  }

  lemma JoinedIs(c: bv32, b3: Byte, b2: Byte, b1: Byte, b0: Byte)
    requires c == (((((b3 as bv16) << 8) | (b2 as bv16)) as bv32) << 16)
      | ((((b1 as bv16) << 8) | (b0 as bv16)) as bv32)
    ensures c as nat == (b0 as nat) + 256 * ((b1 as nat) + 256 * ((b2 as nat) + 256 * (b3 as nat)))
  {
    JoinedNumber(b3, b2, b1, b0);
  }

  lemma JoinedBytes(c: bv32)
    ensures var b0, b1, b2, b3 := LowByte(c), LowByte(c >> 8), LowByte(c >> 16), LowByte(c >> 24);
            c == (((((b3 as bv16) << 8) | (b2 as bv16)) as bv32) << 16) | ((((b1 as bv16) << 8) | (b0 as bv16)) as bv32)
  {
  }

  lemma ShiftedBytes(c: bv32)
    ensures RegisterBytes(c) == [LowByte(c), LowByte(c >> 8), LowByte(c >> 16), LowByte(c >> 24)]
  {
  }

  /** A byte is the number it is converted to. */
  lemma ByteIsNumber(b: Byte)
    ensures FromByte(b) == b as nat
  {
  }

  lemma FourNumbers(b0: Byte, b1: Byte, b2: Byte, b3: Byte)
    ensures Number([b0, b1, b2, b3]) == FromByte(b0) + 256 * (FromByte(b1) + 256 * (FromByte(b2) + 256 * FromByte(b3)))
  {
    hide FromByte;
    assert [b0, b1, b2, b3][1..] == [b1, b2, b3] && [b1, b2, b3][1..] == [b2, b3] && [b2, b3][1..] == [b3]
      && [b3][1..] == [];
    assert Number([b3]) == FromByte(b3) + 256 * Number([]);
    assert Number([b2, b3]) == FromByte(b2) + 256 * Number([b3]);
    assert Number([b1, b2, b3]) == FromByte(b1) + 256 * Number([b2, b3]);
  }

  lemma StoredNumber(n: nat, b0: Byte, b1: Byte, b2: Byte, b3: Byte)
    requires n == FromByte(b0) + 256 * (FromByte(b1) + 256 * (FromByte(b2) + 256 * FromByte(b3)))
    ensures LE(n, 4) == [b0, b1, b2, b3]
  {
    hide LE, Number, FromByte;
    FourNumbers(b0, b1, b2, b3);
    LEOfNumber([b0, b1, b2, b3]);
  }

  lemma RegisterNumber(c: bv32)
    ensures var b0, b1, b2, b3 := LowByte(c), LowByte(c >> 8), LowByte(c >> 16), LowByte(c >> 24);
            c as nat == (b0 as nat) + 256 * ((b1 as nat) + 256 * ((b2 as nat) + 256 * (b3 as nat)))
  {
    hide LowByte;
    JoinedBytes(c);
    JoinedIs(c, LowByte(c >> 24), LowByte(c >> 16), LowByte(c >> 8), LowByte(c));
  }

  lemma ByteNumbers(n: nat, b0: Byte, b1: Byte, b2: Byte, b3: Byte)
    requires n == (b0 as nat) + 256 * ((b1 as nat) + 256 * ((b2 as nat) + 256 * (b3 as nat)))
    ensures n == FromByte(b0) + 256 * (FromByte(b1) + 256 * (FromByte(b2) + 256 * FromByte(b3)))
  {
    hide FromByte;
    ByteIsNumber(b0);
    ByteIsNumber(b1);
    ByteIsNumber(b2);
    ByteIsNumber(b3);
  }

  /** The little-endian bytes of a register's number are the bytes of the register. */
  lemma StoredRegister(c: bv32)
    ensures LE(c as nat, 4) == RegisterBytes(c)
  {
    hide LE, FromByte, LowByte, RegisterBytes;
    ShiftedBytes(c);
    RegisterNumber(c);
    ByteNumbers(c as nat, LowByte(c), LowByte(c >> 8), LowByte(c >> 16), LowByte(c >> 24));
    StoredNumber(c as nat, LowByte(c), LowByte(c >> 8), LowByte(c >> 16), LowByte(c >> 24));
  }

  /** The residue theorem: whatever the message, the register after the message and its checksum as
      stored is the same constant. */
  lemma Residue(bytes: seq<Byte>)
    ensures Fold(INITIAL, bytes + LE(Checksum(bytes), 4)) == 0xDEBB_20E3
  {
    hide Fold, LE, RegisterBytes;
    var c := Fold(INITIAL, bytes);
    StoredRegister(!c);
    FoldConcat(INITIAL, bytes, LE(Checksum(bytes), 4));
    RegisterResidue(c);
  }

  /** The nine digits "123456789". */
  const CHECK: seq<Byte> := [0x31, 0x32, 0x33, 0x34, 0x35, 0x36, 0x37, 0x38, 0x39]

  lemma CheckSteps()
    ensures ByteStep(INITIAL, CHECK[0]) == 0x7C23_1048 && ByteStep(0x7C23_1048, CHECK[1]) == 0xB0AC_BB32
    ensures ByteStep(0xB0AC_BB32, CHECK[2]) == 0x77B7_9C2D && ByteStep(0x77B7_9C2D, CHECK[3]) == 0x641C_1F5C
    ensures ByteStep(0x641C_1F5C, CHECK[4]) == 0x340A_C5E3 && ByteStep(0x340A_C5E3, CHECK[5]) == 0xF68D_2C9E
    ensures ByteStep(0xF68D_2C9E, CHECK[6]) == 0xAFFC_9660 && ByteStep(0xAFFC_9660, CHECK[7]) == 0x651F_2550
    ensures ByteStep(0x651F_2550, CHECK[8]) == 0x340B_C6D9
  {
    assert Mixed(0xFFFF_FFFF, 0x31) == 0xFFFF_FFCE && Bits(0xFFFF_FFCE, 8) == 0x7C23_1048;
    assert Mixed(0x7C23_1048, 0x32) == 0x7C23_107A && Bits(0x7C23_107A, 8) == 0xB0AC_BB32;
    assert Mixed(0xB0AC_BB32, 0x33) == 0xB0AC_BB01 && Bits(0xB0AC_BB01, 8) == 0x77B7_9C2D;
    assert Mixed(0x77B7_9C2D, 0x34) == 0x77B7_9C19 && Bits(0x77B7_9C19, 8) == 0x641C_1F5C;
    assert Mixed(0x641C_1F5C, 0x35) == 0x641C_1F69 && Bits(0x641C_1F69, 8) == 0x340A_C5E3;
    assert Mixed(0x340A_C5E3, 0x36) == 0x340A_C5D5 && Bits(0x340A_C5D5, 8) == 0xF68D_2C9E;
    assert Mixed(0xF68D_2C9E, 0x37) == 0xF68D_2CA9 && Bits(0xF68D_2CA9, 8) == 0xAFFC_9660;
    assert Mixed(0xAFFC_9660, 0x38) == 0xAFFC_9658 && Bits(0xAFFC_9658, 8) == 0x651F_2550;
    assert Mixed(0x651F_2550, 0x39) == 0x651F_2569 && Bits(0x651F_2569, 8) == 0x340B_C6D9;
  }

  /** The published check value. */
  lemma CheckValue()
    ensures Checksum(CHECK) == 0xCBF4_3926
  {
    CheckSteps();
    var registers := [INITIAL, 0x7C23_1048, 0xB0AC_BB32, 0x77B7_9C2D, 0x641C_1F5C, 0x340A_C5E3, 0xF68D_2C9E,
        0xAFFC_9660, 0x651F_2550, 0x340B_C6D9];
    hide ByteStep;
    for i := 0 to 9
      invariant Fold(INITIAL, CHECK[..i]) == registers[i]
    {
      assert CHECK[..i + 1] == CHECK[..i] + [CHECK[i]];
      FoldSnoc(INITIAL, CHECK[..i], CHECK[i]);
    }
    assert CHECK[..9] == CHECK;
    assert (!registers[9]) as nat == 0xCBF4_3926;
  }
}
