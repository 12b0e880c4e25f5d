/** The reflected CRC-32 of RFC 1952, section 8. Each step is injective, so any change of a
    single byte changes the checksum. */
module Crc32 {
  import opened ByteWords

  const INITIAL: bv32 := 0xFFFF_FFFF
  const POLYNOMIAL: bv32 := 0xEDB8_8320

  function BitStep(c: bv32): bv32 {
    (c >> 1) ^ (POLYNOMIAL & (0 - (c & 1)))
  }

  function Bits(c: bv32, n: nat): bv32 {
    if n == 0 then c else BitStep(Bits(c, n - 1))
  }

  function Mixed(c: bv32, b: Byte): bv32 {
    c ^ (b as bv32)
  }

  function ByteStep(c: bv32, b: Byte): bv32 {
    Bits(Mixed(c, b), 8)
  }

  function Fold(c: bv32, bytes: seq<Byte>): bv32
    decreases |bytes|
  {
    if bytes == [] then c else Fold(ByteStep(c, bytes[0]), bytes[1..])
  }

  /** The checksum as stored: a 32-bit number. */
  function Checksum(bytes: seq<Byte>): (crc: nat)
    ensures crc < 0x1_0000_0000
  {
    (!Fold(INITIAL, bytes)) as nat
  }

  // ---------------------------------------------------------------- injectivity

  /** The polynomial has its top bit set, so the bit shifted out can be read off the result. */
  lemma BitStepInjective(c: bv32, d: bv32)
    requires BitStep(c) == BitStep(d)
    ensures c == d
  {
  }

  lemma {:induction false} BitsInjective(c: bv32, d: bv32, n: nat)
    requires Bits(c, n) == Bits(d, n)
    ensures c == d
  {
    if n > 0 {
      hide BitStep;
      BitStepInjective(Bits(c, n - 1), Bits(d, n - 1));
      BitsInjective(c, d, n - 1);
    }
  }

  lemma XorInjective(c: bv32, d: bv32, x: bv32)
    requires c ^ x == d ^ x
    ensures c == d
  {
  }

  lemma XorInjectiveRight(c: bv32, x: bv32, y: bv32)
    requires c ^ x == c ^ y
    ensures x == y
  {
  }

  lemma MixedInjective(c: bv32, d: bv32, b: Byte)
    requires Mixed(c, b) == Mixed(d, b)
    ensures c == d
  {
    XorInjective(c, d, b as bv32);
  }

  lemma MixedDistinguishes(c: bv32, b: Byte, d: Byte)
    requires Mixed(c, b) == Mixed(c, d)
    ensures b == d
  {
    XorInjectiveRight(c, b as bv32, d as bv32);
    WideInjective(b, d);
  }

  lemma ByteStepInjective(c: bv32, d: bv32, b: Byte)
    requires ByteStep(c, b) == ByteStep(d, b)
    ensures c == d
  {
    hide Bits, Mixed;
    BitsInjective(Mixed(c, b), Mixed(d, b), 8);
    MixedInjective(c, d, b);
  }

  lemma WideInjective(b: Byte, d: Byte)
    requires b as bv32 == d as bv32
    ensures b == d
  {
  }

  lemma ByteStepDistinguishes(c: bv32, b: Byte, d: Byte)
    requires b != d
    ensures ByteStep(c, b) != ByteStep(c, d)
  {
    hide Bits, Mixed;
    if ByteStep(c, b) == ByteStep(c, d) {
      BitsInjective(Mixed(c, b), Mixed(c, d), 8);
      MixedDistinguishes(c, b, d);
    }
  }

  lemma {:induction false} FoldInjective(c: bv32, d: bv32, bytes: seq<Byte>)
    requires Fold(c, bytes) == Fold(d, bytes)
    ensures c == d
    decreases |bytes|
  {
    hide ByteStep;
    if bytes != [] {
      FoldInjective(ByteStep(c, bytes[0]), ByteStep(d, bytes[0]), bytes[1..]);
      ByteStepInjective(c, d, bytes[0]);
    }
  }

  lemma {:induction false} FoldConcat(c: bv32, a: seq<Byte>, b: seq<Byte>)
    ensures Fold(c, a + b) == Fold(Fold(c, a), b)
    decreases |a|
  {
    hide ByteStep;
    if a == [] {
      assert a + b == b;
    } else {
      assert (a + b)[1..] == a[1..] + b;
      FoldConcat(ByteStep(c, a[0]), a[1..], b);
    }
  }

  lemma AsNatInjective(c: bv32, d: bv32)
    requires c as nat == d as nat
    ensures c == d
  {
    assert (c as nat) as bv32 == c && (d as nat) as bv32 == d;
  }

  lemma NotInjective(c: bv32, d: bv32)
    requires !c == !d
    ensures c == d
  {
  }

  /** Changing the first byte of what is still to come changes the state for good. */
  lemma FirstByteChanges(c: bv32, b: Byte, d: Byte, after: seq<Byte>)
    requires b != d
    ensures Fold(c, [b] + after) != Fold(c, [d] + after)
  {
    hide ByteStep;
    assert ([b] + after)[1..] == after && ([d] + after)[1..] == after;
    ByteStepDistinguishes(c, b, d);
    if Fold(ByteStep(c, b), after) == Fold(ByteStep(c, d), after) {
      FoldInjective(ByteStep(c, b), ByteStep(c, d), after);
    }
  }

  /** Changing one byte, wherever it is, changes the checksum. */
  lemma OneByteChanges(bytes: seq<Byte>, i: nat, b: Byte)
    requires i < |bytes| && b != bytes[i]
    ensures Checksum(bytes[i := b]) != Checksum(bytes)
  {
    hide Fold, Checksum;
    var before, after := bytes[..i], bytes[i + 1..];
    assert bytes == before + ([bytes[i]] + after) && bytes[i := b] == before + ([b] + after);
    FoldConcat(INITIAL, before, [bytes[i]] + after);
    FoldConcat(INITIAL, before, [b] + after);
    FirstByteChanges(Fold(INITIAL, before), b, bytes[i], after);
    ChecksumDiffers(bytes[i := b], bytes);
  }

  lemma ChecksumDiffers(a: seq<Byte>, b: seq<Byte>)
    requires Fold(INITIAL, a) != Fold(INITIAL, b)
    ensures Checksum(a) != Checksum(b)
  {
    hide Fold;
    var c, d := Fold(INITIAL, a), Fold(INITIAL, b);
    ComplementDiffers(c, d);
  }

  lemma ComplementDiffers(c: bv32, d: bv32)
    requires c != d
    ensures (!c) as nat != (!d) as nat
  {
    if (!c) as nat == (!d) as nat {
      AsNatInjective(!c, !d);
      NotInjective(c, d);
    }
  }

  lemma {:induction false} FoldSnoc(c: bv32, bytes: seq<Byte>, b: Byte)
    ensures Fold(c, bytes + [b]) == ByteStep(Fold(c, bytes), b)
  {
    hide ByteStep;
    FoldConcat(c, bytes, [b]);
    assert [b][1..] == [];
    assert Fold(Fold(c, bytes), [b]) == Fold(ByteStep(Fold(c, bytes), b), []);
  }

  /** The nested loops of the implementation. */
  method Crc32Bytes(bytes: seq<Byte>) returns (crc: nat)
    ensures crc == Checksum(bytes)
  {
    hide Fold, ByteStep;
    var c := INITIAL;
    NothingFolded(INITIAL);
    for i := 0 to |bytes|
      invariant c == Fold(INITIAL, bytes[..i])
    {
      FoldSnoc(INITIAL, bytes[..i], bytes[i]);
      assert bytes[..i + 1] == bytes[..i] + [bytes[i]];
      c := ShiftByte(c, bytes[i]);
    }
    assert bytes[..|bytes|] == bytes;
    crc := (!c) as nat;
  }

  lemma NothingFolded(c: bv32)
    ensures Fold(c, []) == c
  {
  }

  /** The inner loop: eight conditional shifts. */
  method ShiftByte(c: bv32, b: Byte) returns (r: bv32)
    ensures r == ByteStep(c, b)
  {
    r := c ^ (b as bv32);
    for bit := 0 to 8
      invariant r == Bits(c ^ (b as bv32), bit)
    {
      var mask := 0 - (r & 1);
      r := (r >> 1) ^ (POLYNOMIAL & mask);
    }
  }
}
