/** 64-bit occupancy words, as the price segments and the segment bitmap use them.

    A word is a number below 2^64; `Bit` reads one bit, and the operations below are the
    `|= 1 << i`, `&= ~(1 << i)`, `countr_zero` and `63 - countl_zero` of the program,
    written bit by bit. */
module Words {

  type Word = w: nat | w < Pow2(64)

  /** Bit `i` of `w`, counting from the least significant one. */
  predicate Bit(w: nat, i: nat)
  {
    if i == 0 then w % 2 == 1 else Bit(w / 2, i - 1)
  }

  /** `w | (1 << i)`. */
  function OrBit(w: nat, i: nat): nat
  {
    if i == 0 then w - w % 2 + 1 else 2 * OrBit(w / 2, i - 1) + w % 2
  }

  /** `w & ~(1 << i)`. */
  function ClearBit(w: nat, i: nat): nat
  {
    if i == 0 then w - w % 2 else 2 * ClearBit(w / 2, i - 1) + w % 2
  }

  /** `std::countr_zero`: the lowest set bit. */
  function CountrZero(w: nat): (i: nat)
    requires w != 0
    ensures Bit(w, i)
    ensures forall j: nat :: j < i ==> !Bit(w, j)
  {
    if w % 2 == 1 then 0 else CountrZero(w / 2) + 1
  }

  /** `63 - std::countl_zero`: the highest set bit. */
  function HighestBit(w: nat): (i: nat)
    requires w != 0
    ensures Bit(w, i)
    ensures forall j: nat :: i < j ==> !Bit(w, j)
  {
    if w / 2 == 0 then
      ZeroHasNoBits();
      0
    else
      HighestBit(w / 2) + 1
  }

  lemma {:induction false} ZeroHasNoBit(i: nat)
    ensures !Bit(0, i)
  {
    if i != 0 {
      ZeroHasNoBit(i - 1);
    }
  }

  lemma ZeroHasNoBits()
    ensures forall i: nat :: !Bit(0, i)
  {
    forall i: nat {
      ZeroHasNoBit(i);
    }
  }

  lemma {:induction false} OrBitSets(w: nat, i: nat, j: nat)
    ensures Bit(OrBit(w, i), j) <==> (j == i || Bit(w, j))
  {
    if i == 0 {
      assert OrBit(w, i) / 2 == w / 2;
    } else if j != 0 {
      assert OrBit(w, i) / 2 == OrBit(w / 2, i - 1);
      OrBitSets(w / 2, i - 1, j - 1);
    }
  }

  lemma {:induction false} ClearBitClears(w: nat, i: nat, j: nat)
    ensures Bit(ClearBit(w, i), j) <==> (j != i && Bit(w, j))
  {
    if i == 0 {
      assert ClearBit(w, i) / 2 == w / 2;
    } else if j != 0 {
      assert ClearBit(w, i) / 2 == ClearBit(w / 2, i - 1);
      ClearBitClears(w / 2, i - 1, j - 1);
    }
  }

  function Pow2(n: nat): (r: nat)
    ensures r >= 1
  {
    if n == 0 then 1 else 2 * Pow2(n - 1)
  }

  /** Setting bit `i < n` keeps the word below 2^n, so a 64-bit word never overflows. */
  lemma {:induction false} OrBitStaysBelow(w: nat, i: nat, n: nat)
    requires i < n && w < Pow2(n)
    ensures OrBit(w, i) < Pow2(n)
  {
    var p := Pow2(n - 1);
    assert w / 2 < p;
    if i != 0 {
      OrBitStaysBelow(w / 2, i - 1, n - 1);
      assert OrBit(w, i) <= 2 * (p - 1) + 1;
    }
  }

  lemma {:induction false} ClearBitStaysBelow(w: nat, i: nat)
    ensures ClearBit(w, i) <= w
  {
    if i != 0 {
      ClearBitStaysBelow(w / 2, i - 1);
    }
  }

  /** A word below 2^n has no bit at or above n. */
  lemma {:induction false} NoBitAbove(w: nat, n: nat, i: nat)
    requires w < Pow2(n) && n <= i
    ensures !Bit(w, i)
  {
    if n == 0 {
      ZeroHasNoBit(i);
    } else {
      NoBitAbove(w / 2, n - 1, i - 1);
    }
  }

  /** The word after setting bit `i`: exactly bit `i` is new. */
  function WithBit(w: Word, i: nat): (r: Word)
    requires i < 64
    ensures forall j: nat :: Bit(r, j) <==> (j == i || Bit(w, j))
  {
    OrBitStaysBelow(w, i, 64);
    assert forall j: nat :: Bit(OrBit(w, i), j) <==> (j == i || Bit(w, j)) by {
      forall j: nat {
        OrBitSets(w, i, j);
      }
    }
    OrBit(w, i)
  }

  /** The word after clearing bit `i`: exactly bit `i` is gone. */
  function WithoutBit(w: Word, i: nat): (r: Word)
    ensures forall j: nat :: Bit(r, j) <==> (j != i && Bit(w, j))
  {
    ClearBitStaysBelow(w, i);
    assert forall j: nat :: Bit(ClearBit(w, i), j) <==> (j != i && Bit(w, j)) by {
      forall j: nat {
        ClearBitClears(w, i, j);
      }
    }
    ClearBit(w, i)
  }

  /** Words below 2^n with the same first `n` bits are the same. */
  lemma {:induction false} SameBits(w: nat, v: nat, n: nat)
    requires w < Pow2(n) && v < Pow2(n) && forall i: nat :: i < n ==> (Bit(w, i) <==> Bit(v, i))
    ensures w == v
    decreases n
  {
    if n > 0 {
      assert Bit(w, 0) <==> Bit(v, 0);
      forall i: nat | i < n - 1
        ensures Bit(w / 2, i) <==> Bit(v / 2, i)
      {
        assert Bit(w, i + 1) <==> Bit(v, i + 1);
      }
      SameBits(w / 2, v / 2, n - 1);
    }
  }

  /** A word with no bit from `n` on is below 2^n. */
  lemma {:induction false} FewBits(w: nat, n: nat)
    requires forall i: nat :: n <= i ==> !Bit(w, i)
    ensures w < Pow2(n)
    decreases n
  {
    if n == 0 {
      if w != 0 {
        var top := HighestBit(w);
      }
    } else {
      forall i: nat | n - 1 <= i
        ensures !Bit(w / 2, i)
      {
        assert !Bit(w, i + 1);
      }
      FewBits(w / 2, n - 1);
    }
  }
}
