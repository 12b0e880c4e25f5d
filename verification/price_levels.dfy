/** Price segments, their active masks and the segment bitmap, as values.

    Level `k` of a side is offset `k % 64` of local segment `k / 64`; `fifos[k]` is the list
    of slots resting there. */
module PriceLevels {
  import opened BookTypes
  import opened Words
  import opened OrderPools
  import opened Fifos

  /** `static_cast<std::size_t>(-1)`. */
  const NO_SEGMENT: nat := 0xFFFF_FFFF_FFFF_FFFF

  datatype PriceLevel = PriceLevel(head: nat, tail: nat, totalQuantity: nat, orderCount: nat)

  datatype PriceSegment = PriceSegment(levels: seq<PriceLevel>, activeMask: Word)

  const EMPTY_LEVEL := PriceLevel(INVALID, INVALID, 0, 0)
  const EMPTY_SEGMENT := PriceSegment(seq(64, _ => EMPTY_LEVEL), 0)

  ghost predicate Sized(segs: seq<PriceSegment>) {
    forall g :: 0 <= g < |segs| ==> |segs[g].levels| == 64
  }

  function LevelAt(segs: seq<PriceSegment>, k: nat): PriceLevel
    requires k < 64 * |segs| && |segs[k / 64].levels| == 64
  {
    segs[k / 64].levels[k % 64]
  }

  function Last(f: seq<nat>): nat {
    if f == [] then INVALID else f[|f| - 1]
  }

  ghost predicate LevelInv(l: PriceLevel, f: seq<nat>, o: seq<Order>, side: Side, price: nat) {
    && Fifo(o, f, side, price)
    && (forall i :: 0 <= i < |f| ==> f[i] < |o|)
    && l == PriceLevel(LinkOr(f, 0, INVALID), Last(f), SumRemaining(o, f), |f|)
  }

  /** Every level's links, head, tail, count and exact total. */
  ghost predicate LevelsInv(segs: seq<PriceSegment>, fifos: seq<seq<nat>>, o: seq<Order>, side: Side, base: nat) {
    && Sized(segs) && |fifos| == 64 * |segs|
    && forall k :: 0 <= k < |fifos| ==> LevelInv(LevelAt(segs, k), fifos[k], o, side, 64 * base + k)
  }

  /** A mask bit is set exactly for a non-empty level. */
  ghost predicate MasksInv(segs: seq<PriceSegment>, fifos: seq<seq<nat>>) {
    && |fifos| == 64 * |segs|
    && forall k :: 0 <= k < |fifos| ==> (Bit(segs[k / 64].activeMask, k % 64) <==> fifos[k] != [])
  }

  /** A bitmap bit is set exactly for a segment with a non-empty mask; no stray bits. */
  ghost predicate BitmapInv(segs: seq<PriceSegment>, words: seq<Word>) {
    && |words| == (|segs| + 63) / 64
    && forall g :: 0 <= g < 64 * |words| ==> (Bit(words[g / 64], g % 64) <==> g < |segs| && segs[g].activeMask != 0)
  }

  predicate AtLeastAsGood(side: Side, x: int, y: int) {
    if side == Ask then x <= y else x >= y
  }

  /** The cached best segment is the lowest (ask) or highest (bid) occupied one. */
  ghost predicate BestInv(segs: seq<PriceSegment>, best: nat, side: Side) {
    if best == NO_SEGMENT then
      forall g :: 0 <= g < |segs| ==> segs[g].activeMask == 0
    else
      && best < |segs| && segs[best].activeMask != 0
      && forall g :: 0 <= g < |segs| && segs[g].activeMask != 0 ==> AtLeastAsGood(side, best, g)
  }

  function CountUpTo(segs: seq<PriceSegment>, n: nat): nat
    requires n <= 64 * |segs| && forall g :: 0 <= g < |segs| ==> |segs[g].levels| == 64
  {
    if n == 0 then 0 else CountUpTo(segs, n - 1) + LevelAt(segs, n - 1).orderCount
  }

  function QuantityUpTo(segs: seq<PriceSegment>, n: nat): nat
    requires n <= 64 * |segs| && forall g :: 0 <= g < |segs| ==> |segs[g].levels| == 64
  {
    if n == 0 then 0 else QuantityUpTo(segs, n - 1) + LevelAt(segs, n - 1).totalQuantity
  }

  ghost predicate TotalsInv(segs: seq<PriceSegment>, count: nat, total: nat) {
    Sized(segs) && count == CountUpTo(segs, 64 * |segs|) && total == QuantityUpTo(segs, 64 * |segs|)
  }

  // ---------------------------------------------------------------- changing one level

  /** The segments with level `k` and the mask of its segment replaced. */
  function Put(segs: seq<PriceSegment>, k: nat, l: PriceLevel, mask: Word): seq<PriceSegment>
    requires k < 64 * |segs| && |segs[k / 64].levels| == 64
  {
    segs[k / 64 := PriceSegment(segs[k / 64].levels[k % 64 := l], mask)]
  }

  lemma PutAt(segs: seq<PriceSegment>, k: nat, l: PriceLevel, mask: Word, j: nat)
    requires Sized(segs) && k < 64 * |segs| && j < 64 * |segs|
    ensures Sized(Put(segs, k, l, mask))
    ensures LevelAt(Put(segs, k, l, mask), j) == if j == k then l else LevelAt(segs, j)
  {
  }

  lemma {:induction false} PutCount(segs: seq<PriceSegment>, k: nat, l: PriceLevel, mask: Word, n: nat)
    requires Sized(segs) && k < 64 * |segs| && n <= 64 * |segs|
    ensures Sized(Put(segs, k, l, mask)) && |Put(segs, k, l, mask)| == |segs|
    ensures CountUpTo(Put(segs, k, l, mask), n)
      == CountUpTo(segs, n) + (if k < n then l.orderCount - LevelAt(segs, k).orderCount else 0)
    ensures QuantityUpTo(Put(segs, k, l, mask), n)
      == QuantityUpTo(segs, n) + (if k < n then l.totalQuantity - LevelAt(segs, k).totalQuantity else 0)
  {
    if n > 0 {
      PutCount(segs, k, l, mask, n - 1);
      PutAt(segs, k, l, mask, n - 1);
    }
  }

  /** Only orders of one level differ between two pools, and neither their level nor their
      presence changes. */
  ghost predicate OnlyLevelChanged(o: seq<Order>, o': seq<Order>, side: Side, price: nat) {
    && |o'| == |o|
    && forall s :: 0 <= s < |o| ==>
         if o[s].inUse && o[s].side == side && o[s].price == price
         then o'[s] == o[s].(prev := o'[s].prev, next := o'[s].next, remaining := o'[s].remaining)
         else o'[s] == o[s]
  }

  /** The pools agree on everything but the links. */
  ghost predicate SameViews(o: seq<Order>, o': seq<Order>) {
    && |o'| == |o|
    && forall s :: 0 <= s < |o| ==> o'[s].View() == o[s].View()
  }

  lemma LevelFrame(l: PriceLevel, f: seq<nat>, o: seq<Order>, o': seq<Order>, side: Side, price: nat, changedSide: Side,
                   changedPrice: nat)
    requires LevelInv(l, f, o, side, price)
    requires OnlyLevelChanged(o, o', changedSide, changedPrice)
    requires side != changedSide || price != changedPrice
    ensures LevelInv(l, f, o', side, price)
  {
    forall i | 0 <= i < |f|
      ensures o'[f[i]] == o[f[i]]
    {
      assert Node(o, f, i, side, price);
    }
    FifoFrame(o, o', f, side, price);
  }

  lemma ChangeLevel(segs: seq<PriceSegment>, fifos: seq<seq<nat>>, o: seq<Order>, side: Side, base: nat,
                    k: nat, l: PriceLevel, mask: Word, f: seq<nat>, o': seq<Order>)
    requires LevelsInv(segs, fifos, o, side, base) && k < |fifos|
    requires OnlyLevelChanged(o, o', side, 64 * base + k)
    requires LevelInv(l, f, o', side, 64 * base + k)
    ensures LevelsInv(Put(segs, k, l, mask), fifos[k := f], o', side, base)
  {
    var segs' := Put(segs, k, l, mask);
    forall j | 0 <= j < |fifos|
      ensures |segs'[j / 64].levels| == 64 && LevelInv(LevelAt(segs', j), fifos[k := f][j], o', side, 64 * base + j)
    {
      PutAt(segs, k, l, mask, j);
      if j != k {
        LevelFrame(LevelAt(segs, j), fifos[j], o, o', side, 64 * base + j, side, 64 * base + k);
      }
    }
  }

  lemma OtherSideFrame(segs: seq<PriceSegment>, fifos: seq<seq<nat>>, o: seq<Order>, side: Side, base: nat,
                       o': seq<Order>, price: nat)
    requires LevelsInv(segs, fifos, o, side, base)
    requires OnlyLevelChanged(o, o', Opposite(side), price)
    ensures LevelsInv(segs, fifos, o', side, base)
  {
    forall j | 0 <= j < |fifos|
      ensures LevelInv(LevelAt(segs, j), fifos[j], o', side, 64 * base + j)
    {
      LevelFrame(LevelAt(segs, j), fifos[j], o, o', side, 64 * base + j, Opposite(side), price);
    }
  }

  lemma ChangeMask(segs: seq<PriceSegment>, fifos: seq<seq<nat>>, k: nat, l: PriceLevel, mask: Word, f: seq<nat>)
    requires Sized(segs) && MasksInv(segs, fifos) && k < |fifos|
    requires forall j ::
      0 <= j < 64 ==> (Bit(mask, j) <==> if j == k % 64 then f != [] else Bit(segs[k / 64].activeMask, j))
    ensures MasksInv(Put(segs, k, l, mask), fifos[k := f])
  {
    var segs' := Put(segs, k, l, mask);
    forall j | 0 <= j < |fifos|
      ensures Bit(segs'[j / 64].activeMask, j % 64) <==> fifos[k := f][j] != []
    {
      assert j == 64 * (j / 64) + j % 64;
    }
  }

  lemma ChangeBitmap(segs: seq<PriceSegment>, words: seq<Word>, k: nat, l: PriceLevel, mask: Word, words': seq<Word>)
    requires Sized(segs) && BitmapInv(segs, words) && k < 64 * |segs|
    requires |words'| == |words|
    requires forall g ::
      0 <= g < 64 * |words| ==>
        (Bit(words'[g / 64], g % 64) <==> if g == k / 64 then mask != 0 else Bit(words[g / 64], g % 64))
    ensures BitmapInv(Put(segs, k, l, mask), words')
  {
  }

  lemma SetWordBit(words: seq<Word>, g: nat)
    requires g < 64 * |words|
    ensures forall h :: 0 <= h < 64 * |words| ==>
      (Bit(words[g / 64 := WithBit(words[g / 64], g % 64)][h / 64], h % 64) <==> h == g || Bit(words[h / 64], h % 64))
  {
    forall h | 0 <= h < 64 * |words|
      ensures Bit(words[g / 64 := WithBit(words[g / 64], g % 64)][h / 64], h % 64)
        <==> h == g || Bit(words[h / 64], h % 64)
    {
      assert h == 64 * (h / 64) + h % 64;
    }
  }

  lemma ClearWordBit(words: seq<Word>, g: nat)
    requires g < 64 * |words|
    ensures forall h :: 0 <= h < 64 * |words| ==>
      (Bit(words[g / 64 := WithoutBit(words[g / 64], g % 64)][h / 64], h % 64)
       <==> h != g && Bit(words[h / 64], h % 64))
  {
    forall h | 0 <= h < 64 * |words|
      ensures Bit(words[g / 64 := WithoutBit(words[g / 64], g % 64)][h / 64], h % 64)
        <==> h != g && Bit(words[h / 64], h % 64)
    {
      assert h == 64 * (h / 64) + h % 64;
    }
  }

  /** Segments differ only in level contents, not in which are occupied. */
  lemma SameOccupancy(segs: seq<PriceSegment>, words: seq<Word>, best: nat, side: Side, k: nat, l: PriceLevel,
                      mask: Word)
    requires Sized(segs) && BitmapInv(segs, words) && BestInv(segs, best, side) && k < 64 * |segs|
    requires mask != 0 <==> segs[k / 64].activeMask != 0
    ensures BitmapInv(Put(segs, k, l, mask), words) && BestInv(Put(segs, k, l, mask), best, side)
  {
  }

  // ---------------------------------------------------------------- what the invariants give

  /** The best level of a side: non-empty, and at least as good as every non-empty one. */
  ghost predicate IsBestLevel(fifos: seq<seq<nat>>, k: nat, side: Side) {
    && k < |fifos| && fifos[k] != []
    && forall j :: 0 <= j < |fifos| && fifos[j] != [] ==> AtLeastAsGood(side, k, j)
  }

  lemma BestBitIsBestLevel(segs: seq<PriceSegment>, fifos: seq<seq<nat>>, best: nat, side: Side, off: nat)
    requires MasksInv(segs, fifos) && BestInv(segs, best, side) && best != NO_SEGMENT
    requires off < 64 && Bit(segs[best].activeMask, off)
    requires forall j :: 0 <= j < 64 && Bit(segs[best].activeMask, j) ==> AtLeastAsGood(side, off, j)
    ensures IsBestLevel(fifos, 64 * best + off, side)
  {
    var k := 64 * best + off;
    assert k / 64 == best && k % 64 == off;
    forall j | 0 <= j < |fifos| && fifos[j] != []
      ensures AtLeastAsGood(side, k, j)
    {
      assert Bit(segs[j / 64].activeMask, j % 64);
      NonZero(segs[j / 64].activeMask, j % 64);
      assert AtLeastAsGood(side, best, j / 64);
      if j / 64 == best {
        assert AtLeastAsGood(side, off, j % 64);
      }
    }
  }

  lemma NonZero(w: Word, i: nat)
    requires Bit(w, i)
    ensures w != 0
  {
    ZeroHasNoBit(i);
  }

  lemma NoBestNoOrders(segs: seq<PriceSegment>, fifos: seq<seq<nat>>, side: Side)
    requires MasksInv(segs, fifos) && BestInv(segs, NO_SEGMENT, side)
    ensures forall k :: 0 <= k < |fifos| ==> fifos[k] == []
  {
    ZeroHasNoBits();
    forall k | 0 <= k < |fifos|
      ensures fifos[k] == []
    {
      assert segs[k / 64].activeMask == 0;
    }
  }

  lemma {:induction false} EmptyLevelsSum(segs: seq<PriceSegment>, n: nat)
    requires Sized(segs) && n <= 64 * |segs|
    requires forall k :: 0 <= k < n ==> LevelAt(segs, k) == EMPTY_LEVEL
    ensures CountUpTo(segs, n) == 0 && QuantityUpTo(segs, n) == 0
  {
    if n > 0 {
      EmptyLevelsSum(segs, n - 1);
    }
  }

  lemma {:induction false} CountIsPositive(segs: seq<PriceSegment>, k: nat, n: nat)
    requires Sized(segs) && k < n <= 64 * |segs|
    ensures CountUpTo(segs, n) >= LevelAt(segs, k).orderCount
    ensures QuantityUpTo(segs, n) >= LevelAt(segs, k).totalQuantity
  {
    if k < n - 1 {
      CountIsPositive(segs, k, n - 1);
    }
  }

  /** The side total is at most (2^32 - 1) per resting order, so it fits 64 bits. */
  lemma {:induction false} TotalFits(segs: seq<PriceSegment>, fifos: seq<seq<nat>>, o: seq<Order>, side: Side,
                                     base: nat, n: nat)
    requires LevelsInv(segs, fifos, o, side, base) && n <= |fifos|
    ensures QuantityUpTo(segs, n) <= CountUpTo(segs, n) * 0xFFFF_FFFF
  {
    if n > 0 {
      TotalFits(segs, fifos, o, side, base, n - 1);
      assert LevelInv(LevelAt(segs, n - 1), fifos[n - 1], o, side, 64 * base + (n - 1));
      SumFits(o, fifos[n - 1]);
    }
  }
}
