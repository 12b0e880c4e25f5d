/** One side of the book: price segments, the segment bitmap and the cached best segment over
    the shared order pool. */
module SideBooks {
  import opened BookTypes
  import opened Words
  import opened OrderPools
  import opened Fifos
  import opened PriceLevels

  function SegmentCountFor(minPrice: PriceTick, maxPrice: PriceTick): nat {
    if maxPrice < minPrice then 0 else maxPrice / 64 - minPrice / 64 + 1
  }

  function WordCountFor(bits: nat): nat {
    (bits + 63) / 64
  }

  /** Everything that ties one side's structures to the pool contents `o`. */
  ghost predicate Consistent(segs: seq<PriceSegment>, words: seq<Word>, best: nat, count: nat, total: nat,
                             fifos: seq<seq<nat>>, o: seq<Order>, side: Side, base: nat)
  {
    && LevelsInv(segs, fifos, o, side, base)
    && MasksInv(segs, fifos)
    && BitmapInv(segs, words)
    && BestInv(segs, best, side)
    && TotalsInv(segs, count, total)
  }

  class SideBook {
    const side: Side
    const minPrice: PriceTick
    const maxPrice: PriceTick
    const baseSegment: nat
    const segments: array<PriceSegment>
    const occupancy: array<Word>
    var bestSegment: nat
    var orderCount: nat
    var totalQuantity: nat
    ghost var fifos: seq<seq<nat>>

    ghost predicate Shape()
    {
      && baseSegment == minPrice / 64
      && segments.Length == SegmentCountFor(minPrice, maxPrice)
      && occupancy.Length == WordCountFor(segments.Length)
      && segments as object != occupancy as object
    }

    /** Orders rest only at prices of the configured range. */
    ghost predicate Ranged()
      reads this
    {
      forall k :: 0 <= k < |fifos| && fifos[k] != [] ==> minPrice <= 64 * baseSegment + k <= maxPrice
    }

    /** Consistency with the pool contents `o`. */
    ghost predicate Valid(o: seq<Order>)
      reads this, segments, occupancy
    {
      && Shape() && Ranged()
      && Consistent(segments[..], occupancy[..], bestSegment, orderCount, totalQuantity, fifos, o, side, baseSegment)
    }

    /** The level of a price: its index in `fifos`. */
    function LevelOf(price: nat): int {
      price - 64 * baseSegment
    }

    lemma InRangeHasLevel(price: nat)
      requires Shape() && minPrice <= price <= maxPrice
      ensures 0 <= LevelOf(price) < 64 * segments.Length
      ensures LevelOf(price) / 64 == price / 64 - baseSegment && LevelOf(price) % 64 == price % 64
    {
    }

    constructor (side: Side, minPrice: PriceTick, maxPrice: PriceTick)
      ensures Shape() && this.side == side && this.minPrice == minPrice && this.maxPrice == maxPrice
      ensures fresh(segments) && fresh(occupancy)
      ensures forall o :: Valid(o)
      ensures orderCount == totalQuantity == 0 && forall k :: 0 <= k < |fifos| ==> fifos[k] == []
    {
      this.side, this.minPrice, this.maxPrice := side, minPrice, maxPrice;
      baseSegment := minPrice / 64;
      segments := new PriceSegment[SegmentCountFor(minPrice, maxPrice)](_ => EMPTY_SEGMENT);
      occupancy := new Word[WordCountFor(SegmentCountFor(minPrice, maxPrice))](_ => 0);
      new;
      Clear();
    }

    method Clear()
      requires Shape()
      modifies this, segments, occupancy
      ensures forall o :: Valid(o)
      ensures orderCount == totalQuantity == 0 && forall k :: 0 <= k < |fifos| ==> fifos[k] == []
    {
      bestSegment := NO_SEGMENT;
      orderCount := 0;
      totalQuantity := 0;
      var i := 0;
      while i < segments.Length
        invariant i <= segments.Length
        invariant bestSegment == NO_SEGMENT && orderCount == totalQuantity == 0
        invariant forall g :: 0 <= g < i ==> segments[g] == EMPTY_SEGMENT
      {
        segments[i] := EMPTY_SEGMENT;
        i := i + 1;
      }
      i := 0;
      while i < occupancy.Length
        invariant i <= occupancy.Length
        invariant bestSegment == NO_SEGMENT && orderCount == totalQuantity == 0
        invariant forall g :: 0 <= g < segments.Length ==> segments[g] == EMPTY_SEGMENT
        invariant forall w :: 0 <= w < i ==> occupancy[w] == 0
      {
        occupancy[i] := 0;
        i := i + 1;
      }
      fifos := seq(64 * segments.Length, _ => []);
      EmptySide(segments[..], occupancy[..], fifos);
    }

    static lemma EmptySide(segs: seq<PriceSegment>, words: seq<Word>, f: seq<seq<nat>>)
      requires |f| == 64 * |segs| && |words| == WordCountFor(|segs|)
      requires forall g :: 0 <= g < |segs| ==> segs[g] == EMPTY_SEGMENT
      requires forall w :: 0 <= w < |words| ==> words[w] == 0
      requires forall k :: 0 <= k < |f| ==> f[k] == []
      ensures forall o: seq<Order>, s, base :: LevelsInv(segs, f, o, s, base)
      ensures MasksInv(segs, f) && BitmapInv(segs, words) && TotalsInv(segs, 0, 0)
    {
      ZeroHasNoBits();
      EmptyLevelsSum(segs, 64 * |segs|);
    }

    method Append(pool: OrderPool, slot: nat)
      requires Valid(pool.orders[..])
      requires slot < pool.orders.Length <= MAX_CAPACITY
      requires var x := pool.orders[slot];
               x.inUse && x.side == side && x.remaining > 0 && minPrice <= x.price <= maxPrice
      requires var k := LevelOf(pool.orders[slot].price); 0 <= k < |fifos| ==> slot !in fifos[k]
      modifies this, segments, occupancy, pool.orders
      ensures Valid(pool.orders[..])
      ensures var k := LevelOf(old(pool.orders[slot].price));
              && 0 <= k < |old(fifos)|
              && fifos == old(fifos)[k := old(fifos)[k] + [slot]]
      ensures OnlyLevelChanged(old(pool.orders[..]), pool.orders[..], side, old(pool.orders[slot].price))
      ensures SameViews(old(pool.orders[..]), pool.orders[..])
      ensures orderCount == old(orderCount) + 1
        && totalQuantity == old(totalQuantity) + old(pool.orders[slot].remaining)
    {
      hide Consistent, SumRemaining, OnlyLevelChanged, SameViews, Sized, LevelInv, LevelAt, Appended, Put, Bit;
      ghost var o := pool.orders[..];
      InRangeHasLevel(pool.orders[slot].price);
      ghost var k := LevelOf(pool.orders[slot].price);
      LevelFacts(o, k);
      ghost var l, mask := AppendStores(pool, slot, k, fifos[k]);
      AppendKeeps(old(segments[..]), old(occupancy[..]), old(bestSegment), old(orderCount), old(totalQuantity), fifos,
          o, side,
                  baseSegment, k, slot, l, mask, occupancy[..], bestSegment);
      fifos := fifos[k := fifos[k] + [slot]];
    }

    /** The stores of `Append` to level `k`, whose list is `f`. */
    method AppendStores(pool: OrderPool, slot: nat, ghost k: nat, ghost f: seq<nat>)
        returns (ghost l: PriceLevel, ghost mask: Word)
      requires slot < pool.orders.Length <= MAX_CAPACITY && k < 64 * segments.Length && k / 64 / 64 < occupancy.Length
      requires k / 64 == pool.orders[slot].price / 64 - baseSegment && k % 64 == pool.orders[slot].price % 64
      requires |segments[k / 64].levels| == 64 && forall i :: 0 <= i < |f| ==> f[i] < pool.orders.Length
      requires var l := segments[k / 64].levels[k % 64]; l.head == LinkOr(f, 0, INVALID) && l.tail == Last(f)
      requires segments as object != occupancy as object
      modifies this`bestSegment, this`orderCount, this`totalQuantity, segments, occupancy, pool.orders
      ensures var l0 := old(segments[k / 64].levels[k % 64]);
              l == PriceLevel(LinkOr(f + [slot], 0, INVALID), slot, l0.totalQuantity + old(pool.orders[slot].remaining),
                  l0.orderCount + 1)
      ensures mask == if f == [] then WithBit(old(segments[k / 64]).activeMask, k % 64)
        else old(segments[k / 64]).activeMask
      ensures segments[..] == Put(old(segments[..]), k, l, mask)
      ensures var words := old(occupancy[..]);
              occupancy[..] == if old(segments[k / 64]).activeMask == 0
                               then words[k / 64 / 64 := WithBit(words[k / 64 / 64], k / 64 % 64)] else words
      ensures bestSegment == if old(bestSegment) == NO_SEGMENT || AtLeastAsGood(side, k / 64, old(bestSegment))
        then k / 64 else old(bestSegment)
      ensures orderCount == old(orderCount) + 1
        && totalQuantity == old(totalQuantity) + old(pool.orders[slot].remaining)
      ensures pool.orders[..] == Appended(old(pool.orders[..]), f, slot)
    {
      hide Bit, Appended, Put, AtLeastAsGood;
      var order := pool.orders[slot];
      var segment: nat := order.price / 64 - baseSegment;
      var offset := order.price % 64;
      var priceSegment := segments[segment];
      var level := priceSegment.levels[offset];
      var segmentWasEmpty := priceSegment.activeMask == 0;
      LinkBehind(pool, slot, level.tail, f);
      if level.tail == INVALID {
        level := level.(head := slot);
        priceSegment := priceSegment.(activeMask := WithBit(priceSegment.activeMask, offset));
      }
      if segmentWasEmpty {
        SetSegmentOccupied(segment);
      }
      level := level.(tail := slot, totalQuantity := level.totalQuantity + order.remaining,
          orderCount := level.orderCount + 1);
      l, mask := level, priceSegment.activeMask;
      StoreLevel(segment, offset, level, priceSegment.activeMask, k);
      orderCount := orderCount + 1;
      totalQuantity := totalQuantity + order.remaining;
      UpdateBestAfterInsert(segment);
    }

    /** What the invariants say about one level. */
    lemma LevelFacts(o: seq<Order>, k: nat)
      requires Valid(o) && k < 64 * segments.Length
      ensures Sized(segments[..]) && |segments[..]| == segments.Length && |fifos| == 64 * segments.Length
      ensures |segments[k / 64].levels| == 64 && |occupancy[..]| == occupancy.Length && k / 64 / 64 < occupancy.Length
      ensures segments[k / 64].levels[k % 64] == LevelAt(segments[..], k)
      ensures LevelInv(LevelAt(segments[..], k), fifos[k], o, side, 64 * baseSegment + k)
      ensures forall i :: 0 <= i < |fifos[k]| ==> fifos[k][i] < |o|
      ensures LevelAt(segments[..], k)
        == PriceLevel(LinkOr(fifos[k], 0, INVALID), Last(fifos[k]), SumRemaining(o, fifos[k]), |fifos[k]|)
      ensures bestSegment == NO_SEGMENT || bestSegment < segments.Length
      ensures segments.Length < NO_SEGMENT && occupancy.Length < 0x100_0000_0000
    {
      hide MasksInv, BitmapInv, TotalsInv, LevelsInv, LevelInv;
      LevelIs(segments[..], fifos, o, side, baseSegment, k);
    }

    lemma SideSize(o: seq<Order>)
      requires Valid(o)
      ensures Shape() && |fifos| == 64 * segments.Length && 64 * baseSegment + 64 * segments.Length <= 0x1_0000_0000
    {
      hide MasksInv, BitmapInv, BestInv, TotalsInv, LevelInv;
    }

    /** Links `slot` behind `tail`, the last slot of `f`. */
    method LinkBehind(pool: OrderPool, slot: nat, tail: nat, ghost f: seq<nat>)
      requires slot < pool.orders.Length <= MAX_CAPACITY && forall i :: 0 <= i < |f| ==> f[i] < pool.orders.Length
      requires tail == Last(f)
      modifies pool.orders
      ensures pool.orders[..] == Appended(old(pool.orders[..]), f, slot)
    {
      pool.orders[slot] := pool.orders[slot].(prev := tail, next := INVALID);
      if tail != INVALID {
        pool.orders[tail] := pool.orders[tail].(next := slot);
      }
    }

    /** Writes a level and its segment's mask back. */
    method StoreLevel(segment: nat, offset: nat, level: PriceLevel, mask: Word, ghost k: nat)
      requires segment < segments.Length && offset < 64 && |segments[segment].levels| == 64
      requires k == 64 * segment + offset
      modifies segments
      ensures segments[..] == Put(old(segments[..]), k, level, mask) && segments[segment].activeMask == mask
    {
      segments[segment] := PriceSegment(segments[segment].levels[offset := level], mask);
    }

    method SetSegmentOccupied(segment: nat)
      requires segment / 64 < occupancy.Length
      modifies occupancy
      ensures occupancy[..]
        == old(occupancy[..])[segment / 64 := WithBit(old(occupancy[..])[segment / 64], segment % 64)]
    {
      occupancy[segment / 64] := WithBit(occupancy[segment / 64], segment % 64);
    }

    method ClearSegmentOccupied(segment: nat)
      requires segment / 64 < occupancy.Length
      modifies occupancy
      ensures occupancy[..]
        == old(occupancy[..])[segment / 64 := WithoutBit(old(occupancy[..])[segment / 64], segment % 64)]
    {
      occupancy[segment / 64] := WithoutBit(occupancy[segment / 64], segment % 64);
    }

    method UpdateBestAfterInsert(segment: nat)
      modifies this`bestSegment
      ensures bestSegment == if old(bestSegment) == NO_SEGMENT || AtLeastAsGood(side, segment, old(bestSegment))
        then segment else old(bestSegment)
    {
      if bestSegment == NO_SEGMENT {
        bestSegment := segment;
        return;
      }
      if side == Ask {
        if segment < bestSegment {
          bestSegment := segment;
        }
      } else {
        if segment > bestSegment {
          bestSegment := segment;
        }
      }
    }

    static lemma LevelsGive(segs: seq<PriceSegment>, f: seq<seq<nat>>, o: seq<Order>, side: Side, base: nat, k: nat)
      requires LevelsInv(segs, f, o, side, base) && k < |f|
      ensures Sized(segs) && LevelInv(LevelAt(segs, k), f[k], o, side, 64 * base + k)
    {
    }

    static lemma AppendKeeps(segs: seq<PriceSegment>, words: seq<Word>, best: nat, count: nat, total: nat,
                             f: seq<seq<nat>>, o: seq<Order>, side: Side, base: nat, k: nat, slot: nat,
                             l: PriceLevel, mask: Word, words': seq<Word>, best': nat)
      requires Consistent(segs, words, best, count, total, f, o, side, base)
      requires k < |f| && k < 64 * |segs| && |segs[k / 64].levels| == 64 && slot < |o| && slot !in f[k]
      requires forall i :: 0 <= i < |f[k]| ==> f[k][i] < |o|
      requires k / 64 / 64 < |words| && |segs| < NO_SEGMENT
      requires o[slot].inUse && o[slot].side == side && o[slot].price == 64 * base + k && o[slot].remaining > 0
      requires l
        == PriceLevel(LinkOr(f[k] + [slot], 0, INVALID), slot, SumRemaining(o, f[k]) + o[slot].remaining, |f[k]| + 1)
      requires mask == if f[k] == [] then WithBit(segs[k / 64].activeMask, k % 64) else segs[k / 64].activeMask
      requires words' == if segs[k / 64].activeMask == 0
        then words[k / 64 / 64 := WithBit(words[k / 64 / 64], k / 64 % 64)] else words
      requires best' == if best == NO_SEGMENT || AtLeastAsGood(side, k / 64, best) then k / 64 else best
      ensures Consistent(Put(segs, k, l, mask), words', best', count + 1, total + o[slot].remaining,
                         f[k := f[k] + [slot]], Appended(o, f[k], slot), side, base)
      ensures OnlyLevelChanged(o, Appended(o, f[k], slot), side, 64 * base + k)
      ensures SameViews(o, Appended(o, f[k], slot))
    {
      hide LevelInv, LevelsInv, MasksInv, BitmapInv, BestInv, TotalsInv, Bit, OnlyLevelChanged, SameViews, Put;
      hide Appended, SumRemaining;
      LevelsGive(segs, f, o, side, base, k);
      AppendLevel(segs, f, o, side, base, k, slot, mask, count, total);
      AppendMask(segs, words, best, f, side, k, l, mask, f[k] + [slot]);
    }

    /** The value-level step of `Append`: the level and the totals. */
    static lemma AppendLevel(segs: seq<PriceSegment>, f: seq<seq<nat>>, o: seq<Order>, side: Side, base: nat, k: nat,
                             slot: nat, mask: Word, count: nat, total: nat)
      requires Sized(segs) && LevelsInv(segs, f, o, side, base) && TotalsInv(segs, count, total)
      requires k < |f| && k < 64 * |segs| && |segs[k / 64].levels| == 64 && slot < |o| && slot !in f[k]
      requires o[slot].inUse && o[slot].side == side && o[slot].price == 64 * base + k && o[slot].remaining > 0
      requires LevelInv(LevelAt(segs, k), f[k], o, side, 64 * base + k)
      ensures var l := PriceLevel(LinkOr(f[k] + [slot], 0, INVALID), slot, SumRemaining(o, f[k]) + o[slot].remaining,
          |f[k]| + 1);
              && LevelsInv(Put(segs, k, l, mask), f[k := f[k] + [slot]], Appended(o, f[k], slot), side, base)
              && TotalsInv(Put(segs, k, l, mask), count + 1, total + o[slot].remaining)
      ensures OnlyLevelChanged(o, Appended(o, f[k], slot), side, 64 * base + k)
      ensures SameViews(o, Appended(o, f[k], slot))
    {
      hide Fifo, LevelsInv, OnlyLevelChanged, Put, LevelAt, CountUpTo, QuantityUpTo, Appended, SumRemaining, Sized;
      var fk := f[k] + [slot];
      var l := PriceLevel(LinkOr(fk, 0, INVALID), slot, SumRemaining(o, f[k]) + o[slot].remaining, |f[k]| + 1);
      AppendIsLocal(o, f[k], slot, side, 64 * base + k);
      AppendKeepsFifo(o, f[k], slot, side, 64 * base + k);
      AppendAddsQuantity(o, f[k], slot);
      ChangeLevel(segs, f, o, side, base, k, l, mask, fk, Appended(o, f[k], slot));
      PutCount(segs, k, l, mask, 64 * |segs|);
    }

    /** The value-level step of `Append`: mask, bitmap and cached best. */
    static lemma AppendMask(segs: seq<PriceSegment>, words: seq<Word>, best: nat, f: seq<seq<nat>>, side: Side,
                            k: nat, l: PriceLevel, mask: Word, fk: seq<nat>)
      requires Sized(segs) && MasksInv(segs, f) && BitmapInv(segs, words) && BestInv(segs, best, side)
      requires k < |f| && k < 64 * |segs| && k / 64 / 64 < |words| && |segs| < NO_SEGMENT && fk != []
      requires |segs[k / 64].levels| == 64
      requires mask == if f[k] == [] then WithBit(segs[k / 64].activeMask, k % 64) else segs[k / 64].activeMask
      ensures MasksInv(Put(segs, k, l, mask), f[k := fk])
      ensures var g := k / 64;
              && BitmapInv(Put(segs, k, l, mask),
                  if segs[g].activeMask == 0 then words[g / 64 := WithBit(words[g / 64], g % 64)] else words)
              && BestInv(Put(segs, k, l, mask), if best == NO_SEGMENT || AtLeastAsGood(side, g, best) then g else best,
                  side)
    {
      hide Bit, BitmapInv, BestInv;
      assert Bit(segs[k / 64].activeMask, k % 64) <==> f[k] != [];
      ChangeMask(segs, f, k, l, mask, fk);
      NonZero(mask, k % 64);
      AppendBitmap(segs, words, best, side, k, l, mask);
    }

    static lemma AppendIsLocal(o: seq<Order>, f: seq<nat>, slot: nat, side: Side, price: nat)
      requires Fifo(o, f, side, price) && slot < |o| && forall i :: 0 <= i < |f| ==> f[i] < |o|
      requires o[slot].inUse && o[slot].side == side && o[slot].price == price
      ensures OnlyLevelChanged(o, Appended(o, f, slot), side, price)
      ensures SameViews(o, Appended(o, f, slot))
    {
      if f != [] {
        assert Node(o, f, |f| - 1, side, price);
      }
    }

    static lemma AppendBitmap(segs: seq<PriceSegment>, words: seq<Word>, best: nat, side: Side, k: nat, l: PriceLevel,
                              mask: Word)
      requires Sized(segs) && BitmapInv(segs, words) && BestInv(segs, best, side) && k < 64 * |segs|
        && k / 64 / 64 < |words| && |segs| < NO_SEGMENT
      requires mask != 0
      ensures var g := k / 64;
              && BitmapInv(Put(segs, k, l, mask),
                  if segs[g].activeMask == 0 then words[g / 64 := WithBit(words[g / 64], g % 64)] else words)
              && BestInv(Put(segs, k, l, mask), if best == NO_SEGMENT || AtLeastAsGood(side, g, best) then g else best,
                  side)
    {
      hide Bit;
      var g := k / 64;
      if segs[g].activeMask == 0 {
        SetWordBit(words, g);
        ChangeBitmap(segs, words, k, l, mask, words[g / 64 := WithBit(words[g / 64], g % 64)]);
      } else {
        SameOccupancy(segs, words, best, side, k, l, mask);
      }
    }

    // -------------------------------------------------------------- remove

    method Remove(pool: OrderPool, slot: nat)
      requires Valid(pool.orders[..])
      requires slot < pool.orders.Length <= MAX_CAPACITY
      requires var k := LevelOf(pool.orders[slot].price); 0 <= k < |fifos| && slot in fifos[k]
      modifies this, segments, occupancy, pool.orders
      ensures Valid(pool.orders[..])
      ensures fifos == RemovedFrom(old(fifos), LevelOf(old(pool.orders[slot].price)), slot)
      ensures forall k :: 0 <= k < |fifos| ==> slot !in fifos[k]
      ensures OnlyLevelChanged(old(pool.orders[..]), pool.orders[..], side, old(pool.orders[slot].price))
      ensures SameViews(old(pool.orders[..]), pool.orders[..])
      ensures orderCount == old(orderCount) - 1
        && totalQuantity == old(totalQuantity) - old(pool.orders[slot].remaining)
    {
      hide Consistent, SumRemaining, OnlyLevelChanged, SameViews, Sized, LevelAt, Unlinked, Put, Bit, SearchResult;
      hide Fifo;
      ghost var o := pool.orders[..];
      ghost var k := LevelOf(pool.orders[slot].price);
      LevelFacts(o, k);
      ghost var f := fifos[k];
      ghost var i := IndexOf(f, slot);
      MemberFacts(o, f, i, side, 64 * baseSegment + k);
      CountFacts(segments[..], fifos, o, k);
      RemovedEverywhere(segments[..], fifos, o, k, i, fifos[k := Without(f, i)]);
      ghost var l, mask := RemoveStores(pool, slot, k, f, i);
      RemoveKeeps(old(segments[..]), old(occupancy[..]), old(bestSegment), old(orderCount), old(totalQuantity), fifos,
          o, side,
                  baseSegment, k, i, l, mask, occupancy[..], bestSegment);
      fifos := fifos[k := Without(f, i)];
    }

    /** `Consistent` gives the count of a level as part of the side's count. */
    lemma CountFacts(segs: seq<PriceSegment>, f: seq<seq<nat>>, o: seq<Order>, k: nat)
      requires Consistent(segs, occupancy[..], bestSegment, orderCount, totalQuantity, f, o, side, baseSegment)
      requires k < |f|
      ensures orderCount >= |f[k]| && totalQuantity >= SumRemaining(o, f[k])
    {
      LevelsGive(segs, f, o, side, baseSegment, k);
      CountIsPositive(segs, k, 64 * |segs|);
    }

    lemma RemovedEverywhere(segs: seq<PriceSegment>, f: seq<seq<nat>>, o: seq<Order>, k: nat, i: nat, f': seq<seq<nat>>)
      requires Consistent(segs, occupancy[..], bestSegment, orderCount, totalQuantity, f, o, side, baseSegment)
      requires k < |f| && i < |f[k]| && f' == f[k := Without(f[k], i)]
      ensures forall j :: 0 <= j < |f'| ==> f[k][i] !in f'[j]
    {
      hide Fifo, MasksInv, BitmapInv, BestInv, TotalsInv, Unlinked;
      LevelsGive(segs, f, o, side, baseSegment, k);
      RemoveKeepsFifo(o, f[k], i, side, 64 * baseSegment + k);
      forall j | 0 <= j < |f| && j != k
        ensures f[k][i] !in f[j]
      {
        LevelsGive(segs, f, o, side, baseSegment, j);
        DisjointLevels(o, f[k], f[j], side, 64 * baseSegment + k, side, 64 * baseSegment + j, i);
      }
    }

    /** The stores of `Remove` for the `i`-th order of level `k`, whose list is `f`. */
    method RemoveStores(pool: OrderPool, slot: nat, ghost k: nat, ghost f: seq<nat>, ghost i: nat)
        returns (ghost l: PriceLevel, ghost mask: Word)
      requires slot < pool.orders.Length <= MAX_CAPACITY && k < 64 * segments.Length && k / 64 / 64 < occupancy.Length
      requires k / 64 == pool.orders[slot].price / 64 - baseSegment && k % 64 == pool.orders[slot].price % 64
      requires |segments[k / 64].levels| == 64
      requires (forall m :: 0 <= m < |f| ==> f[m] < pool.orders.Length) && NoRepeats(f)
      requires i < |f| && f[i] == slot && pool.orders[slot].prev == PrevOf(f, i)
        && pool.orders[slot].next == LinkOr(f, i + 1, INVALID)
      requires var l := segments[k / 64].levels[k % 64];
               && l.head == LinkOr(f, 0, INVALID) && l.tail == Last(f) && l.orderCount == |f|
               && l.totalQuantity >= pool.orders[slot].remaining
      requires orderCount > 0 && totalQuantity >= pool.orders[slot].remaining && occupancy.Length < 0x100_0000_0000
      requires segments as object != occupancy as object
      modifies this`bestSegment, this`orderCount, this`totalQuantity, segments, occupancy, pool.orders
      ensures var l0 := old(segments[k / 64].levels[k % 64]);
              l == PriceLevel(LinkOr(Without(f, i), 0, INVALID), Last(Without(f, i)),
                  l0.totalQuantity - old(pool.orders[slot].remaining), |f| - 1)
      ensures mask == if |f| == 1 then WithoutBit(old(segments[k / 64]).activeMask, k % 64)
        else old(segments[k / 64]).activeMask
      ensures segments[..] == Put(old(segments[..]), k, l, mask)
      ensures var words := old(occupancy[..]);
              occupancy[..] == if |f| == 1 && mask == 0
                               then words[k / 64 / 64 := WithoutBit(words[k / 64 / 64], k / 64 % 64)] else words
      ensures if |f| == 1 && mask == 0 && k / 64 == old(bestSegment) then SearchResult(occupancy[..], bestSegment, side)
              else bestSegment == old(bestSegment)
      ensures orderCount == old(orderCount) - 1
        && totalQuantity == old(totalQuantity) - old(pool.orders[slot].remaining)
      ensures pool.orders[..] == Unlinked(old(pool.orders[..]), f, i)
    {
      hide Bit, Put, SearchResult, NoRepeats;
      var order := pool.orders[slot];
      var segment: nat := order.price / 64 - baseSegment;
      var offset := order.price % 64;
      var level := segments[segment].levels[offset];
      Unlink(pool, slot, f, i);
      LinksAfterRemoval(f, i);
      if order.prev == INVALID {
        level := level.(head := order.next);
      }
      if order.next == INVALID {
        level := level.(tail := order.prev);
      }
      level := level.(totalQuantity := level.totalQuantity - order.remaining, orderCount := level.orderCount - 1);
      l := level;
      orderCount := orderCount - 1;
      totalQuantity := totalQuantity - order.remaining;
      mask := if |f| == 1 then WithoutBit(segments[segment].activeMask, offset) else segments[segment].activeMask;
      if level.orderCount == 0 {
        StoreLevel(segment, offset, level, WithoutBit(segments[segment].activeMask, offset), k);
        if segment == bestSegment && segments[segment].activeMask == 0 {
          ClearSegmentOccupied(segment);
          RecomputeBest();
        } else if segments[segment].activeMask == 0 {
          ClearSegmentOccupied(segment);
        }
      } else {
        StoreLevel(segment, offset, level, segments[segment].activeMask, k);
      }
    }

    /** Unlinks the `i`-th order of `f` from its neighbours. */
    method Unlink(pool: OrderPool, slot: nat, ghost f: seq<nat>, ghost i: nat)
      requires slot < pool.orders.Length <= MAX_CAPACITY && NoRepeats(f)
      requires forall m :: 0 <= m < |f| ==> f[m] < pool.orders.Length
      requires i < |f| && f[i] == slot && pool.orders[slot].prev == PrevOf(f, i)
        && pool.orders[slot].next == LinkOr(f, i + 1, INVALID)
      modifies pool.orders
      ensures pool.orders[..] == Unlinked(old(pool.orders[..]), f, i)
    {
      var order := pool.orders[slot];
      if order.prev != INVALID {
        pool.orders[order.prev] := pool.orders[order.prev].(next := order.next);
      }
      if order.next != INVALID {
        pool.orders[order.next] := pool.orders[order.next].(prev := order.prev);
      }
      pool.orders[slot] := pool.orders[slot].(prev := INVALID, next := INVALID);
    }

    static lemma RemoveKeeps(segs: seq<PriceSegment>, words: seq<Word>, best: nat, count: nat, total: nat,
                             f: seq<seq<nat>>, o: seq<Order>, side: Side, base: nat, k: nat, i: nat,
                             l: PriceLevel, mask: Word, words': seq<Word>, best': nat)
      requires Consistent(segs, words, best, count, total, f, o, side, base)
      requires k < |f| && k < 64 * |segs| && |segs[k / 64].levels| == 64 && i < |f[k]|
      requires forall m :: 0 <= m < |f[k]| ==> f[k][m] < |o|
      requires k / 64 / 64 < |words| && |segs| < NO_SEGMENT && count > 0 && total >= o[f[k][i]].remaining
      requires SumRemaining(o, f[k]) >= o[f[k][i]].remaining
      requires l
        == PriceLevel(LinkOr(Without(f[k], i), 0, INVALID), Last(Without(f[k], i)),
            SumRemaining(o, f[k]) - o[f[k][i]].remaining, |f[k]| - 1)
      requires mask == if |f[k]| == 1 then WithoutBit(segs[k / 64].activeMask, k % 64) else segs[k / 64].activeMask
      requires words' == if |f[k]| == 1 && mask == 0
        then words[k / 64 / 64 := WithoutBit(words[k / 64 / 64], k / 64 % 64)] else words
      requires if |f[k]| == 1 && mask == 0 && k / 64 == best then SearchResult(words', best', side) else best' == best
      ensures Consistent(Put(segs, k, l, mask), words', best', count - 1, total - o[f[k][i]].remaining,
                         f[k := Without(f[k], i)], Unlinked(o, f[k], i), side, base)
      ensures OnlyLevelChanged(o, Unlinked(o, f[k], i), side, 64 * base + k)
      ensures SameViews(o, Unlinked(o, f[k], i))
    {
      hide LevelInv, LevelsInv, MasksInv, BitmapInv, BestInv, TotalsInv, Bit, OnlyLevelChanged, SameViews, Put;
      hide Unlinked, SumRemaining, SearchResult;
      LevelsGive(segs, f, o, side, base, k);
      RemoveLevel(segs, f, o, side, base, k, i, l, mask, count, total);
      RemoveMask(segs, words, best, f, side, k, l, mask, Without(f[k], i), words', best');
    }

    static lemma RemoveLevel(segs: seq<PriceSegment>, f: seq<seq<nat>>, o: seq<Order>, side: Side, base: nat, k: nat,
                             i: nat, l: PriceLevel, mask: Word, count: nat, total: nat)
      requires Sized(segs) && LevelsInv(segs, f, o, side, base) && TotalsInv(segs, count, total)
      requires k < |f| && k < 64 * |segs| && |segs[k / 64].levels| == 64 && i < |f[k]|
      requires LevelInv(LevelAt(segs, k), f[k], o, side, 64 * base + k)
      requires count > 0 && total >= o[f[k][i]].remaining && SumRemaining(o, f[k]) >= o[f[k][i]].remaining
      requires l
        == PriceLevel(LinkOr(Without(f[k], i), 0, INVALID), Last(Without(f[k], i)),
            SumRemaining(o, f[k]) - o[f[k][i]].remaining, |f[k]| - 1)
      ensures LevelsInv(Put(segs, k, l, mask), f[k := Without(f[k], i)], Unlinked(o, f[k], i), side, base)
      ensures TotalsInv(Put(segs, k, l, mask), count - 1, total - o[f[k][i]].remaining)
      ensures OnlyLevelChanged(o, Unlinked(o, f[k], i), side, 64 * base + k)
      ensures SameViews(o, Unlinked(o, f[k], i))
    {
      hide Fifo, LevelsInv, OnlyLevelChanged, SameViews, Put, LevelAt, CountUpTo, QuantityUpTo, Unlinked, SumRemaining;
      hide Sized;
      RemoveIsLocal(o, f[k], i, side, 64 * base + k);
      RemoveKeepsFifo(o, f[k], i, side, 64 * base + k);
      ChangeLevel(segs, f, o, side, base, k, l, mask, Without(f[k], i), Unlinked(o, f[k], i));
      PutCount(segs, k, l, mask, 64 * |segs|);
    }

    static lemma RemoveIsLocal(o: seq<Order>, f: seq<nat>, i: nat, side: Side, price: nat)
      requires Fifo(o, f, side, price) && i < |f| && forall m :: 0 <= m < |f| ==> f[m] < |o|
      ensures OnlyLevelChanged(o, Unlinked(o, f, i), side, price)
      ensures SameViews(o, Unlinked(o, f, i))
    {
      var o' := Unlinked(o, f, i);
      forall s | 0 <= s < |o|
        ensures o'[s].View() == o[s].View()
        ensures if o[s].inUse && o[s].side == side && o[s].price == price
                then o'[s] == o[s].(prev := o'[s].prev, next := o'[s].next, remaining := o'[s].remaining)
                else o'[s] == o[s]
      {
        UnlinkedAt(o, f, i, s);
        if s in f {
          var m :| 0 <= m < |f| && f[m] == s;
          assert Node(o, f, m, side, price);
        }
      }
    }

    static lemma RemoveMask(segs: seq<PriceSegment>, words: seq<Word>, best: nat, f: seq<seq<nat>>, side: Side,
                            k: nat, l: PriceLevel, mask: Word, fk: seq<nat>, words': seq<Word>, best': nat)
      requires Sized(segs) && MasksInv(segs, f) && BitmapInv(segs, words) && BestInv(segs, best, side)
      requires k < |f| && k < 64 * |segs| && k / 64 / 64 < |words| && |segs| < NO_SEGMENT
      requires |segs[k / 64].levels| == 64 && |f[k]| > 0 && |fk| == |f[k]| - 1
      requires mask == if fk == [] then WithoutBit(segs[k / 64].activeMask, k % 64) else segs[k / 64].activeMask
      requires words' == if fk == [] && mask == 0 then words[k / 64 / 64 := WithoutBit(words[k / 64 / 64], k / 64 % 64)]
        else words
      requires if fk == [] && mask == 0 && k / 64 == best then SearchResult(words', best', side) else best' == best
      ensures MasksInv(Put(segs, k, l, mask), f[k := fk])
      ensures BitmapInv(Put(segs, k, l, mask), words') && BestInv(Put(segs, k, l, mask), best', side)
    {
      hide Bit, BitmapInv, BestInv, SearchResult;
      var g := k / 64;
      assert Bit(segs[g].activeMask, k % 64) <==> f[k] != [];
      ChangeMask(segs, f, k, l, mask, fk);
      NonZero(segs[g].activeMask, k % 64);
      if fk == [] && mask == 0 {
        ClearWordBit(words, g);
        ChangeBitmap(segs, words, k, l, mask, words');
        EmptiedSegment(segs, best, side, k, l, words', best');
      } else {
        SameOccupancy(segs, words, best, side, k, l, mask);
      }
    }

    static lemma EmptiedSegment(segs: seq<PriceSegment>, best: nat, side: Side, k: nat, l: PriceLevel,
                                words': seq<Word>, best': nat)
      requires Sized(segs) && BestInv(segs, best, side) && k < 64 * |segs| && |segs[k / 64].levels| == 64
        && |segs| < NO_SEGMENT
      requires segs[k / 64].activeMask != 0
      requires BitmapInv(Put(segs, k, l, 0), words')
      requires if k / 64 == best then SearchResult(words', best', side) else best' == best
      ensures BestInv(Put(segs, k, l, 0), best', side)
    {
      hide Bit;
      var segs' := Put(segs, k, l, 0);
      if k / 64 == best {
        SearchFindsBest(segs', words', best', side);
      }
    }

    static lemma SearchFindsBest(segs: seq<PriceSegment>, words: seq<Word>, r: nat, side: Side)
      requires BitmapInv(segs, words) && SearchResult(words, r, side) && |segs| < NO_SEGMENT
      ensures BestInv(segs, r, side)
    {
      hide Bit;
      forall g | 0 <= g < |segs| && segs[g].activeMask != 0
        ensures r != NO_SEGMENT && AtLeastAsGood(side, r, g)
      {
        assert Bit(words[g / 64], g % 64);
      }
    }

    method RecomputeBest()
      requires occupancy.Length < 0x100_0000_0000
      modifies this`bestSegment
      ensures SearchResult(occupancy[..], bestSegment, side)
    {
      if side == Ask {
        bestSegment := FirstOccupiedSegment();
      } else {
        bestSegment := LastOccupiedSegment();
      }
    }

    method FirstOccupiedSegment() returns (r: nat)
      requires occupancy.Length < 0x100_0000_0000
      ensures SearchResult(occupancy[..], r, Ask)
    {
      hide Bit;
      ghost var words := occupancy[..];
      var wordIndex := 0;
      while wordIndex < occupancy.Length
        invariant wordIndex <= occupancy.Length
        invariant forall g :: 0 <= g < 64 * wordIndex ==> !Bit(words[g / 64], g % 64)
      {
        var word := occupancy[wordIndex];
        if word != 0 {
          r := wordIndex * 64 + CountrZero(word);
          FoundFirst(words, wordIndex);
          return r;
        }
        ZeroHasNoBits();
        wordIndex := wordIndex + 1;
      }
      return NO_SEGMENT;
    }

    method LastOccupiedSegment() returns (r: nat)
      requires occupancy.Length < 0x100_0000_0000
      ensures SearchResult(occupancy[..], r, Bid)
    {
      hide Bit;
      ghost var words := occupancy[..];
      var wordIndex := occupancy.Length;
      while wordIndex > 0
        invariant 0 <= wordIndex <= occupancy.Length
        invariant forall g :: 64 * wordIndex <= g < 64 * |words| ==> !Bit(words[g / 64], g % 64)
      {
        var word := occupancy[wordIndex - 1];
        if word != 0 {
          r := (wordIndex - 1) * 64 + HighestBit(word);
          FoundLast(words, wordIndex - 1);
          return r;
        }
        ZeroHasNoBits();
        wordIndex := wordIndex - 1;
      }
      return NO_SEGMENT;
    }

    // -------------------------------------------------------------- set_remaining

    method SetRemaining(pool: OrderPool, slot: nat, newRemaining: Quantity)
      requires Valid(pool.orders[..]) && newRemaining > 0
      requires slot < pool.orders.Length <= MAX_CAPACITY
      requires var k := LevelOf(pool.orders[slot].price); 0 <= k < |fifos| && slot in fifos[k]
      modifies this, segments, pool.orders
      ensures Valid(pool.orders[..]) && fifos == old(fifos)
      ensures pool.orders[..] == old(pool.orders[..])[slot := old(pool.orders[slot]).(remaining := newRemaining)]
      ensures OnlyLevelChanged(old(pool.orders[..]), pool.orders[..], side, old(pool.orders[slot].price))
      ensures orderCount == old(orderCount)
        && totalQuantity == old(totalQuantity) - old(pool.orders[slot].remaining) + newRemaining
    {
      hide Consistent, SumRemaining, OnlyLevelChanged, Sized, LevelAt, Put, Fifo;
      ghost var o := pool.orders[..];
      ghost var k := LevelOf(pool.orders[slot].price);
      LevelFacts(o, k);
      ghost var f := fifos[k];
      ghost var i := IndexOf(f, slot);
      MemberFacts(o, f, i, side, 64 * baseSegment + k);
      CountFacts(segments[..], fifos, o, k);
      ghost var segs := segments[..];
      ghost var l := SetStores(pool, slot, newRemaining, k);
      SetKeeps(segs, occupancy[..], bestSegment, orderCount, old(totalQuantity), fifos, o, side, baseSegment, k, i,
          newRemaining, l);
    }

    /** The stores of `SetRemaining`: the totals move by the difference. */
    method SetStores(pool: OrderPool, slot: nat, newRemaining: Quantity, ghost k: nat) returns (ghost l: PriceLevel)
      requires slot < pool.orders.Length && k < 64 * segments.Length
      requires k / 64 == pool.orders[slot].price / 64 - baseSegment && k % 64 == pool.orders[slot].price % 64
      requires |segments[k / 64].levels| == 64
      requires totalQuantity >= pool.orders[slot].remaining
        && segments[k / 64].levels[k % 64].totalQuantity >= pool.orders[slot].remaining
      modifies this`totalQuantity, segments, pool.orders
      ensures var l0 := old(segments[k / 64].levels[k % 64]);
              l == l0.(totalQuantity := l0.totalQuantity - old(pool.orders[slot].remaining) + newRemaining)
      ensures segments[..] == Put(old(segments[..]), k, l, old(segments[k / 64]).activeMask)
      ensures totalQuantity == old(totalQuantity) - old(pool.orders[slot].remaining) + newRemaining
      ensures pool.orders[..] == old(pool.orders[..])[slot := old(pool.orders[slot]).(remaining := newRemaining)]
    {
      hide Put;
      var order := pool.orders[slot];
      var segment: nat := order.price / 64 - baseSegment;
      var offset := order.price % 64;
      var level := segments[segment].levels[offset];
      if newRemaining >= order.remaining {
        var increase := newRemaining - order.remaining;
        level := level.(totalQuantity := level.totalQuantity + increase);
        totalQuantity := totalQuantity + increase;
      } else {
        var decrease := order.remaining - newRemaining;
        level := level.(totalQuantity := level.totalQuantity - decrease);
        totalQuantity := totalQuantity - decrease;
      }
      l := level;
      StoreLevel(segment, offset, level, segments[segment].activeMask, k);
      pool.orders[slot] := order.(remaining := newRemaining);
    }

    static lemma SetKeeps(segs: seq<PriceSegment>, words: seq<Word>, best: nat, count: nat, total: nat,
                          f: seq<seq<nat>>, o: seq<Order>, side: Side, base: nat, k: nat, i: nat, r: Quantity,
                            l: PriceLevel)
      requires Consistent(segs, words, best, count, total, f, o, side, base)
      requires k < |f| && k < 64 * |segs| && |segs[k / 64].levels| == 64 && i < |f[k]| && r > 0
      requires forall m :: 0 <= m < |f[k]| ==> f[k][m] < |o|
      requires total >= SumRemaining(o, f[k]) >= o[f[k][i]].remaining
      requires l
        == PriceLevel(LinkOr(f[k], 0, INVALID), Last(f[k]), SumRemaining(o, f[k]) - o[f[k][i]].remaining + r, |f[k]|)
      ensures var o' := o[f[k][i] := o[f[k][i]].(remaining := r)];
              && Consistent(Put(segs, k, l, segs[k / 64].activeMask), words, best, count,
                  total - o[f[k][i]].remaining + r, f, o', side, base)
              && OnlyLevelChanged(o, o', side, 64 * base + k)
    {
      hide LevelInv, LevelsInv, BitmapInv, BestInv, TotalsInv, Bit, Put, SumRemaining;
      LevelsGive(segs, f, o, side, base, k);
      SetLevel(segs, f, o, side, base, k, i, r, l, segs[k / 64].activeMask, count, total);
      ChangeMask(segs, f, k, l, segs[k / 64].activeMask, f[k]);
      assert f[k := f[k]] == f;
      SameOccupancy(segs, words, best, side, k, l, segs[k / 64].activeMask);
    }

    static lemma SetLevel(segs: seq<PriceSegment>, f: seq<seq<nat>>, o: seq<Order>, side: Side, base: nat, k: nat,
                          i: nat, r: Quantity, l: PriceLevel, mask: Word, count: nat, total: nat)
      requires Sized(segs) && LevelsInv(segs, f, o, side, base) && TotalsInv(segs, count, total)
      requires k < |f| && k < 64 * |segs| && |segs[k / 64].levels| == 64 && i < |f[k]| && r > 0
      requires LevelInv(LevelAt(segs, k), f[k], o, side, 64 * base + k)
      requires total >= SumRemaining(o, f[k]) >= o[f[k][i]].remaining
      requires l
        == PriceLevel(LinkOr(f[k], 0, INVALID), Last(f[k]), SumRemaining(o, f[k]) - o[f[k][i]].remaining + r, |f[k]|)
      ensures var o' := o[f[k][i] := o[f[k][i]].(remaining := r)];
              && LevelsInv(Put(segs, k, l, mask), f, o', side, base)
              && TotalsInv(Put(segs, k, l, mask), count, total - o[f[k][i]].remaining + r)
              && OnlyLevelChanged(o, o', side, 64 * base + k)
    {
      hide Fifo, LevelsInv, Put, LevelAt, CountUpTo, QuantityUpTo, SumRemaining, Sized;
      var o' := o[f[k][i] := o[f[k][i]].(remaining := r)];
      MemberFacts(o, f[k], i, side, 64 * base + k);
      SetKeepsFifo(o, f[k], i, r, side, 64 * base + k);
      ChangeLevel(segs, f, o, side, base, k, l, mask, f[k], o');
      assert f[k := f[k]] == f;
      PutCount(segs, k, l, mask, 64 * |segs|);
    }

    // -------------------------------------------------------------- frames

    /** Writing a slot that rests in no FIFO does not concern the side. */
    lemma SlotFrame(o: seq<Order>, o': seq<Order>, slot: nat)
      requires Valid(o) && |o'| == |o|
      requires forall s :: 0 <= s < |o| && s != slot ==> o'[s] == o[s]
      requires forall k :: 0 <= k < |fifos| ==> slot !in fifos[k]
      ensures Valid(o')
    {
      var segs := segments[..];
      forall k | 0 <= k < |fifos|
        ensures LevelInv(LevelAt(segs, k), fifos[k], o', side, 64 * baseSegment + k)
      {
        LevelsGive(segs, fifos, o, side, baseSegment, k);
        FifoFrame(o, o', fifos[k], side, 64 * baseSegment + k);
      }
    }

    /** Neither does a change of a level of the other side. */
    lemma OppositeFrame(o: seq<Order>, o': seq<Order>, price: nat)
      requires Valid(o) && OnlyLevelChanged(o, o', Opposite(side), price)
      ensures Valid(o')
    {
      OtherSideFrame(segments[..], fifos, o, side, baseSegment, o', price);
    }

    /** An order rests in no other FIFO of its side. */
    lemma OnlyInItsFifo(o: seq<Order>, k: nat, slot: nat)
      requires Valid(o) && k < |fifos| && slot in fifos[k]
      ensures NoRepeats(fifos[k])
      ensures forall j :: 0 <= j < |fifos| && j != k ==> slot !in fifos[j]
    {
      LevelsGive(segments[..], fifos, o, side, baseSegment, k);
      var i := IndexOf(fifos[k], slot);
      forall j | 0 <= j < |fifos| && j != k
        ensures slot !in fifos[j]
      {
        LevelsGive(segments[..], fifos, o, side, baseSegment, j);
        DisjointLevels(o, fifos[k], fifos[j], side, 64 * baseSegment + k, side, 64 * baseSegment + j, i);
      }
    }

    /** An order of the other side is in no FIFO of this one. */
    lemma NotOfThisSide(o: seq<Order>, slot: nat)
      requires Valid(o) && slot < |o| && o[slot].side != side
      ensures forall j :: 0 <= j < |fifos| ==> slot !in fifos[j]
    {
      forall j | 0 <= j < |fifos|
        ensures slot !in fifos[j]
      {
        LevelsGive(segments[..], fifos, o, side, baseSegment, j);
        forall i | 0 <= i < |fifos[j]|
          ensures fifos[j][i] != slot
        {
          assert Node(o, fifos[j], i, side, 64 * baseSegment + j);
        }
      }
    }

    // -------------------------------------------------------------- queries

    /** The oldest order at the best price. */
    method BestOrder(ghost o: seq<Order>) returns (slot: nat)
      requires Valid(o) && |o| <= MAX_CAPACITY
      ensures slot == INVALID <==> forall k :: 0 <= k < |fifos| ==> fifos[k] == []
      ensures slot != INVALID ==> exists k: nat :: IsBestLevel(fifos, k, side) && slot == fifos[k][0]
    {
      hide Bit, Fifo;
      if bestSegment == NO_SEGMENT {
        NoBestNoOrders(segments[..], fifos, side);
        return INVALID;
      }
      var segment := segments[bestSegment];
      var offset := BestOffset(segment.activeMask, side);
      ghost var k := 64 * bestSegment + offset;
      BestBitIsBestLevel(segments[..], fifos, bestSegment, side, offset);
      LevelFacts(o, k);
      assert k / 64 == bestSegment && k % 64 == offset;
      slot := segment.levels[offset].head;
      assert slot == fifos[k][0] && slot < |o|;
    }

    /** The lowest (ask) or highest (bid) price at which an order rests, and 0 for an empty side. */
    method BestPrice(ghost o: seq<Order>) returns (price: nat)
      requires Valid(o) && |o| <= MAX_CAPACITY
      ensures if bestSegment == NO_SEGMENT then price == 0 && forall k :: 0 <= k < |fifos| ==> fifos[k] == []
        else exists k: nat :: IsBestLevel(fifos, k, side) && price == 64 * baseSegment + k
    {
      hide Bit, Fifo;
      if bestSegment == NO_SEGMENT {
        NoBestNoOrders(segments[..], fifos, side);
        return 0;
      }
      var segment := segments[bestSegment];
      var offset := BestOffset(segment.activeMask, side);
      BestBitIsBestLevel(segments[..], fifos, bestSegment, side, offset);
      ghost var k := 64 * bestSegment + offset;
      price := (baseSegment + bestSegment) * 64 + offset;
      assert price == 64 * baseSegment + k;
    }
  }

  /** `best_ask_offset` and `best_bid_offset`. */
  function BestOffset(mask: Word, side: Side): (off: nat)
    requires mask != 0
    ensures off < 64 && Bit(mask, off)
    ensures forall j :: 0 <= j < 64 && Bit(mask, j) ==> AtLeastAsGood(side, off, j)
  {
    WordBitInRange(mask, CountrZero(mask));
    WordBitInRange(mask, HighestBit(mask));
    if side == Ask then CountrZero(mask) else HighestBit(mask)
  }

  lemma WordBitInRange(w: Word, i: nat)
    requires Bit(w, i)
    ensures i < 64
  {
    if 64 <= i {
      NoBitAbove(w, 64, i);
    }
  }

  /** The result of searching the bitmap for the best occupied segment. */
  ghost predicate SearchResult(words: seq<Word>, r: nat, side: Side) {
    if r == NO_SEGMENT then
      forall g :: 0 <= g < 64 * |words| ==> !Bit(words[g / 64], g % 64)
    else
      && r < 64 * |words| && Bit(words[r / 64], r % 64)
      && forall g :: 0 <= g < 64 * |words| && Bit(words[g / 64], g % 64) ==> AtLeastAsGood(side, r, g)
  }

  lemma FoundFirst(words: seq<Word>, w: nat)
    requires w < |words| && words[w] != 0 && |words| < 0x100_0000_0000
    requires forall g :: 0 <= g < 64 * w ==> !Bit(words[g / 64], g % 64)
    ensures SearchResult(words, 64 * w + CountrZero(words[w]), Ask)
  {
    hide Bit;
    var i := CountrZero(words[w]);
    WordBitInRange(words[w], i);
    var r := 64 * w + i;
    assert r / 64 == w && r % 64 == i;
    forall g | 0 <= g < 64 * |words| && Bit(words[g / 64], g % 64)
      ensures r <= g
    {
      if g / 64 == w {
        assert !(g % 64 < i);
      }
    }
  }

  lemma FoundLast(words: seq<Word>, w: nat)
    requires w < |words| && words[w] != 0 && |words| < 0x100_0000_0000
    requires forall g :: 64 * (w + 1) <= g < 64 * |words| ==> !Bit(words[g / 64], g % 64)
    ensures SearchResult(words, 64 * w + HighestBit(words[w]), Bid)
  {
    hide Bit;
    var i := HighestBit(words[w]);
    WordBitInRange(words[w], i);
    var r := 64 * w + i;
    assert r / 64 == w && r % 64 == i;
    forall g | 0 <= g < 64 * |words| && Bit(words[g / 64], g % 64)
      ensures g <= r
    {
      if g / 64 == w {
        assert !(i < g % 64);
      }
    }
  }

  /** The levels with one slot taken out of its list. */
  function RemovedFrom(fifos: seq<seq<nat>>, k: nat, slot: nat): seq<seq<nat>>
    requires k < |fifos| && slot in fifos[k]
  {
    fifos[k := Without(fifos[k], IndexOf(fifos[k], slot))]
  }

  function IndexOf(f: seq<nat>, slot: nat): (i: nat)
    requires slot in f
    ensures i < |f| && f[i] == slot
  {
    if f[0] == slot then 0 else IndexOf(f[1..], slot) + 1
  }

  lemma LevelIs(segs: seq<PriceSegment>, fifos: seq<seq<nat>>, o: seq<Order>, side: Side, base: nat, k: nat)
    requires LevelsInv(segs, fifos, o, side, base) && k < 64 * |segs|
    ensures Sized(segs) && |fifos| == 64 * |segs| && |segs[k / 64].levels| == 64
    ensures LevelInv(LevelAt(segs, k), fifos[k], o, side, 64 * base + k)
    ensures forall i :: 0 <= i < |fifos[k]| ==> fifos[k][i] < |o|
    ensures LevelAt(segs, k)
      == PriceLevel(LinkOr(fifos[k], 0, INVALID), Last(fifos[k]), SumRemaining(o, fifos[k]), |fifos[k]|)
  {
    hide Fifo;
  }

  lemma MemberFacts(o: seq<Order>, f: seq<nat>, i: nat, side: Side, price: nat)
    requires Fifo(o, f, side, price) && i < |f| && forall m :: 0 <= m < |f| ==> f[m] < |o|
    ensures NoRepeats(f)
    ensures o[f[i]].inUse && o[f[i]].side == side && o[f[i]].price == price && o[f[i]].remaining > 0
    ensures o[f[i]].prev == PrevOf(f, i) && o[f[i]].next == LinkOr(f, i + 1, INVALID)
    ensures SumRemaining(o, f) >= o[f[i]].remaining
  {
    assert Node(o, f, i, side, price);
    SumSplit(o, f, i);
  }

  /** An order rests at one level only. */
  lemma DisjointLevels(o: seq<Order>, f: seq<nat>, g: seq<nat>, side: Side, price: nat, side': Side, price': nat,
                       i: nat)
    requires Fifo(o, f, side, price) && Fifo(o, g, side', price') && i < |f|
    requires side != side' || price != price'
    ensures f[i] !in g
  {
    assert Node(o, f, i, side, price);
    forall j | 0 <= j < |g|
      ensures g[j] != f[i]
    {
      assert Node(o, g, j, side', price');
    }
  }

  lemma LinksAfterRemoval(f: seq<nat>, i: nat)
    requires i < |f|
    ensures LinkOr(Without(f, i), 0, INVALID) == if i == 0 then LinkOr(f, 1, INVALID) else f[0]
    ensures Last(Without(f, i)) == if i + 1 == |f| then PrevOf(f, i) else f[|f| - 1]
    ensures |Without(f, i)| == |f| - 1
  {
  }
}
