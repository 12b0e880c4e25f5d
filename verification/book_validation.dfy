/** The book's own self-check. Every state of a valid book passes it: none of the branches in
    which the program returns false can be reached. */
module BookValidation {
  import opened BookTypes
  import opened Words
  import opened OrderPools
  import opened OrderIdIndexes
  import opened Fifos
  import opened PriceLevels
  import opened SideBooks
  import opened BookRefinement
  import OrderBooks

  // ---------------------------------------------------------------- one level

  /** Walks one FIFO and checks its links, its orders, its count and its total. */
  method ValidateLevel(side: SideBook, pool: OrderPool, maxOrders: nat, k: nat) returns (count: nat, quantity: nat)
    requires side.Valid(pool.orders[..]) && pool.orders.Length == pool.capacity == maxOrders
      && maxOrders <= MAX_CAPACITY
    requires k < 64 * side.segments.Length
    ensures |side.fifos| == 64 * side.segments.Length && |side.segments[k / 64].levels| == 64
    ensures forall i :: 0 <= i < |side.fifos[k]| ==> side.fifos[k][i] < |pool.orders[..]|
    ensures count == |side.fifos[k]| && quantity == SumRemaining(pool.orders[..], side.fifos[k])
  {
    hide Consistent, SideBook.Shape, SumRemaining;
    ghost var o := pool.orders[..];
    side.LevelFacts(o, k);
    ghost var f, price := side.fifos[k], 64 * side.baseSegment + k;
    ListIsShort(o, f, side.side, price);
    SumOfNone(o);
    var level := side.segments[k / 64].levels[k % 64];
    if level.orderCount == 0 {
      if level.head != INVALID || level.tail != INVALID || level.totalQuantity != 0 {
        assert false;
      }
      return 0, 0;
    }
    NodeAt(o, f, 0, side.side, price);
    NodeAt(o, f, |f| - 1, side.side, price);
    if level.head == INVALID || level.tail == INVALID || !pool.Contains(level.head) || !pool.Contains(level.tail) {
      assert false;
    }
    if pool.orders[level.head].prev != INVALID || pool.orders[level.tail].next != INVALID {
      assert false;
    }
    count, quantity := WalkLevel(side, pool, maxOrders, level.head, k);
    if count != level.orderCount || quantity != level.totalQuantity {
      assert false;
    }
  }

  lemma SumOfNone(o: seq<Order>)
    ensures SumRemaining(o, []) == 0
  {
  }

  lemma ListIsShort(o: seq<Order>, f: seq<nat>, side: Side, price: nat)
    requires Fifo(o, f, side, price) && forall i :: 0 <= i < |f| ==> f[i] < |o|
    ensures |f| <= |o|
  {
    RepeatFreeIsShort(f, |o|);
  }

  method WalkLevel(side: SideBook, pool: OrderPool, maxOrders: nat, head: nat, k: nat)
      returns (count: nat, quantity: nat)
    requires pool.orders.Length == pool.capacity == maxOrders && maxOrders <= MAX_CAPACITY
    requires side.Ranged() && k < |side.fifos| && head == LinkOr(side.fifos[k], 0, INVALID)
    requires Fifo(pool.orders[..], side.fifos[k], side.side, 64 * side.baseSegment + k)
    requires forall i :: 0 <= i < |side.fifos[k]| ==> side.fifos[k][i] < |pool.orders[..]|
    requires |side.fifos[k]| <= maxOrders
    ensures count == |side.fifos[k]| && quantity == SumRemaining(pool.orders[..], side.fifos[k])
  {
    hide Fifo;
    ghost var o, f := pool.orders[..], side.fifos[k];
    var price := 64 * side.baseSegment + k;
    count, quantity := 0, 0;
    var previous: nat, current: nat := INVALID, head;
    SumOfNone(o);
    while current != INVALID
      invariant count <= |f| && current == LinkOr(f, count, INVALID) && previous == PrevOf(f, count)
      invariant quantity == SumRemaining(o, f[..count])
      decreases |f| - count
    {
      NodeAt(o, f, count, side.side, price);
      if !pool.Contains(current) {
        assert false;
      }
      var order := pool.orders[current];
      if order.remaining == 0 || order.price < side.minPrice || order.price > side.maxPrice || order.side != side.side
        || order.prev != previous {
        assert false;
      }
      if order.price != price {
        assert false;
      }
      LastOfSum(o, f[..count], current, f[..count + 1]);
      previous := current;
      count := count + 1;
      quantity := quantity + order.remaining;
      if count > maxOrders {
        assert false;
      }
      current := order.next;
    }
    assert f[..count] == f;
    if previous != Last(f) {
      assert false;
    }
  }

  // ---------------------------------------------------------------- one side

  /** The best price among the first `k` levels. */
  ghost predicate BestBelow(fifos: seq<seq<nat>>, k: nat, side: Side, base: nat, found: bool, price: nat) {
    k <= |fifos|
    && if found then exists j: nat :: j < k && IsBestOf(fifos, k, j, side) && price == 64 * base + j
       else forall i :: 0 <= i < k ==> fifos[i] == []
  }

  ghost predicate IsBestOf(fifos: seq<seq<nat>>, k: nat, j: nat, side: Side) {
    j < k <= |fifos| && fifos[j] != [] && forall i :: 0 <= i < k && fifos[i] != [] ==> AtLeastAsGood(side, j, i)
  }

  /** The comparison of the program with each active level's price. */
  predicate Improves(side: Side, found: bool, best: nat, price: nat) {
    !found || (if side == Ask then price < best else price > best)
  }

  lemma BestStep(fifos: seq<seq<nat>>, k: nat, side: Side, base: nat, found: bool, best: nat)
    requires k < |fifos| && BestBelow(fifos, k, side, base, found, best)
    ensures BestBelow(fifos, k + 1, side, base, found || fifos[k] != [],
                      if fifos[k] != [] && Improves(side, found, best, 64 * base + k) then 64 * base + k else best)
  {
    if found {
      var j: nat :| j < k && IsBestOf(fifos, k, j, side) && best == 64 * base + j;
      if fifos[k] != [] && Improves(side, found, best, 64 * base + k) {
        assert IsBestOf(fifos, k + 1, k, side);
      } else {
        assert IsBestOf(fifos, k + 1, j, side);
      }
    } else if fifos[k] != [] {
      assert IsBestOf(fifos, k + 1, k, side);
    }
  }

  lemma BestIsUnique(fifos: seq<seq<nat>>, side: Side, base: nat, best: nat, k: nat, price: nat)
    requires BestBelow(fifos, |fifos|, side, base, true, best)
    requires IsBestLevel(fifos, k, side) && price == 64 * base + k
    ensures best == price
  {
    var j: nat :| j < |fifos| && IsBestOf(fifos, |fifos|, j, side) && best == 64 * base + j;
    assert AtLeastAsGood(side, j, k) && AtLeastAsGood(side, k, j);
  }

  /** The mask built from the first `offset` levels of segment `g`. */
  ghost predicate MaskBelow(mask: Word, fifos: seq<seq<nat>>, g: nat, offset: nat) {
    64 * g + 64 <= |fifos| && offset <= 64 && forall j: nat :: Bit(mask, j) <==> j < offset && fifos[64 * g + j] != []
  }

  lemma MaskStart(fifos: seq<seq<nat>>, g: nat)
    requires 64 * g + 64 <= |fifos|
    ensures MaskBelow(0, fifos, g, 0)
  {
    ZeroHasNoBits();
  }

  lemma MaskStep(mask: Word, fifos: seq<seq<nat>>, g: nat, offset: nat)
    requires MaskBelow(mask, fifos, g, offset) && offset < 64
    ensures MaskBelow(if fifos[64 * g + offset] != [] then WithBit(mask, offset) else mask, fifos, g, offset + 1)
  {
    hide Bit;
  }

  lemma MaskIsActive(mask: Word, segs: seq<PriceSegment>, fifos: seq<seq<nat>>, g: nat)
    requires MasksInv(segs, fifos) && g < |segs| && MaskBelow(mask, fifos, g, 64)
    ensures mask == segs[g].activeMask
  {
    forall i: nat | i < 64
      ensures Bit(mask, i) <==> Bit(segs[g].activeMask, i)
    {
      var k := 64 * g + i;
      assert k / 64 == g && k % 64 == i;
    }
    SameBits(mask, segs[g].activeMask, 64);
  }

  /** What has been counted over the first `k` levels. */
  datatype Tally = Tally(count: nat, quantity: nat, found: bool, best: nat)

  ghost predicate Tallied(segs: seq<PriceSegment>, fifos: seq<seq<nat>>, side: Side, base: nat, k: nat, t: Tally) {
    && Sized(segs) && k <= 64 * |segs| == |fifos|
    && t.count == CountUpTo(segs, k) && t.quantity == QuantityUpTo(segs, k)
    && BestBelow(fifos, k, side, base, t.found, t.best)
  }

  lemma TallyStep(segs: seq<PriceSegment>, fifos: seq<seq<nat>>, side: Side, base: nat, k: nat, t: Tally, count: nat,
                  quantity: nat)
    requires Tallied(segs, fifos, side, base, k, t) && k < |fifos|
    requires LevelAt(segs, k).orderCount == count == |fifos[k]| && LevelAt(segs, k).totalQuantity == quantity
    ensures Tallied(segs, fifos, side, base, k + 1,
                    Tally(t.count + count, t.quantity + quantity, t.found || count != 0,
                          if count != 0 && Improves(side, t.found, t.best, 64 * base + k) then 64 * base + k
                          else t.best))
  {
    BestStep(fifos, k, side, base, t.found, t.best);
  }

  /** Checks the levels, the mask and the bitmap bit of one segment. */
  method ValidateSegment(side: SideBook, pool: OrderPool, maxOrders: nat, g: nat, t: Tally) returns (t': Tally)
    requires side.Valid(pool.orders[..]) && pool.orders.Length == pool.capacity == maxOrders
      && maxOrders <= MAX_CAPACITY
    requires g < side.segments.Length
    requires Tallied(side.segments[..], side.fifos, side.side, side.baseSegment, 64 * g, t)
    ensures Tallied(side.segments[..], side.fifos, side.side, side.baseSegment, 64 * (g + 1), t')
  {
    hide SideBook.Valid, Tallied, MaskBelow, Bit, LevelInv, Sized, LevelAt;
    side.LevelFacts(pool.orders[..], 64 * g);
    t' := t;
    var mask: Word := 0;
    MaskStart(side.fifos, g);
    for offset := 0 to 64
      invariant Tallied(side.segments[..], side.fifos, side.side, side.baseSegment, 64 * g + offset, t')
      invariant MaskBelow(mask, side.fifos, g, offset)
    {
      var k := 64 * g + offset;
      side.LevelFacts(pool.orders[..], k);
      var count, quantity := ValidateLevel(side, pool, maxOrders, k);
      MaskStep(mask, side.fifos, g, offset);
      TallyStep(side.segments[..], side.fifos, side.side, side.baseSegment, k, t', count, quantity);
      if count != 0 {
        mask := WithBit(mask, offset);
      }
      var price := 64 * side.baseSegment + k;
      t' := Tally(t'.count + count, t'.quantity + quantity, t'.found || count != 0,
                  if count != 0 && Improves(side.side, t'.found, t'.best, price) then price else t'.best);
    }
    SegmentAgrees(side, pool.orders[..], g, mask);
    if side.segments[g].activeMask != mask {
      assert false;
    }
    if Bit(side.occupancy[g / 64], g % 64) != (side.segments[g].activeMask != 0) {
      assert false;
    }
  }

  lemma SegmentAgrees(side: SideBook, o: seq<Order>, g: nat, mask: Word)
    requires side.Valid(o) && g < side.segments.Length && MaskBelow(mask, side.fifos, g, 64)
    ensures side.segments[g].activeMask == mask && g / 64 < side.occupancy.Length
    ensures Bit(side.occupancy[g / 64], g % 64) <==> side.segments[g].activeMask != 0
  {
    hide Bit, LevelsInv, TotalsInv, BestInv;
    MaskIsActive(mask, side.segments[..], side.fifos, g);
    assert g < 64 * |side.occupancy[..]|;
  }

  /** Checks one side; the program's `false` branches are the ones shown unreachable. */
  method ValidateSide(side: SideBook, pool: OrderPool, maxOrders: nat) returns (ok: bool)
    requires side.Valid(pool.orders[..]) && pool.orders.Length == pool.capacity == maxOrders
      && maxOrders <= MAX_CAPACITY
    ensures ok
  {
    hide SideBook.Valid, Tallied, Bit;
    var t := Tally(0, 0, false, 0);
    TallyStart(side, pool.orders[..]);
    for g := 0 to side.segments.Length
      invariant Tallied(side.segments[..], side.fifos, side.side, side.baseSegment, 64 * g, t)
    {
      t := ValidateSegment(side, pool, maxOrders, g, t);
    }
    SideAgrees(side, pool.orders[..], t);
    if side.occupancy.Length != (side.segments.Length + 63) / 64 {
      assert false;
    }
    if side.occupancy.Length != 0 && side.segments.Length % 64 != 0 {
      NoStrayBits(side, pool.orders[..]);
      if side.occupancy[side.occupancy.Length - 1] >= Pow2(side.segments.Length % 64) {
        assert false;
      }
    }
    if t.count != side.orderCount || t.quantity != side.totalQuantity {
      assert false;
    }
    if side.orderCount == 0 {
      if side.bestSegment != NO_SEGMENT {
        assert false;
      }
    } else if side.bestSegment >= side.segments.Length || side.segments[side.bestSegment].activeMask == 0 {
      assert false;
    }
    if t.found != (side.orderCount != 0) {
      assert false;
    }
    if t.found {
      var price := side.BestPrice(pool.orders[..]);
      ghost var k: nat :| IsBestLevel(side.fifos, k, side.side) && price == 64 * side.baseSegment + k;
      BestAgrees(side, pool.orders[..], t, k, price);
      if price != t.best {
        assert false;
      }
    }
    return true;
  }

  lemma TallyStart(side: SideBook, o: seq<Order>)
    requires side.Valid(o)
    ensures Tallied(side.segments[..], side.fifos, side.side, side.baseSegment, 0, Tally(0, 0, false, 0))
  {
    hide Bit, LevelInv;
  }

  lemma BestAgrees(side: SideBook, o: seq<Order>, t: Tally, k: nat, price: nat)
    requires Tallied(side.segments[..], side.fifos, side.side, side.baseSegment, 64 * side.segments.Length, t)
      && t.found
    requires IsBestLevel(side.fifos, k, side.side) && price == 64 * side.baseSegment + k
    ensures price == t.best
  {
    hide CountUpTo, QuantityUpTo;
    BestIsUnique(side.fifos, side.side, side.baseSegment, t.best, k, price);
  }

  /** What is counted over all levels is what the side says of itself. */
  lemma SideAgrees(side: SideBook, o: seq<Order>, t: Tally)
    requires side.Valid(o)
    requires Tallied(side.segments[..], side.fifos, side.side, side.baseSegment, 64 * side.segments.Length, t)
    ensures side.occupancy.Length == (side.segments.Length + 63) / 64
    ensures t.count == side.orderCount && t.quantity == side.totalQuantity
    ensures side.orderCount == 0 <==> side.bestSegment == NO_SEGMENT
    ensures side.bestSegment != NO_SEGMENT ==>
      side.bestSegment < side.segments.Length && side.segments[side.bestSegment].activeMask != 0
    ensures t.found <==> side.orderCount != 0
  {
    hide Bit, Fifo, SumRemaining, MasksInv, BitmapInv;
    OccupiedSide(side, o);
    if t.found {
      var j: nat :| j < |side.fifos| && IsBestOf(side.fifos, |side.fifos|, j, side.side)
        && t.best == 64 * side.baseSegment + j;
      side.LevelFacts(o, j);
      CountIsPositive(side.segments[..], j, |side.fifos|);
    } else {
      AllEmpty(side, o);
    }
  }

  lemma AllEmpty(side: SideBook, o: seq<Order>)
    requires side.Valid(o) && forall i :: 0 <= i < |side.fifos| ==> side.fifos[i] == []
    ensures side.orderCount == 0 && side.bestSegment == NO_SEGMENT
  {
    hide Bit, Fifo;
    var segs := side.segments[..];
    forall k | 0 <= k < 64 * |segs|
      ensures LevelAt(segs, k) == EMPTY_LEVEL
    {
      side.LevelFacts(o, k);
    }
    EmptyLevelsSum(segs, 64 * |segs|);
    if side.bestSegment != NO_SEGMENT {
      var offset := BestOffset(segs[side.bestSegment].activeMask, side.side);
      BestBitIsBestLevel(segs, side.fifos, side.bestSegment, side.side, offset);
    }
  }

  lemma OccupiedSide(side: SideBook, o: seq<Order>)
    requires side.Valid(o)
    ensures side.bestSegment == NO_SEGMENT ==> side.orderCount == 0
    ensures side.bestSegment != NO_SEGMENT ==>
      side.bestSegment < side.segments.Length && side.segments[side.bestSegment].activeMask != 0
  {
    hide Bit, Fifo;
    if side.bestSegment == NO_SEGMENT {
      NoBestNoOrders(side.segments[..], side.fifos, side.side);
      AllEmpty(side, o);
    }
  }

  /** The last bitmap word has no bit beyond the last segment. */
  lemma NoStrayBits(side: SideBook, o: seq<Order>)
    requires side.Valid(o) && side.occupancy.Length != 0 && side.segments.Length % 64 != 0
    ensures side.occupancy[side.occupancy.Length - 1] < Pow2(side.segments.Length % 64)
  {
    hide Bit, LevelsInv, TotalsInv, BestInv, MasksInv;
    var words, segs := side.occupancy[..], side.segments[..];
    var w, used := |words| - 1, |segs| % 64;
    forall i: nat | used <= i
      ensures !Bit(words[w], i)
    {
      if i < 64 {
        var g := 64 * w + i;
        assert g / 64 == w && g % 64 == i && g >= |segs|;
      } else {
        NoBitAbove(words[w], 64, i);
      }
    }
    FewBits(words[w], used);
  }

  // ---------------------------------------------------------------- the whole book

  /** The slots marked when the levels of the sides in `sides`, and of `side` those below `k` and
      of level `k` the first `i` orders, have been walked. */
  ghost predicate Marks(seen: seq<nat>, o: seq<Order>, done: set<Side>, side: Side, base: nat, k: nat, f: seq<nat>,
                        i: nat) {
    && |seen| == |o| && i <= |f|
    && forall s :: 0 <= s < |o| ==>
         seen[s] == if o[s].inUse
           && (o[s].side in done || (o[s].side == side && (o[s].price < 64 * base + k || s in f[..i]))) then 1 else 0
  }

  lemma MarkOne(seen: seq<nat>, o: seq<Order>, done: set<Side>, side: Side, base: nat, k: nat, f: seq<nat>, i: nat)
    requires Marks(seen, o, done, side, base, k, f, i) && side !in done && i < |f|
    requires Fifo(o, f, side, 64 * base + k)
    ensures f[i] < |o| && o[f[i]].inUse && seen[f[i]] == 0
    ensures Marks(seen[f[i] := seen[f[i]] + 1], o, done, side, base, k, f, i + 1)
  {
    NodeAt(o, f, i, side, 64 * base + k);
    assert f[..i + 1] == f[..i] + [f[i]];
    assert f[i] !in f[..i];
  }

  /** A whole level has been walked. */
  lemma MarkLevel(seen: seq<nat>, o: seq<Order>, done: set<Side>, side: Side, base: nat, k: nat, f: seq<nat>,
                  g: seq<nat>)
    requires Marks(seen, o, done, side, base, k, f, |f|) && side !in done
    requires Fifo(o, f, side, 64 * base + k)
    requires forall s :: 0 <= s < |o| && o[s].inUse && o[s].side == side && o[s].price == 64 * base + k ==> s in f
    ensures Marks(seen, o, done, side, base, k + 1, g, 0)
  {
    assert f[..|f|] == f && g[..0] == [];
    forall s | 0 <= s < |o| && s in f
      ensures o[s].price == 64 * base + k
    {
      var i :| 0 <= i < |f| && f[i] == s;
      NodeAt(o, f, i, side, 64 * base + k);
    }
  }

  /** Marks every order of one side, once. */
  method MarkSide(side: SideBook, pool: OrderPool, maxOrders: nat, seen: array<nat>, ghost done: set<Side>)
    requires side.Valid(pool.orders[..]) && pool.orders.Length == pool.capacity == seen.Length == maxOrders
      && pool.capacity <= MAX_CAPACITY
    requires Resting(pool.orders[..], side.fifos, side.side, side.baseSegment)
    requires side.side !in done && Marks(seen[..], pool.orders[..], done, side.side, side.baseSegment, 0, [], 0)
    requires seen as object != side.segments && seen as object != side.occupancy && seen as object != pool.orders
    requires forall s ::
      0 <= s < pool.orders.Length && pool.orders[s].inUse ==> pool.orders[s].price >= 64 * side.baseSegment
    modifies seen
    ensures forall s :: 0 <= s < seen.Length ==>
              seen[s] == if pool.orders[s].inUse && pool.orders[s].side in done + {side.side} then 1 else 0
  {
    hide SideBook.Valid, Marks, Consistent, LevelInv, Fifo;
    ghost var o, base := pool.orders[..], side.baseSegment;
    ghost var none: seq<nat> := [];
    for k := 0 to 64 * side.segments.Length
      invariant Marks(seen[..], o, done, side.side, base, k, none, 0)
    {
      side.LevelFacts(o, k);
      ghost var f := side.fifos[k];
      ListIsFifo(o, f, side, k);
      StartLevel(seen[..], o, done, side.side, base, k, none, f);
      var current: nat := side.segments[k / 64].levels[k % 64].head;
      ListFits(o, f, side, k);
      var steps := 0;
      ghost var i := 0;
      while current != INVALID
        invariant i <= |f| && current == LinkOr(f, i, INVALID) && steps == i
        invariant Marks(seen[..], o, done, side.side, base, k, f, i)
        decreases |f| - i
      {
        MarkOne(seen[..], o, done, side.side, base, k, f, i);
        NodeAt(o, f, i, side.side, 64 * base + k);
        if !pool.Contains(current) || steps >= maxOrders {
          assert false;
        }
        steps := steps + 1;
        ghost var before := seen[..];
        seen[current] := seen[current] + 1;
        assert seen[..] == before[f[i] := before[f[i]] + 1];
        i := i + 1;
        current := pool.orders[current].next;
      }
      LevelComplete(o, side, k);
      MarkLevel(seen[..], o, done, side.side, base, k, f, none);
    }
    SideComplete(seen[..], o, done, side);
  }

  lemma ListFits(o: seq<Order>, f: seq<nat>, side: SideBook, k: nat)
    requires side.Valid(o) && k < 64 * side.segments.Length && k < |side.fifos| && f == side.fifos[k]
    ensures |f| <= |o|
  {
    hide Consistent;
    side.LevelFacts(o, k);
    ListIsShort(o, f, side.side, 64 * side.baseSegment + k);
  }

  lemma ListIsFifo(o: seq<Order>, f: seq<nat>, side: SideBook, k: nat)
    requires side.Valid(o) && k < 64 * side.segments.Length && k < |side.fifos| && f == side.fifos[k]
    ensures Fifo(o, f, side.side, 64 * side.baseSegment + k)
  {
    hide Consistent;
    side.LevelFacts(o, k);
  }

  lemma StartLevel(seen: seq<nat>, o: seq<Order>, done: set<Side>, side: Side, base: nat, k: nat, f: seq<nat>,
                   g: seq<nat>)
    requires Marks(seen, o, done, side, base, k, f, 0)
    ensures Marks(seen, o, done, side, base, k, g, 0)
  {
    assert f[..0] == g[..0];
  }

  lemma LevelComplete(o: seq<Order>, side: SideBook, k: nat)
    requires Resting(o, side.fifos, side.side, side.baseSegment) && k < |side.fifos|
    ensures forall s ::
      0 <= s < |o| && o[s].inUse && o[s].side == side.side && o[s].price == 64 * side.baseSegment + k ==>
        s in side.fifos[k]
  {
  }

  lemma SideComplete(seen: seq<nat>, o: seq<Order>, done: set<Side>, side: SideBook)
    requires side.Valid(o) && Resting(o, side.fifos, side.side, side.baseSegment)
    requires Marks(seen, o, done, side.side, side.baseSegment, 64 * side.segments.Length, [], 0)
    ensures |seen| == |o| && forall s ::
      0 <= s < |o| ==> seen[s] == if o[s].inUse && o[s].side in done + {side.side} then 1 else 0
  {
    hide LevelInv, MasksInv, BitmapInv, BestInv, TotalsInv;
    assert |side.fifos| == 64 * side.segments.Length;
  }

  /** The number of slots in use. */
  function UsedUpTo(o: seq<Order>, n: nat): nat
    requires n <= |o|
  {
    if n == 0 then 0 else UsedUpTo(o, n - 1) + (if o[n - 1].inUse then 1 else 0)
  }

  /** The free slots below `n`. */
  ghost function FreeBelow(o: seq<Order>, n: nat): set<nat>
    requires n <= |o|
  {
    set s | 0 <= s < n && !o[s].inUse
  }

  lemma {:induction false} UsedAndFree(o: seq<Order>, n: nat)
    requires n <= |o|
    ensures UsedUpTo(o, n) + |FreeBelow(o, n)| == n
  {
    if n > 0 {
      UsedAndFree(o, n - 1);
      if o[n - 1].inUse {
        assert FreeBelow(o, n) == FreeBelow(o, n - 1);
      } else {
        assert FreeBelow(o, n) == FreeBelow(o, n - 1) + {n - 1};
      }
    } else {
      assert FreeBelow(o, 0) == {};
    }
  }

  ghost function Members(s: seq<nat>): set<nat> {
    set x | x in s
  }

  lemma MembersSnoc(init: seq<nat>, x: nat)
    ensures Members(init + [x]) == Members(init) + {x}
  {
    forall y | y in Members(init) + {x}
      ensures y in Members(init + [x])
    {
      if y == x {
        assert (init + [x])[|init|] == x;
      }
    }
  }

  /** The members of a repeat-free list are as many as it is long. */
  lemma {:induction false} MembersCount(s: seq<nat>)
    requires NoRepeats(s)
    ensures |Members(s)| == |s|
  {
    if s != [] {
      var init, x := s[..|s| - 1], s[|s| - 1];
      MembersCount(init);
      assert s == init + [x] && x !in init;
      MembersSnoc(init, x);
    }
  }

  /** The slots in use are the capacity without the freelist. */
  lemma UsedCount(o: seq<Order>, freeHead: nat, freeCount: nat, free: seq<nat>)
    requires FreeList(o, freeHead, freeCount, free)
    ensures UsedUpTo(o, |o|) + freeCount == |o|
  {
    UsedAndFree(o, |o|);
    MembersCount(free);
    assert FreeBelow(o, |o|) == Members(free);
  }

  /** The self-check of the whole book. It passes in every state of a valid book. */
  method ValidateInvariants(book: OrderBooks.OrderBook) returns (ok: bool)
    requires book.Valid()
    ensures ok
  {
    hide OrderBooks.OrderBook.Valid, SideBook.Valid, OrderPool.Valid, OrderIdIndex.Valid;
    BookFacts(book);
    assert forall x :: x in book.Repr() ==> allocated(x);
    var freelist := ValidFreelist(book);
    var bids := ValidateSide(book.bids, book.pool, book.config.maxOrders);
    var asks := ValidateSide(book.asks, book.pool, book.config.maxOrders);
    if book.index.size != book.bids.orderCount + book.asks.orderCount {
      assert false;
    }
    var seen := MarkBook(book);
    CheckSlots(book, seen);
    CheckBuckets(book);
    ok := freelist && bids && asks;
  }

  /** What validity says, for the parts of the check. */
  lemma BookFacts(book: OrderBooks.OrderBook)
    requires book.Valid()
    ensures book.Shape() && book.pool.Valid() && book.index.Valid()
    ensures book.bids.Valid(book.pool.orders[..]) && book.asks.Valid(book.pool.orders[..])
    ensures book.pool.orders.Length == book.pool.capacity == book.config.maxOrders <= MAX_CAPACITY
    ensures Indexed(book.pool.orders[..], book.index.contents)
    ensures Resting(book.pool.orders[..], book.bids.fifos, Bid, book.bids.baseSegment)
    ensures Resting(book.pool.orders[..], book.asks.fifos, Ask, book.asks.baseSegment)
    ensures book.index.size == book.bids.orderCount + book.asks.orderCount
    ensures book.bids.orderCount + book.asks.orderCount + book.pool.freeCount == book.pool.capacity
  {
    hide SideBook.Valid, FreeList, TableInv, LevelsRefine;
    BaseFacts(book);
  }

  lemma BaseFacts(book: OrderBooks.OrderBook)
    requires book.Shape() && book.bids.Valid(book.pool.orders[..]) && book.asks.Valid(book.pool.orders[..])
    ensures book.bids.baseSegment == book.asks.baseSegment
  {
    hide Consistent;
  }

  method ValidFreelist(book: OrderBooks.OrderBook) returns (ok: bool)
    requires book.pool.Valid()
    ensures ok
  {
    hide FreeList;
    var pool := book.pool;
    assert FreeList(pool.orders[..], pool.freeHead, pool.freeCount, pool.free);
    ok := pool.ValidateFreelist();
    assert FreeList(pool.orders[..], pool.freeHead, pool.freeCount, pool.free);
  }

  /** Counts, for every slot, the FIFO positions that hold it: one if it is in use, else none. */
  method MarkBook(book: OrderBooks.OrderBook) returns (seen: array<nat>)
    requires book.Valid()
    ensures fresh(seen) && seen.Length == book.pool.capacity == book.pool.orders.Length
    ensures forall s :: 0 <= s < seen.Length ==> seen[s] == if book.pool.orders[s].inUse then 1 else 0
  {
    hide OrderBooks.OrderBook.Valid, SideBook.Valid, OrderPool.Valid, OrderIdIndex.Valid, Resting, Indexed;
    BookFacts(book);
    AboveBase(book);
    seen := new nat[book.pool.capacity](_ => 0);
    MarkSide(book.bids, book.pool, book.config.maxOrders, seen, {});
    MarkSide(book.asks, book.pool, book.config.maxOrders, seen, {Bid});
    forall s | 0 <= s < seen.Length
      ensures seen[s] == if book.pool.orders[s].inUse then 1 else 0
    {
      var side := book.pool.orders[s].side;
      assert side == Bid || side == Ask;
      assert side in {Bid} + {Ask};
    }
  }

  lemma AboveBase(book: OrderBooks.OrderBook)
    requires book.Valid()
    ensures var o := book.pool.orders;
            forall s ::
              0 <= s < o.Length && o[s].inUse ==>
                o[s].price >= 64 * book.bids.baseSegment && o[s].price >= 64 * book.asks.baseSegment
  {
    hide OrderBooks.OrderBook.Valid, SideBook.Valid, OrderPool.Valid, OrderIdIndex.Valid, Indexed;
    BookFacts(book);
    BaseFacts(book);
    var o := book.pool.orders[..];
    forall s | 0 <= s < |o| && o[s].inUse
      ensures o[s].price >= 64 * book.bids.baseSegment
    {
      assert o[s].side == Bid || o[s].side == Ask;
    }
  }

  /** Every slot in use is in one FIFO and under its id in the index; every other slot in none. */
  method CheckSlots(book: OrderBooks.OrderBook, seen: array<nat>)
    requires book.Valid() && seen.Length == book.pool.capacity == book.pool.orders.Length
    requires forall s :: 0 <= s < seen.Length ==> seen[s] == if book.pool.orders[s].inUse then 1 else 0
  {
    hide OrderBooks.OrderBook.Valid, SideBook.Valid, OrderIdIndex.Valid, FreeList, Resting;
    BookFacts(book);
    ghost var o := book.pool.orders[..];
    UsedCount(o, book.pool.freeHead, book.pool.freeCount, book.pool.free);
    var count := 0;
    for slot := 0 to seen.Length
      invariant count == UsedUpTo(o, slot)
    {
      if seen[slot] > 1 {
        assert false;
      }
      if seen[slot] == 1 {
        count := count + 1;
      }
    }
    if count != book.bids.orderCount + book.asks.orderCount {
      assert false;
    }
    for slot := 0 to seen.Length {
      if book.pool.Contains(slot) {
        if seen[slot] != 1 {
          assert false;
        }
        var found := book.index.Find(book.pool.orders[slot].id);
        assert o[slot].inUse;
        if found != slot {
          assert false;
        }
      } else if seen[slot] != 0 {
        assert false;
      }
    }
  }

  /** Every entry of the index names a slot in use that holds its id. */
  method CheckBuckets(book: OrderBooks.OrderBook)
    requires book.Valid()
  {
    hide OrderBooks.OrderBook.Valid, SideBook.Valid, Resting;
    BookFacts(book);
    ghost var b := book.index.buckets[..];
    for p := 0 to book.index.buckets.Length {
      var bucket := book.index.buckets[p];
      if bucket.Occupied? {
        assert b[p].Occupied?;
        assert book.index.contents[bucket.id] == bucket.slot;
        if !book.pool.Contains(bucket.slot) || book.pool.orders[bucket.slot].id != bucket.id {
          assert false;
        }
      }
    }
  }

  // ---------------------------------------------------------------- structural soundness

  ghost function SideOf(book: OrderBooks.OrderBook, side: Side): SideBook {
    if side == Bid then book.bids else book.asks
  }

  /** Slot `s` is in the FIFO of level `k` of `side`. */
  ghost predicate RestsAt(book: OrderBooks.OrderBook, s: nat, side: Side, k: nat)
    reads book.bids, book.asks
  {
    k < |SideOf(book, side).fifos| && s in SideOf(book, side).fifos[k]
  }

  /** Every slot has exactly one place: a slot in use is in one FIFO, that of its side and price,
      and under its id in the index; any other slot is on the freelist and in no FIFO. */
  lemma SlotHasOnePlace(book: OrderBooks.OrderBook, s: nat)
    requires book.Valid() && s < book.pool.orders.Length
    ensures var x, base := book.pool.orders[s], book.bids.baseSegment;
      if x.inUse then
        && s !in book.pool.free && x.id in book.index.contents && book.index.contents[x.id] == s
        && 0 <= x.price - 64 * base && RestsAt(book, s, x.side, x.price - 64 * base)
        && forall side, k :: RestsAt(book, s, side, k) ==> side == x.side && k == x.price - 64 * base
      else
        s in book.pool.free && forall side, k :: !RestsAt(book, s, side, k)
  {
    hide OrderBooks.OrderBook.Valid, SideBook.Valid, OrderIdIndex.Valid;
    BookFacts(book);
    BaseFacts(book);
    var o := book.pool.orders[..];
    if s in book.pool.free {
      var i :| 0 <= i < |book.pool.free| && book.pool.free[i] == s;
      assert !o[s].inUse;
    }
    forall side: Side, k: nat | RestsAt(book, s, side, k)
      ensures o[s].inUse && side == o[s].side && k == o[s].price - 64 * book.bids.baseSegment
    {
      InItsFifo(SideOf(book, side), o, k, s);
    }
  }

  lemma InItsFifo(side: SideBook, o: seq<Order>, k: nat, s: nat)
    requires side.Valid(o) && k < |side.fifos| && s in side.fifos[k] && s < |o|
    ensures o[s].inUse && o[s].side == side.side && o[s].price == 64 * side.baseSegment + k
  {
    hide Consistent, SideBook.Valid;
    FifoCount(side, o);
    side.LevelFacts(o, k);
    var i :| 0 <= i < |side.fifos[k]| && side.fifos[k][i] == s;
    NodeAt(o, side.fifos[k], i, side.side, 64 * side.baseSegment + k);
  }

  lemma FifoCount(side: SideBook, o: seq<Order>)
    requires side.Valid(o)
    ensures |side.fifos| == 64 * side.segments.Length
  {
    hide LevelInv, MasksInv, BitmapInv, BestInv, TotalsInv;
  }

  /** The total of level `k` is the exact sum over its FIFO. */
  ghost predicate ExactTotal(sb: SideBook, o: seq<Order>, k: nat)
    reads sb, sb.segments
  {
    && Sized(sb.segments[..]) && k < 64 * |sb.segments[..]| && k < |sb.fifos|
    && (forall i :: 0 <= i < |sb.fifos[k]| ==> sb.fifos[k][i] < |o|)
    && LevelAt(sb.segments[..], k).totalQuantity == SumRemaining(o, sb.fifos[k])
  }

  lemma TotalsAreExact(book: OrderBooks.OrderBook, side: Side, k: nat)
    requires book.Valid() && k < 64 * SideOf(book, side).segments.Length
    ensures ExactTotal(SideOf(book, side), book.pool.orders[..], k)
  {
    hide OrderBooks.OrderBook.Valid, OrderIdIndex.Valid, FreeList, SideBook.Valid, SumRemaining, LevelAt;
    BookFacts(book);
    SideOf(book, side).LevelFacts(book.pool.orders[..], k);
  }

  /** A side total is the sum of its level totals, and never overflows 64 bits. */
  lemma TotalsFit(book: OrderBooks.OrderBook, side: Side)
    requires book.Valid()
    ensures var sb := SideOf(book, side);
      && Sized(sb.segments[..]) && sb.totalQuantity == QuantityUpTo(sb.segments[..], 64 * |sb.segments[..]|)
      && sb.totalQuantity <= MAX_CAPACITY * 0xFFFF_FFFF < 0x1_0000_0000_0000_0000
  {
    hide OrderBooks.OrderBook.Valid, OrderIdIndex.Valid, FreeList, MasksInv, BitmapInv, BestInv, Fifo;
    BookFacts(book);
    var sb := SideOf(book, side);
    TotalFits(sb.segments[..], sb.fifos, book.pool.orders[..], sb.side, sb.baseSegment, |sb.fifos|);
  }
}
