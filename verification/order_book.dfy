/** The resting-order book: pool, index and two sides behind one facade. Every method is
    proved against the reference book `model`. */
module OrderBooks {
  import opened BookTypes
  import opened OrderPools
  import opened OrderIdIndexes
  import opened PriceLevels
  import opened SideBooks
  import opened BookRefinement
  import Fifos
  import R = ReferenceBooks
  import Q = BookQueues
  import BookSnapshots

  class OrderBook {
    const config: Config
    const pool: OrderPool
    const index: OrderIdIndex
    const bids: SideBook
    const asks: SideBook
    ghost var model: R.Book

    ghost function Repr(): set<object> {
      {this, pool, pool.orders, index, index.buckets, bids, bids.segments, bids.occupancy, asks, asks.segments,
          asks.occupancy}
    }

    /** The parts are separate objects, sized for the configuration. */
    ghost predicate Shape() {
      && config.maxOrders == pool.capacity <= MAX_CAPACITY
      && index.buckets.Length > pool.capacity
      && bids.side == Bid && asks.side == Ask && bids != asks
      && bids.minPrice == asks.minPrice == config.minPrice && bids.maxPrice == asks.maxPrice == config.maxPrice
      && bids.segments != asks.segments && bids.occupancy != asks.occupancy
      && bids.segments as object != asks.occupancy && asks.segments as object != bids.occupancy
      && pool.orders as object != index.buckets && pool.orders as object != bids.segments
      && pool.orders as object != bids.occupancy
      && pool.orders as object != asks.segments && pool.orders as object != asks.occupancy
      && index.buckets as object != bids.segments && index.buckets as object != bids.occupancy
      && index.buckets as object != asks.segments && index.buckets as object != asks.occupancy
    }

    ghost predicate Valid()
      reads this, Repr()
    {
      && Shape()
      && pool.Valid() && index.Valid()
      && bids.Valid(pool.orders[..]) && asks.Valid(pool.orders[..])
      && Represents(pool.orders[..], index.contents, bids.fifos, asks.fifos, bids.baseSegment, model)
      && model.config == config
      && |model.byId| + pool.freeCount == pool.capacity
      && bids.orderCount + asks.orderCount == |model.byId|
    }

    /** A pool larger than `MAX_CAPACITY` is refused at construction. */
    constructor (config: Config, hash: OrderId -> nat)
      requires config.maxOrders <= MAX_CAPACITY
      ensures Valid() && fresh(Repr()) && model == R.Empty(config) && this.config == config
    {
      hide SideBook.Valid, OrderPool.Valid, OrderIdIndex.Valid, Represents;
      this.config := config;
      pool := new OrderPool(config.maxOrders);
      index := new OrderIdIndex(config.maxOrders, hash);
      bids := new SideBook(Bid, config.minPrice, config.maxPrice);
      asks := new SideBook(Ask, config.minPrice, config.maxPrice);
      new;
      model := R.Empty(config);
      EmptyRepresents(pool.orders[..], bids.fifos, asks.fifos, bids.baseSegment, config);
    }

    /** Appends one resting order; the first failing check of quantity, price range, id and
        capacity decides the status, and a refused order changes nothing. */
    method Insert(order: OrderView) returns (status: InsertStatus)
      requires Valid()
      modifies Repr()
      ensures Valid()
      ensures status == R.InsertStatusOf(old(model), order)
      ensures model == R.Insert(old(model), order)
      ensures status == InvalidQuantity <==> order.remaining == 0
      ensures status == PriceOutOfRange <==> order.remaining > 0 && !config.InRange(order.price)
      ensures status == DuplicateOrderId
        <==> order.remaining > 0 && config.InRange(order.price) && order.id in old(model).byId
      ensures status == CapacityExhausted
        <==> order.remaining > 0 && config.InRange(order.price) && order.id !in old(model).byId
             && |old(model).byId| >= config.maxOrders
      ensures model.byId == if status == InsertOk then old(model).byId[order.id := order] else old(model).byId
    {
      ConfigOf();
      if order.remaining == 0 {
        return InvalidQuantity;
      }
      if !config.InRange(order.price) {
        return PriceOutOfRange;
      }
      status := Place(order);
    }

    /** Acquires a slot, indexes it and links it; a refused id gives the slot back. */
    method Place(order: OrderView) returns (status: InsertStatus)
      requires Valid() && order.remaining > 0 && config.InRange(order.price)
      modifies Repr()
      ensures Valid()
      ensures status == R.InsertStatusOf(old(model), order)
      ensures model == R.Insert(old(model), order)
    {
      hide Represents, SideBook.Valid, OrderPool.Valid, OrderIdIndex.Valid;
      ghost var o := pool.orders[..];
      ghost var contents := index.contents;
      RepresentsGives(o, contents, bids.fifos, asks.fifos, bids.baseSegment, model, order.id);
      var slot := pool.Emplace(order.id, order.owner, order.price, order.remaining, order.side);
      if slot == INVALID {
        var found := index.Find(order.id);
        return if found != INVALID then DuplicateOrderId else CapacityExhausted;
      }
      FreeSlotsAreUnused(o, pool.orders[..], slot, contents);
      var insertStatus := index.Insert(order.id, slot);
      if insertStatus != Ok {
        Rollback(slot, o);
        return if insertStatus == Duplicate then DuplicateOrderId else CapacityExhausted;
      }
      AppendOrder(order, slot, o, contents);
      return InsertOk;
    }

    /** Gives back a slot acquired from the pool `o`, before any FIFO has changed. */
    method Rollback(slot: nat, ghost o: seq<Order>)
      requires Shape() && pool.Valid() && index.Valid() && bids.Valid(o) && asks.Valid(o)
      requires Represents(o, index.contents, bids.fifos, asks.fifos, bids.baseSegment, model)
      requires slot < |o| == pool.capacity && !o[slot].inUse && pool.orders[slot].inUse
      requires forall s :: 0 <= s < |o| && s != slot ==> pool.orders[s] == o[s]
      requires model.config == config && |model.byId| + pool.freeCount + 1 == pool.capacity
      requires bids.orderCount + asks.orderCount == |model.byId|
      modifies pool, pool.orders
      ensures Valid()
    {
      hide Represents, SideBook.Valid, OrderPool.Valid, OrderIdIndex.Valid;
      pool.Release(slot);
      FreeSlotsAreUnused(o, pool.orders[..], slot, index.contents);
      FreeSlotRepresents(o, index.contents, bids.fifos, asks.fifos, bids.baseSegment, model, pool.orders[..], slot);
    }

    /** The last step of `Insert`: the acquired and indexed slot joins the FIFO of its price. */
    method AppendOrder(order: OrderView, slot: nat, ghost o: seq<Order>, ghost contents: map<OrderId, nat>)
      requires Shape() && pool.Valid() && index.Valid()
      requires bids.Valid(pool.orders[..]) && asks.Valid(pool.orders[..])
      requires Represents(o, contents, bids.fifos, asks.fifos, bids.baseSegment, model)
      requires slot < |o| && !o[slot].inUse && |o| == pool.capacity
      requires pool.orders[..]
        == o[slot := Order(order.id, order.owner, order.price, order.remaining, INVALID, INVALID, order.side, true)]
      requires index.contents == contents[order.id := slot]
      requires model.config == config && R.InsertStatusOf(model, order) == InsertOk
      requires forall k :: 0 <= k < |bids.fifos| ==> slot !in bids.fifos[k]
      requires forall k :: 0 <= k < |asks.fifos| ==> slot !in asks.fifos[k]
      requires |model.byId| + pool.freeCount + 1 == pool.capacity && bids.orderCount + asks.orderCount == |model.byId|
      modifies this, bids, bids.segments, bids.occupancy, asks, asks.segments, asks.occupancy, pool.orders
      ensures Valid() && model == R.Rest(old(model), order)
    {
      hide Represents, SideBook.Valid, OrderPool.Valid, OrderIdIndex.Valid, OnlyLevelChanged, SameViews;
      ghost var o1 := pool.orders[..];
      ghost var bf, af := bids.fifos, asks.fifos;
      ghost var k: nat := AppendToSide(order.side, slot);
      AppendRepresents(o, o1, pool.orders[..], contents, bf, af, bids.baseSegment, model, slot, k, order);
      model := R.Rest(model, order);
    }

    /** Links an acquired slot into the FIFO of its side. */
    method AppendToSide(side: Side, slot: nat) returns (ghost k: nat)
      requires Shape() && pool.Valid() && bids.Valid(pool.orders[..]) && asks.Valid(pool.orders[..])
      requires slot < pool.capacity
      requires var x := pool.orders[slot]; x.inUse && x.side == side && x.remaining > 0 && config.InRange(x.price)
      requires forall k :: 0 <= k < |bids.fifos| ==> slot !in bids.fifos[k]
      requires forall k :: 0 <= k < |asks.fifos| ==> slot !in asks.fifos[k]
      modifies bids, bids.segments, bids.occupancy, asks, asks.segments, asks.occupancy, pool.orders
      ensures pool.Valid() && bids.Valid(pool.orders[..]) && asks.Valid(pool.orders[..])
      ensures old(pool.orders[slot].price) == 64 * bids.baseSegment + k
      ensures k < (if side == Bid then |old(bids.fifos)| else |old(asks.fifos)|)
      ensures bids.fifos == InsertFifos(old(bids.fifos), side == Bid, k, slot)
      ensures asks.fifos == InsertFifos(old(asks.fifos), side == Ask, k, slot)
      ensures bids.orderCount + asks.orderCount == old(bids.orderCount + asks.orderCount) + 1
      ensures OnlyLevelChanged(old(pool.orders[..]), pool.orders[..], side, old(pool.orders[slot].price))
      ensures SameViews(old(pool.orders[..]), pool.orders[..])
    {
      hide FreeList, OnlyLevelChanged, SameViews, Consistent;
      BothSides();
      ghost var price := pool.orders[slot].price;
      ghost var o := pool.orders[..];
      k := bids.LevelOf(price);
      if side == Bid {
        bids.Append(pool, slot);
        asks.OppositeFrame(o, pool.orders[..], price);
      } else {
        asks.Append(pool, slot);
        bids.OppositeFrame(o, pool.orders[..], price);
      }
      LinksKeepFreelist(o, pool.orders[..], pool.freeHead, pool.freeCount, pool.free, side, price);
    }

    /** Both sides count prices from the same segment. */
    lemma BothSides()
      requires Shape() && bids.Shape() && asks.Shape()
      ensures bids.baseSegment == asks.baseSegment
      ensures forall price: PriceTick :: config.InRange(price) ==> bids.LevelOf(price) == asks.LevelOf(price) >= 0
    {
    }

    // -------------------------------------------------------------- snapshot and restore

    /** Replaces the contents by an image: inserts its orders one by one into the cleared book
        and stops at the first refusal, which leaves the orders before it. */
    method Restore(orders: seq<OrderView>) returns (status: RestoreStatus, restored: nat)
      requires Valid()
      modifies Repr()
      ensures Valid()
      ensures (status, restored, model) == Q.Restore(old(model), orders)
    {
      hide Valid;
      ConfigOf();
      if |orders| > config.maxOrders {
        return RestoreCapacityExceeded, 0;
      }
      Clear();
      restored := 0;
      while restored < |orders|
        invariant restored <= |orders| && Valid()
        invariant Q.RestoreFrom(R.Empty(config), orders, 0) == Q.RestoreFrom(model, orders[restored..], restored)
      {
        var inserted := Insert(orders[restored]);
        if inserted != InsertOk {
          return Q.RestoreStatusFor(inserted), restored;
        }
        restored := restored + 1;
      }
      return RestoreOk, restored;
    }

    lemma ConfigOf()
      requires Valid()
      ensures model.config == config && R.WF(model)
    {
    }

    method OrderCount() returns (count: nat)
      requires Valid()
      ensures count == |model.byId| == |Q.Snapshot(model)|
    {
      ConfigOf();
      BookSnapshots.SnapshotCount(model);
      count := bids.orderCount + asks.orderCount;
    }

    /** Copies the image of the book to the front of `out`, or refuses a destination that is
        too small and leaves it alone. */
    method SnapshotInto(out: array<OrderView>) returns (ok: bool, copied: nat)
      requires Valid() && out !in Repr()
      modifies out
      ensures ok <==> out.Length >= |model.byId|
      ensures !ok ==> copied == 0 && out[..] == old(out[..])
      ensures ok ==> out[..] == Q.Snapshot(model) + old(out[|model.byId|..]) && copied == |model.byId|
    {
      hide Valid, R.WF, Q.Snapshot, SideImage;
      var count := OrderCount();
      if out.Length < count {
        return false, 0;
      }
      SnapshotSplits();
      ghost var before := out[..];
      ghost var b, a := SideImage(model, Bid), SideImage(model, Ask);
      copied := SnapshotSideInto(bids, out, 0);
      ghost var between := out[..];
      assert between == b + before[|b|..];
      copied := SnapshotSideInto(asks, out, copied);
      TwoPieces(before, b, a, between, out[..]);
      return true, copied;
    }

    lemma SnapshotSplits()
      requires Valid()
      ensures |Q.Snapshot(model)| == |model.byId|
      ensures Q.Snapshot(model) == SideImage(model, Bid) + SideImage(model, Ask)
      ensures bids.side == Bid && asks.side == Ask
    {
      ConfigOf();
      BookSnapshots.SnapshotCount(model);
    }

    /** Walks every level of one side in ascending price and every FIFO from its head. The
        program's check that the destination is not full cannot fire here. */
    method SnapshotSideInto(book: SideBook, out: array<OrderView>, start: nat) returns (copied: nat)
      requires Valid() && (book == bids || book == asks) && out !in Repr()
      requires start + |SideImage(model, book.side)| <= out.Length
      modifies out
      ensures copied == start + |SideImage(model, book.side)|
      ensures out[..] == old(out[..start]) + SideImage(model, book.side) + old(out[copied..])
    {
      hide Valid, SideImage, ImageUpTo, Piece;
      ghost var image := SideImage(model, book.side);
      ghost var before := out[..];
      ImageStart(book);
      copied := start;
      var level := 0;
      while level < 64 * book.segments.Length
        invariant level <= 64 * book.segments.Length && Valid()
        invariant 64 * book.baseSegment + level <= R.PRICE_LIMIT
        invariant copied == start + |ImageUpTo(model, book.side, 64 * book.baseSegment + level)| <= start + |image|
        invariant out[..] == before[..start] + image[..copied - start] + before[copied..]
      {
        LevelImage(book, level);
        copied := SnapshotLevelInto(book.segments[level / 64].levels[level % 64].head, out, start, copied,
            book.fifos[level], image, before);
        level := level + 1;
      }
      ImageEnd(book);
      assert image[..|image|] == image;
    }

    /** Copies one FIFO `f`, the next piece of `image`. */
    method SnapshotLevelInto(head: nat, out: array<OrderView>, ghost start: nat, from: nat, ghost f: seq<nat>,
                             ghost image: seq<OrderView>, ghost before: seq<OrderView>) returns (copied: nat)
      requires out as object != pool.orders && out.Length == |before| && head == LinkOr(f, 0, INVALID)
      requires start <= from && start + |image| <= out.Length && Piece(pool.orders[..], f, image, from - start)
      requires out[..] == before[..start] + image[..from - start] + before[from..]
      modifies out
      ensures copied == from + |f| <= start + |image|
      ensures out[..] == before[..start] + image[..copied - start] + before[copied..]
    {
      copied := from;
      var current: nat := head;
      ghost var j := 0;
      while current != INVALID
        invariant j <= |f| && copied == from + j && current == LinkOr(f, j, INVALID)
        invariant out[..] == before[..start] + image[..copied - start] + before[copied..]
        decreases |f| - j
      {
        out[copied] := pool.orders[current].View();
        OneMore(before, image, start, copied, pool.orders[current].View());
        copied := copied + 1;
        j := j + 1;
        current := pool.orders[current].next;
      }
    }

    lemma SideFacts(book: SideBook)
      requires Valid() && (book == bids || book == asks)
      ensures book.Valid(pool.orders[..]) && book.baseSegment == bids.baseSegment
      ensures 64 * book.baseSegment + 64 * book.segments.Length <= R.PRICE_LIMIT
      ensures |book.fifos| == 64 * book.segments.Length
      ensures book.fifos == if book.side == Bid then bids.fifos else asks.fifos
      ensures pool.orders.Length <= MAX_CAPACITY
      ensures Represents(pool.orders[..], index.contents, bids.fifos, asks.fifos, bids.baseSegment, model)
    {
      hide FreeList, OrderIdIndex.Valid, OrderPool.Valid, Represents, SideBook.Valid;
      bids.SideSize(pool.orders[..]);
      asks.SideSize(pool.orders[..]);
      BothSides();
      PoolSize();
    }

    lemma ImageStart(book: SideBook)
      requires Valid() && (book == bids || book == asks)
      ensures 64 * book.baseSegment + 64 * book.segments.Length <= R.PRICE_LIMIT
      ensures ImageUpTo(model, book.side, 64 * book.baseSegment) == []
    {
      hide *;
      SideFacts(book);
      BelowFirstLevel(pool.orders[..], index.contents, bids.fifos, asks.fifos, bids.baseSegment, model, book.side);
    }

    lemma ImageEnd(book: SideBook)
      requires Valid() && (book == bids || book == asks)
      requires 64 * book.baseSegment + 64 * book.segments.Length <= R.PRICE_LIMIT
      ensures ImageUpTo(model, book.side, 64 * book.baseSegment + 64 * book.segments.Length)
        == SideImage(model, book.side)
    {
      hide *;
      SideFacts(book);
      var n := if book.side == Bid then |bids.fifos| else |asks.fifos|;
      assert n == 64 * book.segments.Length;
      AboveLastLevel(pool.orders[..], index.contents, bids.fifos, asks.fifos, bids.baseSegment, model, book.side, n);
    }

    /** A level's FIFO is the next piece of the side's image. */
    lemma LevelImage(book: SideBook, level: nat)
      requires Valid() && (book == bids || book == asks) && level < 64 * book.segments.Length
      requires 64 * book.baseSegment + level <= R.PRICE_LIMIT
      ensures |book.segments[level / 64].levels| == 64 && level < |book.fifos|
      ensures book.segments[level / 64].levels[level % 64].head == LinkOr(book.fifos[level], 0, INVALID)
      ensures 64 * book.baseSegment + level + 1 <= R.PRICE_LIMIT
      ensures var n := |ImageUpTo(model, book.side, 64 * book.baseSegment + level)|;
              && Piece(pool.orders[..], book.fifos[level], SideImage(model, book.side), n)
              && |ImageUpTo(model, book.side, 64 * book.baseSegment + level + 1)| == n + |book.fifos[level]|
    {
      hide *;
      SideFacts(book);
      LevelHead(book, level);
      NextPiece(pool.orders[..], index.contents, bids.fifos, asks.fifos, bids.baseSegment, model, book.side, level,
          book.fifos[level]);
    }

    lemma LevelHead(book: SideBook, level: nat)
      requires book.Valid(pool.orders[..]) && level < 64 * book.segments.Length
      ensures |book.segments[level / 64].levels| == 64 && level < |book.fifos|
      ensures book.segments[level / 64].levels[level % 64].head == LinkOr(book.fifos[level], 0, INVALID)
      ensures Fifos.Fifo(pool.orders[..], book.fifos[level], book.side, 64 * book.baseSegment + level)
    {
      hide Consistent;
      book.LevelFacts(pool.orders[..], level);
    }

    lemma PoolSize()
      requires pool.Valid()
      ensures pool.orders.Length == |pool.orders[..]| == pool.capacity <= MAX_CAPACITY
    {
    }

    /** The oldest order at the best price of a side. */
    method Best(side: Side) returns (best: Option<OrderView>)
      requires Valid()
      ensures best == R.Best(model, side)
    {
      hide Represents, OrderIdIndex.Valid, Consistent, FreeList;
      BestMatches(pool.orders[..], index.contents, bids.fifos, asks.fifos, bids.baseSegment, model, side);
      var slot: nat := INVALID;
      if side == Bid {
        slot := bids.BestOrder(pool.orders[..]);
      } else {
        slot := asks.BestOrder(pool.orders[..]);
      }
      if slot == INVALID {
        return None;
      }
      return Some(pool.orders[slot].View());
    }

    method Erase(id: OrderId) returns (result: EraseResult)
      requires Valid()
      modifies Repr()
      ensures Valid()
      ensures result == R.EraseResultOf(old(model), id)
      ensures model == R.Erase(old(model), id)
      ensures result == if id in old(model).byId then Erased(old(model).byId[id]) else EraseNotFound
      ensures model.byId == old(model).byId - {id}
    {
      hide Represents, SideBook.Valid, OrderPool.Valid, OrderIdIndex.Valid;
      ghost var contents := index.contents;
      PoolSize();
      RepresentsGives(pool.orders[..], contents, bids.fifos, asks.fifos, bids.baseSegment, model, id);
      var slot := index.EraseAndGet(id);
      if slot == INVALID {
        assert index.contents == contents - {id} == contents;
        return EraseNotFound;
      }
      var removed := RemoveActiveOrder(slot, contents);
      return Erased(removed);
    }

    /** Unlinks an order that was just taken out of the index and frees its slot. */
    method RemoveActiveOrder(slot: nat, ghost contents: map<OrderId, nat>) returns (removed: OrderView)
      requires Shape() && pool.Valid() && index.Valid()
      requires bids.Valid(pool.orders[..]) && asks.Valid(pool.orders[..])
      requires Represents(pool.orders[..], contents, bids.fifos, asks.fifos, bids.baseSegment, model)
      requires slot < pool.orders.Length && pool.orders[slot].inUse
      requires index.contents == contents - {pool.orders[slot].id}
      requires model.config == config
      requires |model.byId| + pool.freeCount == pool.capacity && bids.orderCount + asks.orderCount == |model.byId|
      modifies this, pool, bids, bids.segments, bids.occupancy, asks, asks.segments, asks.occupancy, pool.orders
      ensures Valid() && model == R.Erase(old(model), old(pool.orders[slot].id))
      ensures removed == old(pool.orders[slot]).View()
    {
      hide Represents, SideBook.Valid, OrderPool.Valid, OrderIdIndex.Valid, OnlyLevelChanged, SameViews;
      hide NoRepeats, RemovedFrom;
      ghost var o, bf, af := pool.orders[..], bids.fifos, asks.fifos;
      removed := pool.orders[slot].View();
      SideShapes();
      InItsFifo(o, contents, slot);
      ghost var k, o1 := UnlinkAndRelease(slot);
      RemoveRepresents(o, o1, pool.orders[..], contents, bf, af, bids.baseSegment, model, slot, k, bids.fifos,
          asks.fifos);
      model := R.Erase(model, o[slot].id);
    }

    method UnlinkAndRelease(slot: nat) returns (ghost k: nat, ghost o1: seq<Order>)
      requires Shape() && pool.Valid() && bids.Valid(pool.orders[..]) && asks.Valid(pool.orders[..])
      requires slot < pool.orders.Length && pool.orders[slot].inUse
      requires pool.orders[slot].side == Bid ==>
        0 <= bids.LevelOf(pool.orders[slot].price) < |bids.fifos|
          && slot in bids.fifos[bids.LevelOf(pool.orders[slot].price)]
      requires pool.orders[slot].side == Ask ==>
        0 <= asks.LevelOf(pool.orders[slot].price) < |asks.fifos|
          && slot in asks.fifos[asks.LevelOf(pool.orders[slot].price)]
      modifies pool, bids, bids.segments, bids.occupancy, asks, asks.segments, asks.occupancy, pool.orders
      ensures pool.Valid() && bids.Valid(pool.orders[..]) && asks.Valid(pool.orders[..])
      ensures var x := old(pool.orders[slot]);
              RemovalFrom(x.side, x.price, slot, old(bids.fifos), old(asks.fifos), bids.fifos, asks.fifos,
                  bids.baseSegment, k)
      ensures bids.orderCount + asks.orderCount == old(bids.orderCount + asks.orderCount) - 1
      ensures pool.freeCount == old(pool.freeCount) + 1
      ensures OnlyLevelChanged(old(pool.orders[..]), o1, old(pool.orders[slot].side), old(pool.orders[slot].price))
      ensures SameViews(old(pool.orders[..]), o1)
      ensures |pool.orders[..]| == |o1| && pool.orders[..] == o1[slot := pool.orders[slot]] && !pool.orders[slot].inUse
    {
      hide SideBook.Valid, OrderPool.Valid, OnlyLevelChanged, SameViews, RemovalFrom;
      k := RemoveFromSide(slot);
      o1 := pool.orders[..];
      ReleaseSlot(slot);
    }

    /** Frees a slot that rests in no FIFO. */
    method ReleaseSlot(slot: nat)
      requires Shape() && pool.Valid() && bids.Valid(pool.orders[..]) && asks.Valid(pool.orders[..])
      requires slot < pool.orders.Length && pool.orders[slot].inUse
      requires forall j :: 0 <= j < |bids.fifos| ==> slot !in bids.fifos[j]
      requires forall j :: 0 <= j < |asks.fifos| ==> slot !in asks.fifos[j]
      modifies pool, pool.orders
      ensures pool.Valid() && bids.Valid(pool.orders[..]) && asks.Valid(pool.orders[..])
      ensures |pool.orders[..]| == |old(pool.orders[..])|
        && pool.orders[..] == old(pool.orders[..])[slot := pool.orders[slot]]
      ensures !pool.orders[slot].inUse && pool.freeCount == old(pool.freeCount) + 1
    {
      hide SideBook.Valid;
      PoolSize();
      ghost var o := pool.orders[..];
      pool.Release(slot);
      bids.SlotFrame(o, pool.orders[..], slot);
      asks.SlotFrame(o, pool.orders[..], slot);
    }

    /** A resting order is in the FIFO of its side and price. */
    lemma InItsFifo(o: seq<Order>, contents: map<OrderId, nat>, slot: nat)
      requires Shape() && bids.Shape() && asks.Shape()
      requires Represents(o, contents, bids.fifos, asks.fifos, bids.baseSegment, model)
      requires slot < |o| && o[slot].inUse
      ensures o[slot].side == Bid ==>
        0 <= bids.LevelOf(o[slot].price) < |bids.fifos| && slot in bids.fifos[bids.LevelOf(o[slot].price)]
      ensures o[slot].side == Ask ==>
        0 <= asks.LevelOf(o[slot].price) < |asks.fifos| && slot in asks.fifos[asks.LevelOf(o[slot].price)]
    {
      hide Indexed, OrdersRefine, LevelsRefine, R.WF;
      BothSides();
    }

    /** Unlinks a slot from the FIFO of its side. */
    method RemoveFromSide(slot: nat) returns (ghost k: nat)
      requires Shape() && pool.Valid() && bids.Valid(pool.orders[..]) && asks.Valid(pool.orders[..])
      requires slot < pool.orders.Length && pool.orders[slot].inUse
      requires pool.orders[slot].side == Bid ==>
        0 <= bids.LevelOf(pool.orders[slot].price) < |bids.fifos|
          && slot in bids.fifos[bids.LevelOf(pool.orders[slot].price)]
      requires pool.orders[slot].side == Ask ==>
        0 <= asks.LevelOf(pool.orders[slot].price) < |asks.fifos|
          && slot in asks.fifos[asks.LevelOf(pool.orders[slot].price)]
      modifies bids, bids.segments, bids.occupancy, asks, asks.segments, asks.occupancy, pool.orders
      ensures pool.Valid() && bids.Valid(pool.orders[..]) && asks.Valid(pool.orders[..])
      ensures var x := old(pool.orders[slot]);
              RemovalFrom(x.side, x.price, slot, old(bids.fifos), old(asks.fifos), bids.fifos, asks.fifos,
                  bids.baseSegment, k)
      ensures forall j :: 0 <= j < |bids.fifos| ==> slot !in bids.fifos[j]
      ensures forall j :: 0 <= j < |asks.fifos| ==> slot !in asks.fifos[j]
      ensures bids.orderCount + asks.orderCount == old(bids.orderCount + asks.orderCount) - 1
      ensures pool.orders[slot].inUse
      ensures OnlyLevelChanged(old(pool.orders[..]), pool.orders[..], old(pool.orders[slot].side),
          old(pool.orders[slot].price))
      ensures SameViews(old(pool.orders[..]), pool.orders[..])
    {
      hide FreeList, OnlyLevelChanged, SameViews, Consistent, NoRepeats;
      BothSides();
      ghost var price := pool.orders[slot].price;
      ghost var o := pool.orders[..];
      k := bids.LevelOf(price);
      if pool.orders[slot].side == Bid {
        bids.OnlyInItsFifo(o, k, slot);
        asks.NotOfThisSide(o, slot);
        bids.Remove(pool, slot);
        asks.OppositeFrame(o, pool.orders[..], price);
        LinksKeepFreelist(o, pool.orders[..], pool.freeHead, pool.freeCount, pool.free, Bid, price);
      } else {
        asks.OnlyInItsFifo(o, k, slot);
        bids.NotOfThisSide(o, slot);
        asks.Remove(pool, slot);
        bids.OppositeFrame(o, pool.orders[..], price);
        LinksKeepFreelist(o, pool.orders[..], pool.freeHead, pool.freeCount, pool.free, Ask, price);
      }
      LinksKeepUse(o, pool.orders[..], o[slot].side, price, slot);
    }

    /** Sets a resting order's quantity; its place in the FIFO stays. */
    method SetRemaining(id: OrderId, newRemaining: Quantity) returns (result: SetResult)
      requires Valid()
      modifies Repr()
      ensures Valid()
      ensures result == R.SetResultOf(old(model), id, newRemaining)
      ensures model == R.SetRemaining(old(model), id, newRemaining)
      ensures result.SetInvalidQuantity? <==> newRemaining == 0
      ensures result.SetNotFound? <==> newRemaining > 0 && id !in old(model).byId
      ensures result.SetOk? ==>
        && result.previous == old(model).byId[id].remaining
        && model.byId == old(model).byId[id := old(model).byId[id].(remaining := newRemaining)]
    {
      hide Valid;
      if newRemaining == 0 {
        return SetInvalidQuantity;
      }
      var slot := FindSlot(id);
      if slot == INVALID {
        return SetNotFound;
      }
      var previous := pool.orders[slot].remaining;
      SetSlot(slot, newRemaining);
      return SetOk(previous);
    }

    method FindSlot(id: OrderId) returns (slot: nat)
      requires Valid()
      ensures slot == INVALID <==> id !in model.byId
      ensures id in model.byId ==>
        slot < pool.orders.Length && pool.orders[slot].inUse && pool.orders[slot].View() == model.byId[id]
          && pool.orders[slot].id == id
    {
      hide Represents, SideBook.Valid, OrderPool.Valid, OrderIdIndex.Valid;
      PoolSize();
      RepresentsGives(pool.orders[..], index.contents, bids.fifos, asks.fifos, bids.baseSegment, model, id);
      slot := index.Find(id);
    }

    method SetSlot(slot: nat, newRemaining: Quantity)
      requires Valid() && newRemaining > 0
      requires slot < pool.orders.Length && pool.orders[slot].inUse
      modifies this, bids, bids.segments, asks, asks.segments, pool.orders
      ensures Valid() && model == R.SetRemaining(old(model), old(pool.orders[slot].id), newRemaining)
    {
      hide Represents, SideBook.Valid, OrderPool.Valid, OrderIdIndex.Valid;
      ghost var id := pool.orders[slot].id;
      PoolSize();
      assert bids.Shape() && asks.Shape() by {
        SideShapes();
      }
      InItsFifo(pool.orders[..], index.contents, slot);
      SetRepresents(pool.orders[..], index.contents, bids.fifos, asks.fifos, bids.baseSegment, model, slot,
          newRemaining);
      SetOnSide(slot, newRemaining);
      SetKeepsIds(model, id, newRemaining);
      model := R.SetRemaining(model, id, newRemaining);
    }

    lemma SideShapes()
      requires bids.Valid(pool.orders[..]) && asks.Valid(pool.orders[..])
      ensures bids.Shape() && asks.Shape()
    {
    }

    method SetOnSide(slot: nat, newRemaining: Quantity)
      requires Shape() && pool.Valid() && bids.Valid(pool.orders[..]) && asks.Valid(pool.orders[..])
      requires slot < pool.orders.Length && newRemaining > 0
      requires pool.orders[slot].side == Bid ==>
        0 <= bids.LevelOf(pool.orders[slot].price) < |bids.fifos|
          && slot in bids.fifos[bids.LevelOf(pool.orders[slot].price)]
      requires pool.orders[slot].side == Ask ==>
        0 <= asks.LevelOf(pool.orders[slot].price) < |asks.fifos|
          && slot in asks.fifos[asks.LevelOf(pool.orders[slot].price)]
      modifies bids, bids.segments, asks, asks.segments, pool.orders
      ensures pool.Valid() && bids.Valid(pool.orders[..]) && asks.Valid(pool.orders[..])
      ensures bids.fifos == old(bids.fifos) && asks.fifos == old(asks.fifos)
      ensures bids.orderCount == old(bids.orderCount) && asks.orderCount == old(asks.orderCount)
      ensures pool.orders[..] == old(pool.orders[..])[slot := old(pool.orders[slot]).(remaining := newRemaining)]
    {
      hide FreeList, OnlyLevelChanged, Consistent;
      ghost var price := pool.orders[slot].price;
      ghost var o := pool.orders[..];
      if pool.orders[slot].side == Bid {
        bids.SetRemaining(pool, slot, newRemaining);
        asks.OppositeFrame(o, pool.orders[..], price);
        LinksKeepFreelist(o, pool.orders[..], pool.freeHead, pool.freeCount, pool.free, Bid, price);
      } else {
        asks.SetRemaining(pool, slot, newRemaining);
        bids.OppositeFrame(o, pool.orders[..], price);
        LinksKeepFreelist(o, pool.orders[..], pool.freeHead, pool.freeCount, pool.free, Ask, price);
      }
    }

    method Clear()
      requires Valid()
      modifies Repr()
      ensures Valid() && model == R.Empty(config)
    {
      hide Represents, SideBook.Valid, OrderPool.Valid, OrderIdIndex.Valid;
      SideShapes();
      ClearParts();
      model := R.Empty(config);
      EmptyRepresents(pool.orders[..], bids.fifos, asks.fifos, bids.baseSegment, config);
    }

    method ClearParts()
      requires Shape() && pool.Valid() && index.Valid() && bids.Shape() && asks.Shape()
      modifies Repr() - {this}
      ensures pool.Valid() && index.Valid() && bids.Valid(pool.orders[..]) && asks.Valid(pool.orders[..])
      ensures pool.freeCount == pool.capacity && index.contents == map[]
      ensures bids.orderCount == asks.orderCount == 0
      ensures forall s :: 0 <= s < |pool.orders[..]| ==> !pool.orders[..][s].inUse
      ensures forall k :: 0 <= k < |bids.fifos| ==> bids.fifos[k] == []
      ensures forall k :: 0 <= k < |asks.fifos| ==> asks.fifos[k] == []
    {
      hide SideBook.Valid, FreeList;
      pool.InitializeFreelist();
      index.Clear();
      bids.Clear();
      asks.Clear();
    }

    /** A slot that was free is in no FIFO, so writing it concerns neither side. */
    lemma FreeSlotsAreUnused(o: seq<Order>, o': seq<Order>, slot: nat, contents: map<OrderId, nat>)
      requires bids.Valid(o) && asks.Valid(o)
      requires Represents(o, contents, bids.fifos, asks.fifos, bids.baseSegment, model)
      requires slot < |o| && !o[slot].inUse && |o'| == |o| && forall s :: 0 <= s < |o| && s != slot ==> o'[s] == o[s]
      ensures bids.Valid(o') && asks.Valid(o')
      ensures forall k :: 0 <= k < |bids.fifos| ==> slot !in bids.fifos[k]
      ensures forall k :: 0 <= k < |asks.fifos| ==> slot !in asks.fifos[k]
    {
      FreeSlotInNoFifo(o, bids.fifos, slot);
      FreeSlotInNoFifo(o, asks.fifos, slot);
      bids.SlotFrame(o, o', slot);
      asks.SlotFrame(o, o', slot);
    }
  }

  lemma RepresentsGives(o: seq<Order>, contents: map<OrderId, nat>, bf: seq<seq<nat>>, af: seq<seq<nat>>, base: nat,
                        m: R.Book, id: OrderId)
    requires Represents(o, contents, bf, af, base, m)
    ensures contents.Keys == m.byId.Keys && |contents| == |m.byId|
    ensures id in contents ==>
      && contents[id] < |o| && o[contents[id]].inUse && o[contents[id]].id == id
      && m.byId[id] == o[contents[id]].View()
  {
  }

  /** Relinking orders in use leaves the freelist as it is. */
  lemma LinksKeepFreelist(o: seq<Order>, o': seq<Order>, freeHead: nat, freeCount: nat, free: seq<nat>, side: Side,
                          price: nat)
    requires FreeList(o, freeHead, freeCount, free) && OnlyLevelChanged(o, o', side, price)
    ensures FreeList(o', freeHead, freeCount, free)
  {
    FreeListFrame(o, o', freeHead, freeCount, free);
  }

  lemma LinksKeepUse(o: seq<Order>, o': seq<Order>, side: Side, price: nat, slot: nat)
    requires OnlyLevelChanged(o, o', side, price) && slot < |o|
    ensures slot < |o'| && o'[slot].inUse == o[slot].inUse
  {
  }

  lemma LinksKeepIdentity(o: seq<Order>, o1: seq<Order>, o': seq<Order>, slot: nat, side: Side, price: nat)
    requires slot < |o| && |o1| == |o| && forall s :: 0 <= s < |o| && s != slot ==> o1[s] == o[s]
    requires OnlyLevelChanged(o1, o', side, price) && SameViews(o1, o')
    ensures SameExcept(o, o', slot) && o'[slot].View() == o1[slot].View() && o'[slot].inUse == o1[slot].inUse
  {
    assert forall s :: 0 <= s < |o1| ==> o'[s].View() == o1[s].View() && o'[s].inUse == o1[s].inUse;
  }

  lemma SetKeepsIds(m: R.Book, id: OrderId, r: Quantity)
    ensures R.SetRemaining(m, id, r).byId.Keys == m.byId.Keys && |R.SetRemaining(m, id, r).byId| == |m.byId|
    ensures R.SetRemaining(m, id, r).config == m.config
  {
  }

  lemma AppendRepresents(o: seq<Order>, o1: seq<Order>, o': seq<Order>, contents: map<OrderId, nat>, bf: seq<seq<nat>>,
                         af: seq<seq<nat>>, base: nat, m: R.Book, slot: nat, k: nat, v: OrderView)
    requires Represents(o, contents, bf, af, base, m) && R.InsertStatusOf(m, v) == InsertOk
    requires slot < |o| && !o[slot].inUse
    requires o1 == o[slot := Order(v.id, v.owner, v.price, v.remaining, INVALID, INVALID, v.side, true)]
    requires OnlyLevelChanged(o1, o', v.side, v.price) && SameViews(o1, o')
    requires v.price == 64 * base + k && k < if v.side == Bid then |bf| else |af|
    ensures Represents(o', contents[v.id := slot], InsertFifos(bf, v.side == Bid, k, slot),
        InsertFifos(af, v.side == Ask, k, slot), base, R.Rest(m, v))
    ensures |R.Rest(m, v).byId| == |m.byId| + 1 && R.Rest(m, v).config == m.config
  {
    hide Represents, OnlyLevelChanged, SameViews, SameExcept, R.Rest, InsertFifos;
    LinksKeepIdentity(o, o1, o', slot, v.side, v.price);
    RestRepresents(o, contents, bf, af, base, m, o', slot, k, v);
    Q.RestKeys(m, v);
  }

  lemma RemoveRepresents(o: seq<Order>, o1: seq<Order>, o': seq<Order>, contents: map<OrderId, nat>, bf: seq<seq<nat>>,
                         af: seq<seq<nat>>, base: nat, m: R.Book, slot: nat, k: nat, bf': seq<seq<nat>>,
                           af': seq<seq<nat>>)
    requires Represents(o, contents, bf, af, base, m)
    requires slot < |o| && o[slot].inUse
    requires OnlyLevelChanged(o, o1, o[slot].side, o[slot].price) && SameViews(o, o1)
    requires |o'| == |o| && o' == o1[slot := o'[slot]] && !o'[slot].inUse
    requires RemovalFrom(o[slot].side, o[slot].price, slot, bf, af, bf', af', base, k)
    ensures Represents(o', contents - {o[slot].id}, bf', af', base, R.Erase(m, o[slot].id))
    ensures |R.Erase(m, o[slot].id).byId| == |m.byId| - 1 && R.Erase(m, o[slot].id).config == m.config
  {
    hide Represents, NoRepeats;
    ReleaseKeepsIdentity(o, o1, o', slot, o[slot].side, o[slot].price);
    EraseRepresents(o, contents, bf, af, base, m, o', slot, k, bf', af');
    assert m.byId.Keys == R.Erase(m, o[slot].id).byId.Keys + {o[slot].id};
  }

  lemma ReleaseKeepsIdentity(o: seq<Order>, o1: seq<Order>, o': seq<Order>, slot: nat, side: Side, price: nat)
    requires OnlyLevelChanged(o, o1, side, price) && SameViews(o, o1)
    requires slot < |o| && |o'| == |o| && forall s :: 0 <= s < |o| && s != slot ==> o'[s] == o1[s]
    ensures SameExcept(o, o', slot)
  {
    forall s | 0 <= s < |o| && s != slot
      ensures o'[s].View() == o[s].View() && o'[s].inUse == o[s].inUse
    {
      assert o1[s].View() == o[s].View();
    }
  }

  /** The side's FIFOs and the reference agree on the best order. */
  lemma BestMatches(o: seq<Order>, contents: map<OrderId, nat>, bf: seq<seq<nat>>, af: seq<seq<nat>>, base: nat,
                    m: R.Book, side: Side)
    requires Represents(o, contents, bf, af, base, m)
    ensures var fifos := if side == Bid then bf else af;
            && ((forall k :: 0 <= k < |fifos| ==> fifos[k] == []) ==> R.Best(m, side) == None)
            && (forall k: nat ::
                IsBestLevel(fifos, k, side) ==> fifos[k][0] < |o| && R.Best(m, side) == Some(o[fifos[k][0]].View()))
  {
    hide Indexed, R.WF, Resting;
    var fifos := if side == Bid then bf else af;
    var levels := R.LevelsOf(m, side);
    if forall k :: 0 <= k < |fifos| ==> fifos[k] == [] {
      NoBest(levels, o, fifos, base);
    }
    forall k: nat | IsBestLevel(fifos, k, side)
      ensures fifos[k][0] < |o| && R.Best(m, side) == Some(o[fifos[k][0]].View())
    {
      BestOfLevel(o, contents, m.byId, levels, fifos, base, m, side, k);
    }
  }

  lemma BestOfLevel(o: seq<Order>, contents: map<OrderId, nat>, byId: map<OrderId, OrderView>, levels: R.Levels,
                    fifos: seq<seq<nat>>, base: nat, m: R.Book, side: Side, k: nat)
    requires Indexed(o, contents) && OrdersRefine(byId, o, contents) && LevelsRefine(levels, o, fifos, base)
    requires m.byId == byId && R.LevelsOf(m, side) == levels && IsBestLevel(fifos, k, side)
    ensures fifos[k][0] < |o| && R.Best(m, side) == Some(o[fifos[k][0]].View())
  {
    BestIsBestKey(levels, o, fifos, base, side, k);
    assert SlotsAt(o, fifos[k]);
    assert o[fifos[k][0]].inUse;
  }

  /** One side's part of the image, and its part below a price. */
  function SideImage(m: R.Book, side: Side): seq<OrderView> {
    Q.Flat(R.LevelsOf(m, side), m.byId, true, 0, R.PRICE_LIMIT)
  }

  function ImageUpTo(m: R.Book, side: Side, price: nat): seq<OrderView>
    requires price <= R.PRICE_LIMIT
  {
    Q.Flat(R.LevelsOf(m, side), m.byId, true, 0, price)
  }

  /** The orders of a FIFO are what the reference book knows under their ids. */
  lemma LevelViews(o: seq<Order>, contents: map<OrderId, nat>, bf: seq<seq<nat>>, af: seq<seq<nat>>, base: nat,
                   m: R.Book, side: Side, k: nat, f: seq<nat>, here: seq<OrderView>)
    requires Represents(o, contents, bf, af, base, m)
    requires k < |if side == Bid then bf else af| && f == (if side == Bid then bf else af)[k]
    requires here == Q.Views(m.byId, R.Fifo(R.LevelsOf(m, side), 64 * base + k))
    ensures SlotsAt(o, f) && |here| == |f|
    ensures forall j :: 0 <= j < |f| ==> here[j] == o[f[j]].View()
  {
    hide R.WF, Resting;
    assert LevelRefines(R.LevelsOf(m, side), o, f, 64 * base + k);
    forall j | 0 <= j < |f|
      ensures Q.ViewOf(m.byId, o[f[j]].id) == o[f[j]].View()
    {
      assert contents[o[f[j]].id] == f[j];
    }
  }

  /** The FIFO `f` is the piece of `image` that starts at `n`. */
  ghost predicate Piece(o: seq<Order>, f: seq<nat>, image: seq<OrderView>, n: int) {
    && 0 <= n && n + |f| <= |image| && |o| <= MAX_CAPACITY
    && forall j ::
      0 <= j < |f| ==> f[j] < |o| && o[f[j]].next == LinkOr(f, j + 1, INVALID) && image[n + j] == o[f[j]].View()
  }

  lemma OneMore(before: seq<OrderView>, image: seq<OrderView>, start: nat, n: nat, v: OrderView)
    requires start <= n < start + |image| <= |before| && image[n - start] == v
    ensures (before[..start] + image[..n - start] + before[n..])[n := v]
      == before[..start] + image[..n + 1 - start] + before[n + 1..]
  {
    assert image[..n + 1 - start] == image[..n - start] + [v];
    assert before[n..][1..] == before[n + 1..];
  }

  lemma MiddlePiece(below: seq<OrderView>, here: seq<OrderView>, above: seq<OrderView>)
    ensures forall j :: 0 <= j < |here| ==> ((below + here) + above)[|below| + j] == here[j]
  {
  }

  lemma TwoPieces(before: seq<OrderView>, b: seq<OrderView>, a: seq<OrderView>, between: seq<OrderView>,
                  after: seq<OrderView>)
    requires |b| + |a| <= |before| && between == b + before[|b|..]
    requires after == between[..|b|] + a + between[|b| + |a|..]
    ensures after == b + a + before[|b| + |a|..]
  {
    assert between[|b| + |a|..] == before[|b| + |a|..];
  }

  lemma BelowFirstLevel(o: seq<Order>, contents: map<OrderId, nat>, bf: seq<seq<nat>>, af: seq<seq<nat>>, base: nat,
                        m: R.Book, side: Side)
    requires Represents(o, contents, bf, af, base, m) && 64 * base <= R.PRICE_LIMIT
    ensures ImageUpTo(m, side, 64 * base) == []
  {
    hide R.WF, Indexed, OrdersRefine;
    Q.FlatEmpty(R.LevelsOf(m, side), m.byId, true, 0, 64 * base);
  }

  lemma AboveLastLevel(o: seq<Order>, contents: map<OrderId, nat>, bf: seq<seq<nat>>, af: seq<seq<nat>>, base: nat,
                       m: R.Book, side: Side, n: nat)
    requires Represents(o, contents, bf, af, base, m) && 64 * base + n <= R.PRICE_LIMIT
    requires n == if side == Bid then |bf| else |af|
    ensures ImageUpTo(m, side, 64 * base + n) == SideImage(m, side)
  {
    hide R.WF, Indexed, OrdersRefine;
    Q.FlatEmpty(R.LevelsOf(m, side), m.byId, true, 64 * base + n, R.PRICE_LIMIT);
    Q.FlatConcat(R.LevelsOf(m, side), m.byId, true, 0, 64 * base + n, R.PRICE_LIMIT);
  }

  lemma NextPiece(o: seq<Order>, contents: map<OrderId, nat>, bf: seq<seq<nat>>, af: seq<seq<nat>>, base: nat,
                  m: R.Book, side: Side, k: nat, f: seq<nat>)
    requires Represents(o, contents, bf, af, base, m) && |o| <= MAX_CAPACITY
    requires k < |if side == Bid then bf else af| && f == (if side == Bid then bf else af)[k]
    requires 64 * base + k + 1 <= R.PRICE_LIMIT && Fifos.Fifo(o, f, side, 64 * base + k)
    ensures var n := |ImageUpTo(m, side, 64 * base + k)|;
            Piece(o, f, SideImage(m, side), n) && |ImageUpTo(m, side, 64 * base + k + 1)| == n + |f|
  {
    hide *;
    var here := Q.Views(m.byId, R.Fifo(R.LevelsOf(m, side), 64 * base + k));
    LevelViews(o, contents, bf, af, base, m, side, k, f, here);
    ImagePieces(m, side, 64 * base + k, here);
    ImagePiece(o, f, side, 64 * base + k, SideImage(m, side), |ImageUpTo(m, side, 64 * base + k)|, here);
  }

  /** The level at price `p` is the piece of the side's image after the lower prices. */
  lemma ImagePieces(m: R.Book, side: Side, p: nat, here: seq<OrderView>)
    requires p + 1 <= R.PRICE_LIMIT && here == Q.Views(m.byId, R.Fifo(R.LevelsOf(m, side), p))
    ensures var n := |ImageUpTo(m, side, p)|;
            && |ImageUpTo(m, side, p + 1)| == n + |here| <= |SideImage(m, side)|
            && forall j :: 0 <= j < |here| ==> SideImage(m, side)[n + j] == here[j]
  {
    hide Q.Flat, Q.Views;
    FlatPieces(R.LevelsOf(m, side), m.byId, p, R.PRICE_LIMIT);
  }

  lemma FlatPieces(levels: R.Levels, byId: map<OrderId, OrderView>, p: nat, end: nat)
    requires p < end <= R.PRICE_LIMIT
    ensures var here, n := Q.Views(byId, R.Fifo(levels, p)), |Q.Flat(levels, byId, true, 0, p)|;
            && |Q.Flat(levels, byId, true, 0, p + 1)| == n + |here| <= |Q.Flat(levels, byId, true, 0, end)|
            && forall j :: 0 <= j < |here| ==> Q.Flat(levels, byId, true, 0, end)[n + j] == here[j]
  {
    var below, here, above := Q.Flat(levels, byId, true, 0, p), Q.Views(byId, R.Fifo(levels, p)),
      Q.Flat(levels, byId, true, p + 1, end);
    Q.FlatConcat(levels, byId, true, 0, p, p + 1);
    Q.FlatConcat(levels, byId, true, 0, p + 1, end);
    assert Q.Flat(levels, byId, true, p, p + 1) == here;
    hide Q.Flat, Q.Views;
    MiddlePiece(below, here, above);
  }

  lemma ImagePiece(o: seq<Order>, f: seq<nat>, side: Side, p: nat, image: seq<OrderView>, n: nat, here: seq<OrderView>)
    requires Fifos.Fifo(o, f, side, p) && |o| <= MAX_CAPACITY && SlotsAt(o, f)
    requires |here| == |f| && forall j :: 0 <= j < |f| ==> here[j] == o[f[j]].View()
    requires n + |here| <= |image| && forall j :: 0 <= j < |here| ==> image[n + j] == here[j]
    ensures Piece(o, f, image, n)
  {
    forall j | 0 <= j < |f|
      ensures f[j] < |o| && o[f[j]].next == LinkOr(f, j + 1, INVALID)
    {
      Fifos.NodeAt(o, f, j, side, p);
    }
  }
}
