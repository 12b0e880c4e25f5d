/** The reference book read as queues: the price-time queue of a side, the snapshot image,
    and the restoring of an image. */
module BookQueues {
  import opened BookTypes
  import opened ReferenceBooks

  const NO_VIEW := OrderView(0, 0, Bid, 0, 0)

  function ViewOf(byId: map<OrderId, OrderView>, id: OrderId): OrderView {
    if id in byId then byId[id] else NO_VIEW
  }

  function Views(byId: map<OrderId, OrderView>, ids: seq<OrderId>): (vs: seq<OrderView>)
    ensures |vs| == |ids| && forall i :: 0 <= i < |ids| ==> vs[i] == ViewOf(byId, ids[i])
  {
    seq(|ids|, i requires 0 <= i < |ids| => ViewOf(byId, ids[i]))
  }

  /** The price of rank `r`, counting up or down. */
  function PriceAt(up: bool, r: nat): int {
    if up then r else PRICE_LIMIT - 1 - r
  }

  /** The orders of the ranks `lo .. hi`, each level in FIFO order. */
  function Flat(levels: Levels, byId: map<OrderId, OrderView>, up: bool, lo: nat, hi: nat): seq<OrderView>
    requires hi <= PRICE_LIMIT
    decreases hi - lo
  {
    if lo >= hi then [] else Views(byId, Fifo(levels, PriceAt(up, lo))) + Flat(levels, byId, up, lo + 1, hi)
  }

  /** A side in price-time priority, best order first. */
  function Queue(b: Book, side: Side): seq<OrderView> {
    Flat(LevelsOf(b, side), b.byId, side == Ask, 0, PRICE_LIMIT)
  }

  /** The snapshot image: bids, then asks, each from the lowest price up. */
  function Snapshot(b: Book): seq<OrderView> {
    Flat(b.bids, b.byId, true, 0, PRICE_LIMIT) + Flat(b.asks, b.byId, true, 0, PRICE_LIMIT)
  }

  // ---------------------------------------------------------------- flattening

  lemma {:induction false} FlatConcat(levels: Levels, byId: map<OrderId, OrderView>, up: bool, lo: nat, mid: nat,
                                      hi: nat)
    requires lo <= mid <= hi <= PRICE_LIMIT
    ensures Flat(levels, byId, up, lo, hi) == Flat(levels, byId, up, lo, mid) + Flat(levels, byId, up, mid, hi)
    decreases mid - lo
  {
    if lo < mid {
      FlatConcat(levels, byId, up, lo + 1, mid, hi);
    }
  }

  /** The levels and orders of the ranks `lo .. hi` agree. */
  ghost predicate SameRanks(levels: Levels, byId: map<OrderId, OrderView>, levels': Levels,
                            byId': map<OrderId, OrderView>, up: bool, lo: nat, hi: nat) {
    forall r :: lo <= r < hi ==> SameRank(levels, byId, levels', byId', PriceAt(up, r))
  }

  ghost predicate SameRank(levels: Levels, byId: map<OrderId, OrderView>, levels': Levels,
                           byId': map<OrderId, OrderView>, price: int) {
    price >= 0 ==>
      && Fifo(levels', price) == Fifo(levels, price)
      && Views(byId', Fifo(levels, price)) == Views(byId, Fifo(levels, price))
  }

  lemma {:induction false} FlatFrame(levels: Levels, byId: map<OrderId, OrderView>, levels': Levels,
                                     byId': map<OrderId, OrderView>, up: bool, lo: nat, hi: nat)
    requires hi <= PRICE_LIMIT && SameRanks(levels, byId, levels', byId', up, lo, hi)
    ensures Flat(levels', byId', up, lo, hi) == Flat(levels, byId, up, lo, hi)
    decreases hi - lo
  {
    if lo < hi {
      assert SameRank(levels, byId, levels', byId', PriceAt(up, lo));
      FlatFrame(levels, byId, levels', byId', up, lo + 1, hi);
    }
  }

  lemma {:induction false} FlatEmpty(levels: Levels, byId: map<OrderId, OrderView>, up: bool, lo: nat, hi: nat)
    requires hi <= PRICE_LIMIT && forall r :: lo <= r < hi ==> PriceAt(up, r) !in levels
    ensures Flat(levels, byId, up, lo, hi) == []
    decreases hi - lo
  {
    if lo < hi {
      FlatEmpty(levels, byId, up, lo + 1, hi);
    }
  }

  function Rank(up: bool, price: nat): int {
    if up then price else PRICE_LIMIT - 1 - price
  }

  ghost predicate InRank(side: Side, up: bool, lo: nat, hi: nat, byId: map<OrderId, OrderView>, v: OrderView) {
    v.id in byId && byId[v.id] == v && v.side == side && lo <= Rank(up, v.price) < hi
  }

  /** Every order of a flattening is known, of the side, and of one of the ranks. */
  lemma {:induction false} FlatMembers(levels: Levels, byId: map<OrderId, OrderView>, side: Side, up: bool, lo: nat,
                                       hi: nat)
    requires hi <= PRICE_LIMIT && SideWF(levels, byId, side)
    requires forall id :: id in byId ==> byId[id].id == id
    ensures forall i ::
      0 <= i < |Flat(levels, byId, up, lo, hi)| ==> InRank(side, up, lo, hi, byId, Flat(levels, byId, up, lo, hi)[i])
    decreases hi - lo
  {
    if lo < hi {
      FlatMembers(levels, byId, side, up, lo + 1, hi);
      var p := PriceAt(up, lo);
      var here := Views(byId, Fifo(levels, p));
      if p in levels {
        assert LevelWF(byId, side, p, levels[p]);
      }
      forall i | 0 <= i < |here|
        ensures InRank(side, up, lo, hi, byId, here[i])
      {
        assert Belongs(byId, levels[p][i], side, p);
      }
    }
  }

  ghost predicate DistinctIds(vs: seq<OrderView>) {
    forall i, j :: 0 <= i < j < |vs| ==> vs[i].id != vs[j].id
  }

  lemma {:induction false} FlatDistinct(levels: Levels, byId: map<OrderId, OrderView>, side: Side, up: bool, lo: nat,
                                        hi: nat)
    requires hi <= PRICE_LIMIT && SideWF(levels, byId, side)
    requires forall id :: id in byId ==> byId[id].id == id
    ensures DistinctIds(Flat(levels, byId, up, lo, hi))
    decreases hi - lo
  {
    if lo < hi {
      FlatDistinct(levels, byId, side, up, lo + 1, hi);
      FlatMembers(levels, byId, side, up, lo + 1, hi);
      var p := PriceAt(up, lo);
      LevelDistinct(levels, byId, side, p, up, lo);
      hide SideWF;
      RanksAreDisjoint(byId, side, up, lo, hi, Views(byId, Fifo(levels, p)), Flat(levels, byId, up, lo + 1, hi));
    }
  }

  lemma RanksAreDisjoint(byId: map<OrderId, OrderView>, side: Side, up: bool, lo: nat, hi: nat, here: seq<OrderView>,
                         rest: seq<OrderView>)
    requires DistinctIds(here) && DistinctIds(rest)
    requires forall i :: 0 <= i < |here| ==> InRank(side, up, lo, lo + 1, byId, here[i])
    requires forall i :: 0 <= i < |rest| ==> InRank(side, up, lo + 1, hi, byId, rest[i])
    ensures DistinctIds(here + rest)
  {
    forall i, j | 0 <= i < |here| && 0 <= j < |rest|
      ensures here[i].id != rest[j].id
    {
      assert InRank(side, up, lo, lo + 1, byId, here[i]);
      assert InRank(side, up, lo + 1, hi, byId, rest[j]);
    }
  }

  lemma LevelDistinct(levels: Levels, byId: map<OrderId, OrderView>, side: Side, p: nat, up: bool, r: nat)
    requires SideWF(levels, byId, side) && p == PriceAt(up, r) && r < PRICE_LIMIT
    requires forall id :: id in byId ==> byId[id].id == id
    ensures DistinctIds(Views(byId, Fifo(levels, p)))
    ensures forall i :: 0 <= i < |Fifo(levels, p)| ==> InRank(side, up, r, r + 1, byId, Views(byId, Fifo(levels, p))[i])
  {
    if p in levels {
      assert LevelWF(byId, side, p, levels[p]);
      forall i | 0 <= i < |levels[p]|
        ensures Belongs(byId, levels[p][i], side, p)
      {
      }
    }
  }

  // ---------------------------------------------------------------- the queue and its best order

  /** Nothing is ranked before the best price. */
  lemma NothingBeforeBest(b: Book, side: Side, p: nat)
    requires WF(b) && LevelsOf(b, side).Keys != {} && p == BestKey(side, LevelsOf(b, side).Keys)
    ensures p < PRICE_LIMIT && Flat(LevelsOf(b, side), b.byId, side == Ask, 0, Rank(side == Ask, p)) == []
  {
    hide WF;
    var levels := LevelsOf(b, side);
    StoredPrice(b, side, p);
    var up := side == Ask;
    forall q | 0 <= q < Rank(up, p)
      ensures PriceAt(up, q) !in levels
    {
      assert Better(side, PriceAt(up, q), p);
      assert PriceAt(up, q) !in levels.Keys;
    }
    FlatEmpty(levels, b.byId, up, 0, Rank(up, p));
  }

  /** An empty side has an empty queue; otherwise the queue starts with the best level. */
  lemma QueueFromBest(b: Book, side: Side)
    requires WF(b)
    ensures LevelsOf(b, side).Keys == {} ==> Queue(b, side) == [] && Best(b, side) == None
    ensures LevelsOf(b, side).Keys != {} ==>
      var p := BestKey(side, LevelsOf(b, side).Keys);
      && p < PRICE_LIMIT && LevelsOf(b, side)[p] != []
      && Queue(b, side)
        == Views(b.byId, LevelsOf(b, side)[p])
          + Flat(LevelsOf(b, side), b.byId, side == Ask, Rank(side == Ask, p) + 1, PRICE_LIMIT)
      && Best(b, side) == Some(ViewOf(b.byId, LevelsOf(b, side)[p][0]))
  {
    hide WF;
    var levels := LevelsOf(b, side);
    if levels.Keys == {} {
      FlatEmpty(levels, b.byId, side == Ask, 0, PRICE_LIMIT);
    } else {
      var p := BestKey(side, levels.Keys);
      NothingBeforeBest(b, side, p);
      StoredPrice(b, side, p);
      FlatConcat(levels, b.byId, side == Ask, 0, Rank(side == Ask, p), PRICE_LIMIT);
      assert PriceAt(side == Ask, Rank(side == Ask, p)) == p;
    }
  }

  lemma StoredPrice(b: Book, side: Side, p: nat)
    requires WF(b) && p in LevelsOf(b, side)
    ensures p < PRICE_LIMIT && LevelWF(b.byId, side, p, LevelsOf(b, side)[p])
    ensures LevelsOf(b, side)[p] != [] && LevelsOf(b, side)[p][0] in b.byId
  {
    var ids := LevelsOf(b, side)[p];
    assert LevelWF(b.byId, side, p, ids);
    assert Belongs(b.byId, ids[0], side, p);
  }

  /** The best order is the first of the queue. */
  lemma BestIsFirst(b: Book, side: Side)
    requires WF(b)
    ensures Best(b, side) == if Queue(b, side) == [] then None else Some(Queue(b, side)[0])
    ensures Queue(b, side) != [] ==> var v := Queue(b, side)[0];
            v.id in b.byId && b.byId[v.id] == v && v.side == side && v.remaining > 0
  {
    QueueFromBest(b, side);
    if LevelsOf(b, side).Keys != {} {
      var p := BestKey(side, LevelsOf(b, side).Keys);
      StoredPrice(b, side, p);
      assert OrderWF(b, LevelsOf(b, side)[p][0]);
    }
  }

  // ---------------------------------------------------------------- restoring an image

  /** Inserts the image's orders one after the other and stops at the first refusal. */
  function RestoreFrom(b: Book, vs: seq<OrderView>, done: nat): (RestoreStatus, nat, Book)
    decreases |vs|
  {
    if vs == [] then (RestoreOk, done, b)
    else if InsertStatusOf(b, vs[0]) != InsertOk then (RestoreStatusFor(InsertStatusOf(b, vs[0])), done, b)
    else RestoreFrom(Rest(b, vs[0]), vs[1..], done + 1)
  }

  function RestoreStatusFor(status: InsertStatus): RestoreStatus {
    match status
    case InsertOk => RestoreOk
    case DuplicateOrderId => RestoreDuplicate
    case CapacityExhausted => RestoreCapacityExceeded
    case PriceOutOfRange => RestorePriceOutOfRange
    case InvalidQuantity => RestoreInvalidQuantity
  }

  /** Replaces the book `b` by an image; an image larger than the book leaves `b` alone. */
  function Restore(b: Book, vs: seq<OrderView>): (RestoreStatus, nat, Book) {
    if |vs| > b.config.maxOrders then (RestoreCapacityExceeded, 0, b)
    else RestoreFrom(Empty(b.config), vs, 0)
  }

  /** The ids of a side and price in an image, in image order. */
  function Select(vs: seq<OrderView>, side: Side, price: nat): seq<OrderId> {
    if vs == [] then []
    else if vs[0].side == side && vs[0].price == price then [vs[0].id] + Select(vs[1..], side, price)
    else Select(vs[1..], side, price)
  }

  lemma {:induction false} SelectConcat(vs: seq<OrderView>, ws: seq<OrderView>, side: Side, price: nat)
    ensures Select(vs + ws, side, price) == Select(vs, side, price) + Select(ws, side, price)
  {
    if vs == [] {
      assert vs + ws == ws;
    } else {
      var rest := vs[1..];
      SelectConcat(rest, ws, side, price);
      var all := vs + ws;
      assert all[1..] == rest + ws;
      if all[0].side == side && all[0].price == price {
        var x, y, z := [vs[0].id], Select(rest, side, price), Select(ws, side, price);
        assert x + (y + z) == (x + y) + z;
      }
    }
  }

  /** An image whose orders are new, distinct, in range and few enough. */
  ghost predicate Restorable(b: Book, vs: seq<OrderView>) {
    && DistinctIds(vs)
    && |b.byId| + |vs| <= b.config.maxOrders
    && forall i :: 0 <= i < |vs| ==> vs[i].id !in b.byId && vs[i].remaining > 0 && b.config.InRange(vs[i].price)
  }

  ghost predicate Holds(b: Book, id: OrderId, v: OrderView) {
    id in b.byId && b.byId[id] == v
  }

  /** Restoring such an image succeeds. */
  lemma {:induction false} RestoreSucceeds(b: Book, vs: seq<OrderView>, done: nat)
    requires WF(b) && Restorable(b, vs)
    ensures var (status, n, b') := RestoreFrom(b, vs, done);
            status == RestoreOk && n == done + |vs| && WF(b') && b'.config == b.config
    decreases |vs|
  {
    hide WF;
    if vs != [] {
      RestWF(b, vs[0]);
      RestRestorable(b, vs);
      RestoreSucceeds(Rest(b, vs[0]), vs[1..], done + 1);
    }
  }

  /** And only restoring such an image succeeds. */
  lemma {:induction false} RestoredWasRestorable(b: Book, vs: seq<OrderView>, done: nat)
    requires RestoreFrom(b, vs, done).0 == RestoreOk && |b.byId| <= b.config.maxOrders
    ensures Restorable(b, vs)
    decreases |vs|
  {
    if vs != [] {
      var v, b1 := vs[0], Rest(b, vs[0]);
      assert b1.byId.Keys == b.byId.Keys + {v.id} && |b1.byId| == |b.byId| + 1 by {
        RestKeys(b, v);
      }
      RestoredWasRestorable(b1, vs[1..], done + 1);
      assert forall i :: 1 <= i < |vs| ==> vs[i] == vs[1..][i - 1];
    }
  }

  /** What an image must look like for a book of this configuration. */
  ghost predicate Loadable(config: Config, vs: seq<OrderView>) {
    && |vs| <= config.maxOrders && DistinctIds(vs)
    && forall i :: 0 <= i < |vs| ==> vs[i].remaining > 0 && config.InRange(vs[i].price)
  }

  /** Restoring succeeds if and only if the image has few enough orders, with distinct ids,
      positive quantities and prices in range. */
  lemma RestoresExactly(b: Book, vs: seq<OrderView>)
    ensures Restore(b, vs).0 == RestoreOk <==> Loadable(b.config, vs)
  {
    hide Rest, WF;
    EmptyWF(b.config);
    if Loadable(b.config, vs) {
      RestoreSucceeds(Empty(b.config), vs, 0);
    }
    if Restore(b, vs).0 == RestoreOk {
      RestoredWasRestorable(Empty(b.config), vs, 0);
    }
  }

  lemma RestFifo(b: Book, v: OrderView, side: Side, p: nat)
    ensures Fifo(LevelsOf(Rest(b, v), side), p)
      == Fifo(LevelsOf(b, side), p) + (if v.side == side && v.price == p then [v.id] else [])
  {
  }

  /** Each FIFO grows by its part of the image. */
  lemma {:induction false} RestoreFifo(b: Book, vs: seq<OrderView>, done: nat, side: Side, p: nat)
    requires Restorable(b, vs)
    ensures Fifo(LevelsOf(RestoreFrom(b, vs, done).2, side), p) == Fifo(LevelsOf(b, side), p) + Select(vs, side, p)
    decreases |vs|
  {
    hide LevelsOf, Fifo, Restorable, Rest, InsertStatusOf;
    if vs == [] {
      assert Fifo(LevelsOf(b, side), p) + [] == Fifo(LevelsOf(b, side), p);
    } else {
      var rest := vs[1..];
      RestRestorable(b, vs);
      RestFifo(b, vs[0], side, p);
      RestoreFifo(Rest(b, vs[0]), rest, done + 1, side, p);
      var ids, more := Fifo(LevelsOf(b, side), p), Select(rest, side, p);
      assert (ids + [vs[0].id]) + more == ids + ([vs[0].id] + more);
    }
  }

  /** The orders by id grow by exactly the image's orders. */
  lemma {:induction false} RestoreOrders(b: Book, vs: seq<OrderView>, done: nat, id: OrderId)
    requires Restorable(b, vs)
    ensures var b' := RestoreFrom(b, vs, done).2;
            && (id in b.byId ==> Holds(b', id, b.byId[id]))
            && (forall i :: 0 <= i < |vs| && vs[i].id == id ==> Holds(b', id, vs[i]))
            && (id in b'.byId ==> id in b.byId || exists i :: 0 <= i < |vs| && vs[i].id == id)
    decreases |vs|
  {
    if vs != [] {
      var rest := vs[1..];
      RestRestorable(b, vs);
      RestoreOrders(Rest(b, vs[0]), rest, done + 1, id);
      var b' := RestoreFrom(b, vs, done).2;
      assert forall i :: 0 < i < |vs| ==> vs[i] == rest[i - 1];
      assert vs == [vs[0]] + rest;
    }
  }

  lemma RestRestorable(b: Book, vs: seq<OrderView>)
    requires Restorable(b, vs) && vs != []
    ensures Restorable(Rest(b, vs[0]), vs[1..]) && InsertStatusOf(b, vs[0]) == InsertOk
  {
    var rest := vs[1..];
    RestKeys(b, vs[0]);
    assert forall i :: 0 <= i < |rest| ==> rest[i] == vs[i + 1];
    hide Rest;
    assert DistinctIds(rest);
  }

  lemma RestKeys(b: Book, v: OrderView)
    requires v.id !in b.byId
    ensures Rest(b, v).byId.Keys == b.byId.Keys + {v.id} && |Rest(b, v).byId| == |b.byId| + 1
    ensures Rest(b, v).config == b.config
  {
    assert Rest(b, v).byId.Keys == b.byId.Keys + {v.id};
  }
}
