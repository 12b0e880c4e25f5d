/** Restoring a snapshot of a book gives back that book, whatever slots, buckets or links the
    restoring book used before. */
module BookSnapshots {
  import opened BookTypes
  import opened ReferenceBooks
  import opened BookQueues

  lemma {:induction false} SelectLevel(byId: map<OrderId, OrderView>, ids: seq<OrderId>, levelSide: Side,
                                       levelPrice: nat, side: Side, p: nat)
    requires forall i :: 0 <= i < |ids| ==> Belongs(byId, ids[i], levelSide, levelPrice) && byId[ids[i]].id == ids[i]
    ensures Select(Views(byId, ids), side, p) == if side == levelSide && p == levelPrice then ids else []
  {
    if ids != [] {
      var rest := ids[1..];
      assert forall i :: 0 <= i < |rest| ==> rest[i] == ids[i + 1];
      SelectLevel(byId, rest, levelSide, levelPrice, side, p);
      assert Views(byId, ids)[1..] == Views(byId, rest);
      assert Belongs(byId, ids[0], levelSide, levelPrice);
      assert ids == [ids[0]] + rest;
    }
  }

  ghost predicate KnownIds(byId: map<OrderId, OrderView>) {
    forall id :: id in byId ==> byId[id].id == id
  }

  lemma WFKnownIds(b: Book)
    requires WF(b)
    ensures KnownIds(b.byId)
  {
    assert forall id :: id in b.byId ==> OrderWF(b, id);
  }

  /** The part of a side's flattening that belongs to a side and price is that FIFO. */
  lemma {:induction false} SelectFlat(levels: Levels, byId: map<OrderId, OrderView>, levelSide: Side, lo: nat, hi: nat,
                                      side: Side, p: nat)
    requires hi <= PRICE_LIMIT && SideWF(levels, byId, levelSide) && KnownIds(byId)
    ensures Select(Flat(levels, byId, true, lo, hi), side, p) == if side == levelSide && lo <= p < hi
      then Fifo(levels, p) else []
    decreases hi - lo
  {
    if lo < hi {
      SelectFlat(levels, byId, levelSide, lo + 1, hi, side, p);
      LevelBelongs(levels, byId, levelSide, lo);
      SelectLevel(byId, Fifo(levels, lo), levelSide, lo, side, p);
      SelectConcat(Views(byId, Fifo(levels, lo)), Flat(levels, byId, true, lo + 1, hi), side, p);
    }
  }

  lemma LevelBelongs(levels: Levels, byId: map<OrderId, OrderView>, side: Side, price: nat)
    requires SideWF(levels, byId, side)
    ensures forall i :: 0 <= i < |Fifo(levels, price)| ==> Belongs(byId, Fifo(levels, price)[i], side, price)
  {
    if price in levels {
      assert LevelWF(byId, side, price, levels[price]);
    }
  }

  lemma SelectSnapshot(b: Book, side: Side, p: nat)
    requires WF(b)
    ensures Select(Snapshot(b), side, p) == Fifo(LevelsOf(b, side), p)
  {
    WFKnownIds(b);
    SelectFlat(b.bids, b.byId, Bid, 0, PRICE_LIMIT, side, p);
    SelectFlat(b.asks, b.byId, Ask, 0, PRICE_LIMIT, side, p);
    SelectConcat(Flat(b.bids, b.byId, true, 0, PRICE_LIMIT), Flat(b.asks, b.byId, true, 0, PRICE_LIMIT), side, p);
    if p in LevelsOf(b, side) {
      StoredPrice(b, side, p);
    }
  }

  // ---------------------------------------------------------------- the image is the set of orders

  ghost predicate Known(byId: map<OrderId, OrderView>, v: OrderView) {
    v.id in byId && byId[v.id] == v
  }

  lemma SnapshotMembers(b: Book)
    requires WF(b)
    ensures DistinctIds(Snapshot(b))
    ensures forall i :: 0 <= i < |Snapshot(b)| ==> Known(b.byId, Snapshot(b)[i])
  {
    WFKnownIds(b);
    FlatDistinct(b.bids, b.byId, Bid, true, 0, PRICE_LIMIT);
    FlatDistinct(b.asks, b.byId, Ask, true, 0, PRICE_LIMIT);
    FlatMembers(b.bids, b.byId, Bid, true, 0, PRICE_LIMIT);
    FlatMembers(b.asks, b.byId, Ask, true, 0, PRICE_LIMIT);
    SidesAreDisjoint(b.byId, Flat(b.bids, b.byId, true, 0, PRICE_LIMIT), Flat(b.asks, b.byId, true, 0, PRICE_LIMIT));
  }

  lemma SidesAreDisjoint(byId: map<OrderId, OrderView>, bids: seq<OrderView>, asks: seq<OrderView>)
    requires DistinctIds(bids) && DistinctIds(asks)
    requires forall i :: 0 <= i < |bids| ==> InRank(Bid, true, 0, PRICE_LIMIT, byId, bids[i])
    requires forall i :: 0 <= i < |asks| ==> InRank(Ask, true, 0, PRICE_LIMIT, byId, asks[i])
    ensures DistinctIds(bids + asks)
    ensures forall i :: 0 <= i < |bids + asks| ==> Known(byId, (bids + asks)[i])
  {
    forall i, j | 0 <= i < |bids| && 0 <= j < |asks|
      ensures bids[i].id != asks[j].id
    {
      assert InRank(Bid, true, 0, PRICE_LIMIT, byId, bids[i]);
      assert InRank(Ask, true, 0, PRICE_LIMIT, byId, asks[j]);
    }
  }

  /** Every order of a stored level occurs in the flattening. */
  lemma {:induction false} FlatCovers(levels: Levels, byId: map<OrderId, OrderView>, up: bool, lo: nat, hi: nat, r: nat,
                                      j: nat) returns (i: nat)
    requires lo <= r < hi <= PRICE_LIMIT && j < |Fifo(levels, PriceAt(up, r))|
    ensures i < |Flat(levels, byId, up, lo, hi)|
    ensures Flat(levels, byId, up, lo, hi)[i] == ViewOf(byId, Fifo(levels, PriceAt(up, r))[j])
    decreases hi - lo
  {
    if lo == r {
      i := j;
    } else {
      var k := FlatCovers(levels, byId, up, lo + 1, hi, r, j);
      i := |Fifo(levels, PriceAt(up, lo))| + k;
    }
  }

  lemma SnapshotCovers(b: Book, id: OrderId) returns (i: nat)
    requires WF(b) && id in b.byId
    ensures i < |Snapshot(b)| && Snapshot(b)[i] == b.byId[id]
  {
    hide SideWF, OrdersWF, LevelWF;
    var v := b.byId[id];
    LevelOfOrder(b, id);
    StoredPrice(b, v.side, v.price);
    var ids := Fifo(LevelsOf(b, v.side), v.price);
    var j :| 0 <= j < |ids| && ids[j] == id;
    if v.side == Bid {
      i := FlatCovers(b.bids, b.byId, true, 0, PRICE_LIMIT, v.price, j);
    } else {
      var k := FlatCovers(b.asks, b.byId, true, 0, PRICE_LIMIT, v.price, j);
      i := |Flat(b.bids, b.byId, true, 0, PRICE_LIMIT)| + k;
    }
  }

  function IdsIn(vs: seq<OrderView>): (ids: set<OrderId>)
  {
    set i | 0 <= i < |vs| :: vs[i].id
  }

  lemma IdsSnoc(init: seq<OrderView>, v: OrderView)
    ensures IdsIn(init + [v]) == IdsIn(init) + {v.id}
  {
    var vs := init + [v];
    forall id | id in IdsIn(init) + {v.id}
      ensures id in IdsIn(vs)
    {
      if id == v.id {
        assert vs[|init|].id == id;
      } else {
        var i :| 0 <= i < |init| && init[i].id == id;
        assert vs[i].id == id;
      }
    }
  }

  lemma {:induction false} DistinctCount(vs: seq<OrderView>)
    requires DistinctIds(vs)
    ensures |IdsIn(vs)| == |vs|
  {
    if vs != [] {
      var k := |vs| - 1;
      var init := vs[..k];
      assert vs == init + [vs[k]];
      assert forall i :: 0 <= i < k ==> init[i] == vs[i];
      DistinctCount(init);
      IdsSnoc(init, vs[k]);
    }
  }

  /** The image holds every order once: as many entries as orders. */
  lemma SnapshotCount(b: Book)
    requires WF(b)
    ensures |Snapshot(b)| == |b.byId|
  {
    hide WF, Snapshot, DistinctIds;
    SnapshotMembers(b);
    DistinctCount(Snapshot(b));
    SnapshotIds(b);
    assert |b.byId.Keys| == |b.byId|;
  }

  lemma SnapshotIds(b: Book)
    requires WF(b)
    ensures IdsIn(Snapshot(b)) == b.byId.Keys
  {
    hide WF, Snapshot, DistinctIds;
    var vs := Snapshot(b);
    SnapshotMembers(b);
    WFKnownIds(b);
    forall id | id in b.byId
      ensures id in IdsIn(vs)
    {
      var i := SnapshotCovers(b, id);
      assert vs[i].id == id;
    }
    forall id | id in IdsIn(vs)
      ensures id in b.byId
    {
      var i :| 0 <= i < |vs| && vs[i].id == id;
      assert Known(b.byId, vs[i]);
    }
  }

  // ---------------------------------------------------------------- the round trip

  ghost predicate NoEmptyLevels(levels: Levels) {
    forall p :: p in levels ==> levels[p] != []
  }

  lemma SameFifosSameLevels(l: Levels, m: Levels)
    requires NoEmptyLevels(l) && NoEmptyLevels(m)
    requires forall p :: Fifo(l, p) == Fifo(m, p)
    ensures l == m
  {
    forall p | p in l || p in m
      ensures p in l && p in m && l[p] == m[p]
    {
      assert Fifo(l, p) == Fifo(m, p);
    }
  }

  lemma WFNoEmptyLevels(b: Book, side: Side)
    requires WF(b)
    ensures NoEmptyLevels(LevelsOf(b, side))
  {
    forall p | p in LevelsOf(b, side)
      ensures LevelsOf(b, side)[p] != []
    {
      StoredPrice(b, side, p);
    }
  }

  lemma SnapshotRestorable(b: Book)
    requires WF(b)
    ensures Restorable(Empty(b.config), Snapshot(b))
  {
    SnapshotMembers(b);
    SnapshotCount(b);
    var vs := Snapshot(b);
    forall i | 0 <= i < |vs|
      ensures vs[i].remaining > 0 && b.config.InRange(vs[i].price)
    {
      assert Known(b.byId, vs[i]);
      assert OrderWF(b, vs[i].id);
    }
  }

  lemma SameOrders(b: Book, b': Book)
    requires WF(b) && b' == RestoreFrom(Empty(b.config), Snapshot(b), 0).2
    ensures b'.byId == b.byId
  {
    hide WF, Restorable, Snapshot, DistinctIds;
    SnapshotRestorable(b);
    SnapshotMembers(b);
    WFKnownIds(b);
    var vs := Snapshot(b);
    forall id | id in b'.byId
      ensures id in b.byId
    {
      RestoreOrders(Empty(b.config), vs, 0, id);
    }
    forall id | id in b.byId
      ensures id in b'.byId && b'.byId[id] == b.byId[id]
    {
      RestoreOrders(Empty(b.config), vs, 0, id);
      var i := SnapshotCovers(b, id);
      assert Holds(b', id, vs[i]);
    }
  }

  /** Restoring the snapshot of `b` into any book `c` of the same configuration gives `b`. */
  lemma RestoreSnapshot(b: Book, c: Book)
    requires WF(b) && c.config == b.config
    ensures Restore(c, Snapshot(b)) == (RestoreOk, |b.byId|, b)
  {
    hide WF, Restorable, Snapshot;
    var vs := Snapshot(b);
    SnapshotRestorable(b);
    SnapshotCount(b);
    EmptyWF(b.config);
    RestoreSucceeds(Empty(b.config), vs, 0);
    var b' := RestoreFrom(Empty(b.config), vs, 0).2;
    SameOrders(b, b');
    forall side: Side
      ensures LevelsOf(b', side) == LevelsOf(b, side)
    {
      WFNoEmptyLevels(b, side);
      WFNoEmptyLevels(b', side);
      forall p
        ensures Fifo(LevelsOf(b', side), p) == Fifo(LevelsOf(b, side), p)
      {
        RestoreFifo(Empty(b.config), vs, 0, side, p);
        SelectSnapshot(b, side, p);
      }
      SameFifosSameLevels(LevelsOf(b', side), LevelsOf(b, side));
    }
    assert LevelsOf(b', Bid) == LevelsOf(b, Bid) && LevelsOf(b', Ask) == LevelsOf(b, Ask);
    SizeWF(b);
  }

  lemma SizeWF(b: Book)
    requires WF(b)
    ensures |b.byId| <= b.config.maxOrders
  {
  }
}
