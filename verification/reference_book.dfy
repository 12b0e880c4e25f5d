/** The reference book: a map from price to a FIFO of order ids per side, and the orders by
    id. Every other description of the book is proved against this one. */
module ReferenceBooks {
  import opened BookTypes

  type Levels = map<nat, seq<OrderId>>

  datatype Book = Book(config: Config, byId: map<OrderId, OrderView>, bids: Levels, asks: Levels)

  function LevelsOf(b: Book, side: Side): Levels {
    if side == Bid then b.bids else b.asks
  }

  function SetLevels(b: Book, side: Side, levels: Levels): Book {
    if side == Bid then b.(bids := levels) else b.(asks := levels)
  }

  /** The FIFO at a price; no entry means an empty one. */
  function Fifo(levels: Levels, price: nat): seq<OrderId> {
    if price in levels then levels[price] else []
  }

  function SetFifo(levels: Levels, price: nat, ids: seq<OrderId>): Levels {
    if ids == [] then levels - {price} else levels[price := ids]
  }

  const PRICE_LIMIT: nat := 0x1_0000_0000

  predicate Better(side: Side, p: nat, q: nat) {
    if side == Ask then p < q else p > q
  }

  // ---------------------------------------------------------------- operations

  function Empty(config: Config): Book {
    Book(config, map[], map[], map[])
  }

  function InsertStatusOf(b: Book, v: OrderView): InsertStatus {
    if v.remaining == 0 then InvalidQuantity
    else if !b.config.InRange(v.price) then PriceOutOfRange
    else if v.id in b.byId then DuplicateOrderId
    else if |b.byId| >= b.config.maxOrders then CapacityExhausted
    else InsertOk
  }

  /** Appends to the FIFO of the order's price; a refused order changes nothing. */
  function Insert(b: Book, v: OrderView): Book {
    if InsertStatusOf(b, v) != InsertOk then b
    else Rest(b, v)
  }

  function Rest(b: Book, v: OrderView): Book {
    var levels := LevelsOf(b, v.side);
    SetLevels(b, v.side, SetFifo(levels, v.price, Fifo(levels, v.price) + [v.id])).(byId := b.byId[v.id := v])
  }

  function RemoveId(ids: seq<OrderId>, id: OrderId): seq<OrderId> {
    if ids == [] then []
    else if ids[0] == id then ids[1..]
    else [ids[0]] + RemoveId(ids[1..], id)
  }

  function Erase(b: Book, id: OrderId): Book {
    if id !in b.byId then b
    else
      var v := b.byId[id];
      var levels := LevelsOf(b, v.side);
      SetLevels(b, v.side, SetFifo(levels, v.price, RemoveId(Fifo(levels, v.price), id))).(byId := b.byId - {id})
  }

  function EraseResultOf(b: Book, id: OrderId): EraseResult {
    if id in b.byId then Erased(b.byId[id]) else EraseNotFound
  }

  function SetRemaining(b: Book, id: OrderId, remaining: Quantity): Book {
    if remaining == 0 || id !in b.byId then b
    else b.(byId := b.byId[id := b.byId[id].(remaining := remaining)])
  }

  function SetResultOf(b: Book, id: OrderId, remaining: Quantity): SetResult {
    if remaining == 0 then SetInvalidQuantity
    else if id !in b.byId then SetNotFound
    else SetOk(b.byId[id].remaining)
  }

  /** The best of a set of prices: the lowest for asks, the highest for bids. */
  ghost function BestKey(side: Side, keys: set<nat>): (p: nat)
    requires keys != {}
    ensures p in keys && forall q :: q in keys && q != p ==> Better(side, p, q)
    decreases |keys|
  {
    var x :| x in keys;
    var rest := keys - {x};
    if rest == {} then
      OnlyMember(keys, x);
      x
    else
      var y := BestKey(side, rest);
      BestOfTwo(side, keys, x, y);
      if Better(side, x, y) then x else y
  }

  lemma OnlyMember(keys: set<nat>, x: nat)
    requires x in keys && keys - {x} == {}
    ensures forall q :: q in keys ==> q == x
  {
    forall q | q in keys
      ensures q == x
    {
      assert q !in keys - {x};
    }
  }

  lemma BestOfTwo(side: Side, keys: set<nat>, x: nat, y: nat)
    requires x in keys && y in keys - {x} && forall q :: q in keys - {x} && q != y ==> Better(side, y, q)
    ensures var p := if Better(side, x, y) then x else y;
            forall q :: q in keys && q != p ==> Better(side, p, q)
  {
    var p := if Better(side, x, y) then x else y;
    forall q | q in keys && q != p
      ensures Better(side, p, q)
    {
      assert q == x || q in keys - {x};
    }
  }

  /** The oldest order at the best price. */
  ghost function Best(b: Book, side: Side): Option<OrderView> {
    var levels := LevelsOf(b, side);
    if levels.Keys == {} then None
    else
      var ids := levels[BestKey(side, levels.Keys)];
      if ids == [] || ids[0] !in b.byId then None else Some(b.byId[ids[0]])
  }

  // ---------------------------------------------------------------- well-formed books

  ghost predicate Belongs(byId: map<OrderId, OrderView>, id: OrderId, side: Side, price: nat) {
    id in byId && byId[id].side == side && byId[id].price == price
  }

  /** A stored level: not empty, each of its orders once, all of that side and price. */
  ghost predicate LevelWF(byId: map<OrderId, OrderView>, side: Side, price: nat, ids: seq<OrderId>) {
    ids != [] && NoRepeats(ids) && forall i :: 0 <= i < |ids| ==> Belongs(byId, ids[i], side, price)
  }

  ghost predicate SideWF(levels: Levels, byId: map<OrderId, OrderView>, side: Side) {
    forall p :: p in levels ==> LevelWF(byId, side, p, levels[p])
  }

  /** A known order: consistent, in range, and in the FIFO of its price. */
  ghost predicate OrderWF(b: Book, id: OrderId)
    requires id in b.byId
  {
    var v := b.byId[id];
    v.id == id && v.remaining > 0 && b.config.InRange(v.price) && id in Fifo(LevelsOf(b, v.side), v.price)
  }

  ghost predicate OrdersWF(b: Book) {
    forall id :: id in b.byId ==> OrderWF(b, id)
  }

  ghost predicate WF(b: Book) {
    && |b.byId| <= b.config.maxOrders
    && SideWF(b.bids, b.byId, Bid) && SideWF(b.asks, b.byId, Ask)
    && OrdersWF(b)
  }

  lemma EmptyWF(config: Config)
    ensures WF(Empty(config))
  {
  }

  /** The level of a known order. */
  lemma LevelOfOrder(b: Book, id: OrderId)
    requires WF(b) && id in b.byId
    ensures var v := b.byId[id];
            v.price in LevelsOf(b, v.side) && LevelWF(b.byId, v.side, v.price, LevelsOf(b, v.side)[v.price])
            && id in LevelsOf(b, v.side)[v.price]
  {
    assert OrderWF(b, id);
  }

  lemma RestWF(b: Book, v: OrderView)
    requires WF(b) && InsertStatusOf(b, v) == InsertOk
    ensures WF(Rest(b, v))
  {
    hide SideWF, OrdersWF;
    assert Rest(b, v).byId.Keys == b.byId.Keys + {v.id};
    RestSideWF(LevelsOf(b, v.side), b.byId, v);
    OtherSideWF(LevelsOf(b, Opposite(v.side)), b.byId, v, Opposite(v.side));
    RestOrdersWF(b, v);
  }

  lemma RestOrdersWF(b: Book, v: OrderView)
    requires OrdersWF(b) && InsertStatusOf(b, v) == InsertOk
    ensures OrdersWF(Rest(b, v))
  {
    hide OrderWF;
    forall id | id in Rest(b, v).byId
      ensures OrderWF(Rest(b, v), id)
    {
      RestOrderWF(b, v, id);
    }
  }

  lemma RestOrderWF(b: Book, v: OrderView, id: OrderId)
    requires OrdersWF(b) && InsertStatusOf(b, v) == InsertOk
    requires id in b.byId || id == v.id
    ensures OrderWF(Rest(b, v), id)
  {
    var ids := Fifo(LevelsOf(b, v.side), v.price);
    if id == v.id {
      assert (ids + [v.id])[|ids|] == id;
    } else {
      assert OrderWF(b, id);
      assert id in ids ==> id in ids + [v.id];
    }
  }

  lemma RestSideWF(levels: Levels, byId: map<OrderId, OrderView>, v: OrderView)
    requires SideWF(levels, byId, v.side) && v.id !in byId
    ensures SideWF(SetFifo(levels, v.price, Fifo(levels, v.price) + [v.id]), byId[v.id := v], v.side)
  {
    var levels' := SetFifo(levels, v.price, Fifo(levels, v.price) + [v.id]);
    forall p | p in levels'
      ensures LevelWF(byId[v.id := v], v.side, p, levels'[p])
    {
      if p in levels {
        assert LevelWF(byId, v.side, p, levels[p]);
      }
    }
  }

  lemma OtherSideWF(levels: Levels, byId: map<OrderId, OrderView>, v: OrderView, side: Side)
    requires SideWF(levels, byId, side) && v.id !in byId
    ensures SideWF(levels, byId[v.id := v], side)
  {
    forall p | p in levels
      ensures LevelWF(byId[v.id := v], side, p, levels[p])
    {
      assert LevelWF(byId, side, p, levels[p]);
    }
  }

  lemma InsertWF(b: Book, v: OrderView)
    requires WF(b)
    ensures WF(Insert(b, v))
  {
    if InsertStatusOf(b, v) == InsertOk {
      RestWF(b, v);
    }
  }

  lemma {:induction false} RemoveIdFacts(ids: seq<OrderId>, id: OrderId)
    requires NoRepeats(ids)
    ensures NoRepeats(RemoveId(ids, id))
    ensures id !in RemoveId(ids, id)
    ensures forall x :: x != id ==> (x in RemoveId(ids, id) <==> x in ids)
    ensures id in ids ==> |RemoveId(ids, id)| == |ids| - 1
  {
    if ids != [] && ids[0] != id {
      var rest := ids[1..];
      RemoveIdFacts(rest, id);
      assert forall x :: x in ids <==> x == ids[0] || x in rest;
      assert ids[0] !in rest;
    }
  }

  lemma EraseWF(b: Book, id: OrderId)
    requires WF(b)
    ensures WF(Erase(b, id))
  {
    hide SideWF, LevelWF, NoRepeats, OrderWF, RemoveId;
    if id in b.byId {
      var v := b.byId[id];
      var b' := Erase(b, id);
      assert b.byId.Keys == b'.byId.Keys + {id};
      LevelOfOrder(b, id);
      EraseSideWF(LevelsOf(b, v.side), b.byId, id, v.side);
      EraseOtherSideWF(LevelsOf(b, Opposite(v.side)), b.byId, id, Opposite(v.side));
      forall x | x in b'.byId
        ensures OrderWF(b', x)
      {
        EraseOrderWF(b, id, x);
      }
    }
  }

  lemma EraseOrderWF(b: Book, id: OrderId, x: OrderId)
    requires WF(b) && id in b.byId && x in b.byId && x != id
    ensures x in Erase(b, id).byId && OrderWF(Erase(b, id), x)
  {
    hide SideWF, LevelWF, NoRepeats, RemoveId;
    var v := b.byId[id];
    assert OrderWF(b, x);
    FifoKeepsOthers(LevelsOf(b, v.side), b.byId, v.side, v.price, id, x);
  }

  lemma FifoKeepsOthers(levels: Levels, byId: map<OrderId, OrderView>, side: Side, price: nat, id: OrderId, x: OrderId)
    requires SideWF(levels, byId, side) && x != id
    ensures x in Fifo(SetFifo(levels, price, RemoveId(Fifo(levels, price), id)), price) <==> x in Fifo(levels, price)
  {
    if price in levels {
      assert LevelWF(byId, side, price, levels[price]);
    }
    RemoveIdFacts(Fifo(levels, price), id);
  }

  lemma EraseSideWF(levels: Levels, byId: map<OrderId, OrderView>, id: OrderId, side: Side)
    requires SideWF(levels, byId, side) && id in byId && byId[id].side == side
    ensures SideWF(SetFifo(levels, byId[id].price, RemoveId(Fifo(levels, byId[id].price), id)), byId - {id}, side)
  {
    var price := byId[id].price;
    var levels' := SetFifo(levels, price, RemoveId(Fifo(levels, price), id));
    forall p | p in levels'
      ensures LevelWF(byId - {id}, side, p, levels'[p])
    {
      assert LevelWF(byId, side, p, levels[p]);
      RemoveIdFacts(levels[p], id);
      forall i | 0 <= i < |levels'[p]|
        ensures Belongs(byId - {id}, levels'[p][i], side, p)
      {
        assert levels'[p][i] in levels'[p];
        assert levels'[p][i] in levels[p];
      }
    }
  }

  lemma EraseOtherSideWF(levels: Levels, byId: map<OrderId, OrderView>, id: OrderId, side: Side)
    requires SideWF(levels, byId, side) && id in byId && byId[id].side != side
    ensures SideWF(levels, byId - {id}, side)
  {
    forall p | p in levels
      ensures LevelWF(byId - {id}, side, p, levels[p])
    {
      assert LevelWF(byId, side, p, levels[p]);
      forall i | 0 <= i < |levels[p]|
        ensures Belongs(byId - {id}, levels[p][i], side, p)
      {
        assert Belongs(byId, levels[p][i], side, p);
      }
    }
  }

  lemma SetRemainingWF(b: Book, id: OrderId, remaining: Quantity)
    requires WF(b)
    ensures WF(SetRemaining(b, id, remaining))
  {
    hide SideWF, OrderWF;
    if remaining != 0 && id in b.byId {
      var b' := SetRemaining(b, id, remaining);
      assert b'.byId.Keys == b.byId.Keys;
      SetRemainingSideWF(b.bids, b.byId, id, remaining, Bid);
      SetRemainingSideWF(b.asks, b.byId, id, remaining, Ask);
      forall x | x in b'.byId
        ensures OrderWF(b', x)
      {
        SetRemainingOrderWF(b, id, remaining, x);
      }
    }
  }

  lemma SetRemainingOrderWF(b: Book, id: OrderId, remaining: Quantity, x: OrderId)
    requires OrdersWF(b) && id in b.byId && remaining > 0 && x in b.byId
    ensures OrderWF(SetRemaining(b, id, remaining), x)
  {
    assert OrderWF(b, x);
  }

  lemma SetRemainingSideWF(levels: Levels, byId: map<OrderId, OrderView>, id: OrderId, remaining: Quantity, side: Side)
    requires SideWF(levels, byId, side) && id in byId
    ensures SideWF(levels, byId[id := byId[id].(remaining := remaining)], side)
  {
    forall p | p in levels
      ensures LevelWF(byId[id := byId[id].(remaining := remaining)], side, p, levels[p])
    {
      assert LevelWF(byId, side, p, levels[p]);
    }
  }
}
