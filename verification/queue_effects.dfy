/** What the book operations do to the price-time queues. */
module QueueEffects {
  import opened BookTypes
  import R = ReferenceBooks
  import opened BookQueues

  /** The orders by id agree except for one id. */
  ghost predicate AgreeExcept(byId: map<OrderId, OrderView>, byId': map<OrderId, OrderView>, id: OrderId) {
    forall x :: x != id ==> ViewOf(byId', x) == ViewOf(byId, x)
  }

  lemma SameRankExcept(levels: R.Levels, byId: map<OrderId, OrderView>, side: Side, id: OrderId, levels': R.Levels,
                       byId': map<OrderId, OrderView>, price: nat)
    requires R.SideWF(levels, byId, side) && AgreeExcept(byId, byId', id)
    requires R.Fifo(levels', price) == R.Fifo(levels, price)
    requires id in byId ==> byId[id].side != side || byId[id].price != price
    ensures SameRank(levels, byId, levels', byId', price)
  {
    var ids := R.Fifo(levels, price);
    forall i | 0 <= i < |ids|
      ensures ids[i] != id
    {
      assert R.LevelWF(byId, side, price, levels[price]);
      assert R.Belongs(byId, ids[i], side, price);
    }
    assert Views(byId', ids) == Views(byId, ids);
  }

  /** Replacing the level of rank `r` replaces its piece of the flattening. */
  lemma Splice(levels: R.Levels, byId: map<OrderId, OrderView>, levels': R.Levels, byId': map<OrderId, OrderView>,
               up: bool, r: nat, end: nat)
    requires r < end <= R.PRICE_LIMIT
    requires forall q :: 0 <= q < end && q != r ==> SameRank(levels, byId, levels', byId', PriceAt(up, q))
    ensures Flat(levels', byId', up, 0, end) ==
            Flat(levels, byId, up, 0, r) + Views(byId', R.Fifo(levels', PriceAt(up, r)))
              + Flat(levels, byId, up, r + 1, end)
  {
    hide Flat, SameRank, Views;
    FlatFrame(levels, byId, levels', byId', up, 0, r);
    FlatFrame(levels, byId, levels', byId', up, r + 1, end);
    FlatConcat(levels', byId', up, 0, r, end);
    FlatFirst(levels', byId', up, r, end);
  }

  lemma FlatFirst(levels: R.Levels, byId: map<OrderId, OrderView>, up: bool, lo: nat, hi: nat)
    requires lo < hi <= R.PRICE_LIMIT
    ensures Flat(levels, byId, up, lo, hi)
      == Views(byId, R.Fifo(levels, PriceAt(up, lo))) + Flat(levels, byId, up, lo + 1, hi)
  {
  }

  lemma SelfSplice(levels: R.Levels, byId: map<OrderId, OrderView>, up: bool, r: nat, end: nat)
    requires r < end <= R.PRICE_LIMIT
    ensures Flat(levels, byId, up, 0, end) ==
            Flat(levels, byId, up, 0, r) + Views(byId, R.Fifo(levels, PriceAt(up, r)))
              + Flat(levels, byId, up, r + 1, end)
    ensures Flat(levels, byId, up, 0, r + 1)
      == Flat(levels, byId, up, 0, r) + Views(byId, R.Fifo(levels, PriceAt(up, r)))
  {
    Splice(levels, byId, levels, byId, up, r, end);
    Splice(levels, byId, levels, byId, up, r, r + 1);
  }

  /** The levels of a side agree except at one price. */
  ghost predicate LevelsExcept(levels: R.Levels, levels': R.Levels, price: nat) {
    forall q: nat :: q != price ==> R.Fifo(levels', q) == R.Fifo(levels, q)
  }

  lemma SideSplice(levels: R.Levels, byId: map<OrderId, OrderView>, side: Side, id: OrderId, levels': R.Levels,
                   byId': map<OrderId, OrderView>, up: bool, price: nat)
    requires R.SideWF(levels, byId, side) && AgreeExcept(byId, byId', id) && LevelsExcept(levels, levels', price)
    requires price < R.PRICE_LIMIT && (id in byId ==> byId[id].side == side && byId[id].price == price)
    ensures 0 <= Rank(up, price) < R.PRICE_LIMIT && PriceAt(up, Rank(up, price)) == price
    ensures var r := Rank(up, price);
            Flat(levels', byId', up, 0, R.PRICE_LIMIT) ==
            Flat(levels, byId, up, 0, r) + Views(byId', R.Fifo(levels', price))
              + Flat(levels, byId, up, r + 1, R.PRICE_LIMIT)
  {
    var r := Rank(up, price);
    forall q | 0 <= q < R.PRICE_LIMIT && q != r
      ensures SameRank(levels, byId, levels', byId', PriceAt(up, q))
    {
      SameRankExcept(levels, byId, side, id, levels', byId', PriceAt(up, q));
    }
    hide Flat;
    Splice(levels, byId, levels', byId', up, r, R.PRICE_LIMIT);
  }

  lemma OtherSideSame(levels: R.Levels, byId: map<OrderId, OrderView>, side: Side, id: OrderId,
                      byId': map<OrderId, OrderView>, up: bool)
    requires R.SideWF(levels, byId, side) && AgreeExcept(byId, byId', id)
    requires id in byId ==> byId[id].side != side
    ensures Flat(levels, byId', up, 0, R.PRICE_LIMIT) == Flat(levels, byId, up, 0, R.PRICE_LIMIT)
  {
    forall q | 0 <= q < R.PRICE_LIMIT
      ensures SameRank(levels, byId, levels, byId', PriceAt(up, q))
    {
      SameRankExcept(levels, byId, side, id, levels, byId', PriceAt(up, q));
    }
    hide Flat;
    FlatFrame(levels, byId, levels, byId', up, 0, R.PRICE_LIMIT);
  }

  lemma WFSides(b: R.Book, side: Side)
    requires R.WF(b)
    ensures R.SideWF(R.LevelsOf(b, side), b.byId, side)
  {
  }

  /** No operation on one order touches the queue of the other side. */
  lemma OtherQueue(b: R.Book, side: Side, id: OrderId, b': R.Book)
    requires R.WF(b) && AgreeExcept(b.byId, b'.byId, id)
    requires R.LevelsOf(b', Opposite(side)) == R.LevelsOf(b, Opposite(side))
    requires id in b.byId ==> b.byId[id].side == side
    ensures Queue(b', Opposite(side)) == Queue(b, Opposite(side))
  {
    hide R.WF, Flat;
    WFSides(b, Opposite(side));
    OtherSideSame(R.LevelsOf(b, Opposite(side)), b.byId, Opposite(side), id, b'.byId, Opposite(side) == Ask);
  }

  /** A new order goes behind everything at least as good, and before everything worse. */
  lemma QueueAfterRest(b: R.Book, v: OrderView)
    requires R.WF(b) && R.InsertStatusOf(b, v) == InsertOk
    ensures Queue(R.Rest(b, v), Opposite(v.side)) == Queue(b, Opposite(v.side))
    ensures exists before, after :: InsertedBetween(Queue(b, v.side), Queue(R.Rest(b, v), v.side), v, before, after)
  {
    hide R.WF, Flat;
    var b' := R.Rest(b, v);
    var up := v.side == Ask;
    WFSides(b, v.side);
    OtherQueue(b, v.side, v.id, b');
    var levels, levels' := R.LevelsOf(b, v.side), R.LevelsOf(b', v.side);
    SideSplice(levels, b.byId, v.side, v.id, levels', b'.byId, up, v.price);
    var r := Rank(up, v.price);
    SelfSplice(levels, b.byId, up, r, R.PRICE_LIMIT);
    var ids := R.Fifo(levels, v.price);
    NewIdNotIn(levels, b.byId, v.side, v.price, v.id);
    assert Views(b'.byId, ids + [v.id]) == Views(b.byId, ids) + [v];
    var before, after := Flat(levels, b.byId, up, 0, r + 1), Flat(levels, b.byId, up, r + 1, R.PRICE_LIMIT);
    PricesAround(b, v.side, v.price, before, after);
    SpliceIn(Queue(b, v.side), Queue(b', v.side), Flat(levels, b.byId, up, 0, r), Views(b.byId, ids), v, after);
    assert InsertedBetween(Queue(b, v.side), Queue(b', v.side), v, before, after);
  }

  lemma SpliceIn(q: seq<OrderView>, q': seq<OrderView>, below: seq<OrderView>, here: seq<OrderView>, v: OrderView,
                 after: seq<OrderView>)
    requires q == below + here + after && q' == below + (here + [v]) + after
    ensures q == (below + here) + after && q' == (below + here) + [v] + after
  {
  }

  /** Ranks up to that of `price` are at least as good as it, later ones are worse. */
  lemma PricesAround(b: R.Book, side: Side, price: nat, before: seq<OrderView>, after: seq<OrderView>)
    requires R.WF(b) && price < R.PRICE_LIMIT
    requires var levels, up, r := R.LevelsOf(b, side), side == Ask, Rank(side == Ask, price);
             && before == Flat(levels, b.byId, up, 0, r + 1)
             && after == Flat(levels, b.byId, up, r + 1, R.PRICE_LIMIT)
    ensures forall i :: 0 <= i < |before| ==> !R.Better(side, price, before[i].price)
    ensures forall i :: 0 <= i < |after| ==> R.Better(side, price, after[i].price)
  {
    hide R.WF, Flat;
    var levels, up, r := R.LevelsOf(b, side), side == Ask, Rank(side == Ask, price);
    KnownIdsOf(b);
    WFSides(b, side);
    FlatMembers(levels, b.byId, side, up, 0, r + 1);
    FlatMembers(levels, b.byId, side, up, r + 1, R.PRICE_LIMIT);
    RanksArePrices(before, side, 0, r + 1, b.byId, price);
    RanksArePrices(after, side, r + 1, R.PRICE_LIMIT, b.byId, price);
  }

  lemma RanksArePrices(vs: seq<OrderView>, side: Side, lo: nat, hi: nat, byId: map<OrderId, OrderView>, price: nat)
    requires forall i :: 0 <= i < |vs| ==> InRank(side, side == Ask, lo, hi, byId, vs[i])
    ensures hi == Rank(side == Ask, price) + 1 ==> forall i :: 0 <= i < |vs| ==> !R.Better(side, price, vs[i].price)
    ensures lo == Rank(side == Ask, price) + 1 ==> forall i :: 0 <= i < |vs| ==> R.Better(side, price, vs[i].price)
  {
    forall i | 0 <= i < |vs|
      ensures lo <= Rank(side == Ask, vs[i].price) < hi
    {
      assert InRank(side, side == Ask, lo, hi, byId, vs[i]);
    }
  }

  ghost predicate InsertedBetween(q: seq<OrderView>, q': seq<OrderView>, v: OrderView, before: seq<OrderView>,
                                  after: seq<OrderView>) {
    && q == before + after && q' == before + [v] + after
    && (forall i :: 0 <= i < |before| ==> !R.Better(v.side, v.price, before[i].price))
    && (forall i :: 0 <= i < |after| ==> R.Better(v.side, v.price, after[i].price))
  }

  lemma KnownIdsOf(b: R.Book)
    requires R.WF(b)
    ensures forall id :: id in b.byId ==> b.byId[id].id == id && b.byId[id].remaining > 0
  {
    assert forall id :: id in b.byId ==> R.OrderWF(b, id);
  }

  lemma NewIdNotIn(levels: R.Levels, byId: map<OrderId, OrderView>, side: Side, price: nat, id: OrderId)
    requires R.SideWF(levels, byId, side) && id !in byId
    ensures id !in R.Fifo(levels, price)
  {
    if price in levels {
      assert R.LevelWF(byId, side, price, levels[price]);
    }
  }

  /** Erasing the best order drops the head of its queue. */
  lemma QueueAfterEraseBest(b: R.Book, side: Side)
    requires R.WF(b) && Queue(b, side) != []
    ensures var v := Queue(b, side)[0];
            && Queue(R.Erase(b, v.id), side) == Queue(b, side)[1..]
            && Queue(R.Erase(b, v.id), Opposite(side)) == Queue(b, Opposite(side))
  {
    hide R.WF, Flat;
    var up := side == Ask;
    BestIsFirst(b, side);
    QueueFromBest(b, side);
    var v := Queue(b, side)[0];
    var levels := R.LevelsOf(b, side);
    var p := R.BestKey(side, levels.Keys);
    var ids := levels[p];
    HeadOfBest(b, side, p);
    var b' := R.Erase(b, v.id);
    var levels' := R.LevelsOf(b', side);
    WFSides(b, side);
    OtherQueue(b, side, v.id, b');
    SideSplice(levels, b.byId, side, v.id, levels', b'.byId, up, p);
    NothingBeforeBest(b, side, p);
    assert R.Fifo(levels', p) == ids[1..];
    assert Views(b'.byId, ids[1..]) == Views(b.byId, ids)[1..];
    DropHead([], Views(b.byId, ids), Flat(levels, b.byId, up, Rank(up, p) + 1, R.PRICE_LIMIT));
  }

  /** The head of the queue is the head of the best level, and occurs there once. */
  lemma HeadOfBest(b: R.Book, side: Side, p: nat)
    requires R.WF(b) && R.LevelsOf(b, side).Keys != {} && p == R.BestKey(side, R.LevelsOf(b, side).Keys)
    ensures p < R.PRICE_LIMIT && R.LevelsOf(b, side)[p] != []
    ensures var ids := R.LevelsOf(b, side)[p];
            && ids[0] in b.byId && b.byId[ids[0]].id == ids[0] && b.byId[ids[0]].side == side
            && b.byId[ids[0]].price == p
            && Queue(b, side) != [] && Queue(b, side)[0] == b.byId[ids[0]]
            && forall i :: 0 < i < |ids| ==> ids[i] != ids[0]
  {
    QueueFromBest(b, side);
    StoredPrice(b, side, p);
    KnownIdsOf(b);
    var ids := R.LevelsOf(b, side)[p];
    assert R.Belongs(b.byId, ids[0], side, p);
  }

  /** Reducing the best order keeps its place at the head of the queue. */
  lemma QueueAfterSetBest(b: R.Book, side: Side, r: Quantity)
    requires R.WF(b) && Queue(b, side) != [] && r > 0
    ensures var v := Queue(b, side)[0];
            && Queue(R.SetRemaining(b, v.id, r), side) == [v.(remaining := r)] + Queue(b, side)[1..]
            && Queue(R.SetRemaining(b, v.id, r), Opposite(side)) == Queue(b, Opposite(side))
  {
    hide R.WF, Flat;
    var up := side == Ask;
    BestIsFirst(b, side);
    QueueFromBest(b, side);
    var v := Queue(b, side)[0];
    var levels := R.LevelsOf(b, side);
    var p := R.BestKey(side, levels.Keys);
    var ids := levels[p];
    HeadOfBest(b, side, p);
    var b' := R.SetRemaining(b, v.id, r);
    WFSides(b, side);
    OtherQueue(b, side, v.id, b');
    SideSplice(levels, b.byId, side, v.id, levels, b'.byId, up, p);
    NothingBeforeBest(b, side, p);
    HeadReplaced(b.byId, ids, v.(remaining := r), b'.byId);
    var rest := Flat(levels, b.byId, up, Rank(up, p) + 1, R.PRICE_LIMIT);
    DropHead([v.(remaining := r)], Views(b.byId, ids), rest);
  }

  lemma HeadReplaced(byId: map<OrderId, OrderView>, ids: seq<OrderId>, v: OrderView, byId': map<OrderId, OrderView>)
    requires ids != [] && byId' == byId[ids[0] := v] && forall i :: 0 < i < |ids| ==> ids[i] != ids[0]
    ensures Views(byId', ids) == [v] + Views(byId, ids)[1..]
  {
  }

  lemma DropHead(head: seq<OrderView>, here: seq<OrderView>, rest: seq<OrderView>)
    requires here != []
    ensures [] + (head + here[1..]) + rest == head + (here + rest)[1..]
  {
  }
}
