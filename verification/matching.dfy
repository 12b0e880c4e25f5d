/** What greedy matching takes from the opposite side's price-time queue. */
module Matching {
  import opened BookTypes
  import R = ReferenceBooks
  import opened BookQueues
  import opened QueueEffects

  predicate Crosses(side: Side, price: PriceTick, resting: PriceTick) {
    if side == Bid then price >= resting else price <= resting
  }

  /** One execution: the resting order as the matcher found it, and the executed quantity. */
  datatype Fill = Fill(maker: OrderView, executed: Quantity)
  {
    predicate Full() {
      executed == maker.remaining
    }
  }

  /** What the matcher takes from the queue `q` for an order of `remaining` at `price`. */
  function Fills(q: seq<OrderView>, side: Side, price: PriceTick, remaining: Quantity): seq<Fill>
    decreases |q|
  {
    if remaining == 0 || q == [] || !Crosses(side, price, q[0].price) then []
    else
      [Fill(q[0], Min(remaining, q[0].remaining))]
      + Fills(q[1..], side, price, remaining - Min(remaining, q[0].remaining))
  }

  function Total(fills: seq<Fill>): nat {
    if fills == [] then 0 else fills[0].executed + Total(fills[1..])
  }

  function ApplyFill(b: R.Book, f: Fill): R.Book {
    if f.executed >= f.maker.remaining then R.Erase(b, f.maker.id)
    else R.SetRemaining(b, f.maker.id, f.maker.remaining - f.executed)
  }

  function ApplyFills(b: R.Book, fills: seq<Fill>): R.Book
    decreases |fills|
  {
    if fills == [] then b else ApplyFills(ApplyFill(b, fills[0]), fills[1..])
  }

  /** Everything in `q` an order at `price` could trade with, wherever it stands. */
  function CrossingQuantity(q: seq<OrderView>, side: Side, price: PriceTick): nat {
    if q == [] then 0
    else (if Crosses(side, price, q[0].price) then q[0].remaining else 0) + CrossingQuantity(q[1..], side, price)
  }

  /** No order is better than one before it. */
  ghost predicate PriceOrdered(side: Side, q: seq<OrderView>) {
    forall i, j :: 0 <= i < j < |q| ==> !R.Better(side, q[j].price, q[i].price)
  }

  ghost predicate AllPositive(q: seq<OrderView>) {
    forall i :: 0 <= i < |q| ==> q[i].remaining > 0
  }

  /** The fills take a prefix of the queue, each order in full except possibly the last. */
  ghost predicate TakesPrefix(q: seq<OrderView>, side: Side, price: PriceTick, fs: seq<Fill>) {
    && |fs| <= |q|
    && (forall i ::
        0 <= i < |fs| ==>
          fs[i].maker == q[i] && Crosses(side, price, q[i].price) && 0 < fs[i].executed <= q[i].remaining)
    && (forall i :: 0 <= i < |fs| - 1 ==> fs[i].Full())
  }

  /** The fills consume a prefix of the queue, and together the incoming quantity or everything
      that crosses, whichever is smaller. */
  lemma {:induction false} FillsClosedForm(q: seq<OrderView>, side: Side, price: PriceTick, remaining: Quantity)
    requires PriceOrdered(Opposite(side), q) && AllPositive(q)
    ensures TakesPrefix(q, side, price, Fills(q, side, price, remaining))
    ensures Total(Fills(q, side, price, remaining)) ==
            if remaining <= CrossingQuantity(q, side, price) then remaining else CrossingQuantity(q, side, price)
    decreases |q|
  {
    hide TakesPrefix;
    if remaining == 0 || q == [] {
      NothingTaken(q, side, price);
    } else if !Crosses(side, price, q[0].price) {
      NoneCrosses(q, side, price);
      NothingTaken(q, side, price);
    } else {
      var executed := Min(remaining, q[0].remaining);
      var fs := Fills(q[1..], side, price, remaining - executed);
      FillsClosedForm(q[1..], side, price, remaining - executed);
      OneMoreTaken(q, side, price, executed, fs);
      assert ([Fill(q[0], executed)] + fs)[1..] == fs;
    }
  }

  lemma NothingTaken(q: seq<OrderView>, side: Side, price: PriceTick)
    ensures TakesPrefix(q, side, price, [])
  {
  }

  lemma OneMoreTaken(q: seq<OrderView>, side: Side, price: PriceTick, executed: Quantity, fs: seq<Fill>)
    requires q != [] && TakesPrefix(q[1..], side, price, fs) && Crosses(side, price, q[0].price)
    requires 0 < executed <= q[0].remaining && (executed < q[0].remaining ==> fs == [])
    ensures TakesPrefix(q, side, price, [Fill(q[0], executed)] + fs)
  {
  }

  /** Behind an order that does not cross, none does. */
  lemma {:induction false} NoneCrosses(q: seq<OrderView>, side: Side, price: PriceTick)
    requires PriceOrdered(Opposite(side), q) && q != [] && !Crosses(side, price, q[0].price)
    ensures CrossingQuantity(q, side, price) == 0
    decreases |q|
  {
    if |q| > 1 {
      assert !R.Better(Opposite(side), q[1].price, q[0].price);
      NoneCrosses(q[1..], side, price);
    }
  }

  /** The queue of the makers afterwards: the last maker's rest, then the untouched orders. */
  function QueueAfter(q: seq<OrderView>, fills: seq<Fill>): seq<OrderView>
    requires |fills| <= |q|
  {
    if fills == [] || fills[|fills| - 1].executed >= fills[|fills| - 1].maker.remaining then q[|fills|..]
    else
      var last := fills[|fills| - 1];
      [last.maker.(remaining := last.maker.remaining - last.executed)] + q[|fills|..]
  }

  function FullCount(fills: seq<Fill>): nat {
    if fills == [] then 0 else (if fills[0].Full() then 1 else 0) + FullCount(fills[1..])
  }

  /** Applying the fills leaves the computed queue of makers, the other queue alone, and a
      well-formed book without the makers that were filled. */
  lemma {:induction false} ApplyFillsQueues(b: R.Book, side: Side, price: PriceTick, remaining: Quantity)
    requires R.WF(b)
    ensures var q, fs := Queue(b, Opposite(side)), Fills(Queue(b, Opposite(side)), side, price, remaining);
            var b' := ApplyFills(b, fs);
            && R.WF(b') && b'.config == b.config
            && |fs| <= |q| && Queue(b', Opposite(side)) == QueueAfter(q, fs)
            && Queue(b', side) == Queue(b, side)
            && b'.byId.Keys <= b.byId.Keys && |b'.byId| == |b.byId| - FullCount(fs)
    decreases |Queue(b, Opposite(side))|
  {
    hide Queue, R.WF;
    var opp := Opposite(side);
    var q := Queue(b, opp);
    var fs := Fills(q, side, price, remaining);
    if fs == [] {
      assert q[0..] == q;
    } else {
      var x := fs[0];
      var left := remaining - x.executed;
      BestIsFirst(b, opp);
      var b1 := ApplyFill(b, x);
      assert Opposite(opp) == side;
      ApplyFillStep(b, opp, x.executed);
      if x.Full() {
        assert Queue(b1, opp) == q[1..];
        ApplyFillsQueues(b1, side, price, left);
        QueueAfterStep(q, fs);
      } else {
        assert left == 0;
        assert fs == [x] + Fills(q[1..], side, price, left);
        assert ApplyFills(b, fs) == b1;
      }
    }
  }

  lemma QueueAfterStep(q: seq<OrderView>, fills: seq<Fill>)
    requires 0 < |fills| <= |q| && fills[0].Full()
    ensures QueueAfter(q, fills) == QueueAfter(q[1..], fills[1..])
  {
    assert q[1..][|fills| - 1..] == q[|fills|..];
  }

  /** One fill against the best order. */
  lemma ApplyFillStep(b: R.Book, side: Side, executed: Quantity)
    requires R.WF(b) && Queue(b, side) != [] && 0 < executed <= Queue(b, side)[0].remaining
    ensures var v := Queue(b, side)[0];
            var b' := ApplyFill(b, Fill(v, executed));
            && R.WF(b') && b'.config == b.config
            && Queue(b', side)
              == (if executed == v.remaining then [] else [v.(remaining := v.remaining - executed)])
                + Queue(b, side)[1..]
            && Queue(b', Opposite(side)) == Queue(b, Opposite(side))
            && b'.byId.Keys <= b.byId.Keys && |b'.byId| == |b.byId| - (if executed == v.remaining then 1 else 0)
  {
    hide Queue, R.WF;
    BestIsFirst(b, side);
    var v := Queue(b, side)[0];
    if executed == v.remaining {
      QueueAfterEraseBest(b, side);
      R.EraseWF(b, v.id);
      assert R.Erase(b, v.id).byId.Keys + {v.id} == b.byId.Keys;
    } else {
      QueueAfterSetBest(b, side, v.remaining - executed);
      R.SetRemainingWF(b, v.id, v.remaining - executed);
      assert R.SetRemaining(b, v.id, v.remaining - executed).byId.Keys == b.byId.Keys;
    }
  }

  // ---------------------------------------------------------------- crossed and uncrossed books

  /** A price-time queue is ordered by price. */
  lemma QueueOrdered(b: R.Book, side: Side)
    requires R.WF(b)
    ensures PriceOrdered(side, Queue(b, side)) && AllPositive(Queue(b, side))
    ensures forall i :: 0 <= i < |Queue(b, side)| ==> Queue(b, side)[i].side == side && Queue(b, side)[i].id in b.byId
  {
    hide R.WF, Flat;
    KnownIdsOf(b);
    WFSides(b, side);
    var levels, up := R.LevelsOf(b, side), side == Ask;
    FlatOrdered(levels, b.byId, side, 0, R.PRICE_LIMIT);
    FlatMembers(levels, b.byId, side, up, 0, R.PRICE_LIMIT);
    var q := Queue(b, side);
    forall i | 0 <= i < |q|
      ensures q[i].remaining > 0 && q[i].side == side && q[i].id in b.byId
    {
      assert InRank(side, up, 0, R.PRICE_LIMIT, b.byId, q[i]);
    }
  }

  lemma {:induction false} FlatOrdered(levels: R.Levels, byId: map<OrderId, OrderView>, side: Side, lo: nat, hi: nat)
    requires hi <= R.PRICE_LIMIT && R.SideWF(levels, byId, side)
    requires forall id :: id in byId ==> byId[id].id == id
    ensures PriceOrdered(side, Flat(levels, byId, side == Ask, lo, hi))
    decreases hi - lo
  {
    if lo < hi {
      FlatOrdered(levels, byId, side, lo + 1, hi);
      FlatMembers(levels, byId, side, side == Ask, lo + 1, hi);
      var p := PriceAt(side == Ask, lo);
      LevelDistinct(levels, byId, side, p, side == Ask, lo);
      hide R.SideWF;
      RanksAreOrdered(byId, side, lo, hi, Views(byId, R.Fifo(levels, p)), Flat(levels, byId, side == Ask, lo + 1, hi));
    }
  }

  lemma RanksAreOrdered(byId: map<OrderId, OrderView>, side: Side, lo: nat, hi: nat, here: seq<OrderView>,
                        rest: seq<OrderView>)
    requires PriceOrdered(side, rest)
    requires forall i :: 0 <= i < |here| ==> InRank(side, side == Ask, lo, lo + 1, byId, here[i])
    requires forall i :: 0 <= i < |rest| ==> InRank(side, side == Ask, lo + 1, hi, byId, rest[i])
    ensures PriceOrdered(side, here + rest)
  {
    var q := here + rest;
    forall i, j | 0 <= i < j < |q|
      ensures !R.Better(side, q[j].price, q[i].price)
    {
      if i < |here| {
        assert InRank(side, side == Ask, lo, lo + 1, byId, here[i]);
        if j < |here| {
          assert InRank(side, side == Ask, lo, lo + 1, byId, here[j]);
        } else {
          assert InRank(side, side == Ask, lo + 1, hi, byId, rest[j - |here|]);
        }
      }
    }
  }

  /** No resting bid would trade with a resting ask. */
  ghost predicate Uncrossed(b: R.Book) {
    NoneMeet(Queue(b, Bid), Queue(b, Ask))
  }

  ghost predicate NoneMeet(bids: seq<OrderView>, asks: seq<OrderView>) {
    forall i, j :: 0 <= i < |bids| && 0 <= j < |asks| ==> bids[i].price < asks[j].price
  }

  lemma FillsTail(q: seq<OrderView>, side: Side, price: PriceTick, quantity: Quantity)
    requires q != [] && Crosses(side, price, q[0].price) && Total(Fills(q, side, price, quantity)) < quantity
    ensures var x := Min(quantity, q[0].remaining);
            var first, rest := Fill(q[0], x), Fills(q[1..], side, price, quantity - x);
            && Fills(q, side, price, quantity) == [first] + rest && first.Full() && ([first] + rest)[1..] == rest
            && Total(rest) < quantity - x && FullCount([first] + rest) == 1 + FullCount(rest)
  {
    var x := Min(quantity, q[0].remaining);
    var first, rest := Fill(q[0], x), Fills(q[1..], side, price, quantity - x);
    assert ([first] + rest)[1..] == rest;
    assert Total([first] + rest) == x + Total(rest);
  }

  /** After the fills, a remaining incoming order crosses nothing that still rests. */
  lemma {:induction false} LeftoverCrossesNothing(q: seq<OrderView>, side: Side, price: PriceTick, quantity: Quantity)
    requires PriceOrdered(Opposite(side), q) && AllPositive(q)
    requires Total(Fills(q, side, price, quantity)) < quantity
    ensures var fs := Fills(q, side, price, quantity);
            && |fs| <= |q| && QueueAfter(q, fs) == q[|fs|..] && FullCount(fs) == |fs|
            && forall i :: |fs| <= i < |q| ==> !Crosses(side, price, q[i].price)
    decreases |q|
  {
    if q != [] && Crosses(side, price, q[0].price) {
      var x := Min(quantity, q[0].remaining);
      var first, rest := Fill(q[0], x), Fills(q[1..], side, price, quantity - x);
      FillsTail(q, side, price, quantity);
      LeftoverCrossesNothing(q[1..], side, price, quantity - x);
      QueueAfterStep(q, [first] + rest);
      hide Fills, QueueAfter, Crosses;
      assert forall i :: 1 <= i < |q| ==> q[i] == q[1..][i - 1];
      assert q[1..][|rest|..] == q[|rest| + 1..];
    } else if q != [] {
      forall i | 0 <= i < |q|
        ensures !Crosses(side, price, q[i].price)
      {
        assert i > 0 ==> !R.Better(Opposite(side), q[i].price, q[0].price);
      }
    }
  }

  ghost predicate PricesFrom(q: seq<OrderView>, others: seq<OrderView>) {
    forall j :: 0 <= j < |others| ==> Quotes(q, others[j].price)
  }

  ghost predicate Quotes(q: seq<OrderView>, price: PriceTick) {
    exists i :: 0 <= i < |q| && q[i].price == price
  }

  /** The makers' queue afterwards holds prices of the makers' queue before. */
  lemma QueueAfterPrices(q: seq<OrderView>, fills: seq<Fill>)
    requires |fills| <= |q| && forall i :: 0 <= i < |fills| ==> fills[i].maker == q[i]
    ensures PricesFrom(q, QueueAfter(q, fills))
  {
    var q' := QueueAfter(q, fills);
    forall j | 0 <= j < |q'|
      ensures Quotes(q, q'[j].price)
    {
      assert q[|q| - |q'| + j].price == q'[j].price;
    }
  }

  // ---------------------------------------------------------------- one limit order

  lemma {:induction false} TotalAtMost(q: seq<OrderView>, side: Side, price: PriceTick, quantity: Quantity)
    ensures Total(Fills(q, side, price, quantity)) <= quantity
    decreases |q|
  {
    if quantity == 0 || q == [] || !Crosses(side, price, q[0].price) {
    } else {
      var x := Min(quantity, q[0].remaining);
      TotalAtMost(q[1..], side, price, quantity - x);
      assert ([Fill(q[0], x)] + Fills(q[1..], side, price, quantity - x))[1..]
        == Fills(q[1..], side, price, quantity - x);
    }
  }

  /** The executions of an incoming order, whose `remaining` is its quantity. */
  function OrderFills(b: R.Book, o: OrderView): seq<Fill> {
    Fills(Queue(b, Opposite(o.side)), o.side, o.price, o.remaining)
  }

  /** What is left of an incoming order after matching. */
  function Leftover(b: R.Book, o: OrderView): Quantity {
    TotalAtMost(Queue(b, Opposite(o.side)), o.side, o.price, o.remaining);
    o.remaining - Total(OrderFills(b, o))
  }

  function AfterMatching(b: R.Book, o: OrderView): R.Book {
    ApplyFills(b, OrderFills(b, o))
  }

  /** The order that tries to rest. */
  function Residual(b: R.Book, o: OrderView): OrderView {
    o.(remaining := Leftover(b, o))
  }

  function RestStatus(b: R.Book, o: OrderView): InsertStatus {
    R.InsertStatusOf(AfterMatching(b, o), Residual(b, o))
  }

  /** The book after an accepted order: matched, and the rest inserted if there is any. */
  function AfterOrder(b: R.Book, o: OrderView): R.Book {
    if Leftover(b, o) == 0 then AfterMatching(b, o) else R.Insert(AfterMatching(b, o), Residual(b, o))
  }

  // ---------------------------------------------------------------- the loop

  /** The state of the match loop: `done` has been executed, and what is still to come is what
      the present book gives for the remaining quantity. */
  ghost predicate MatchState(b0: R.Book, o: OrderView, done: seq<Fill>, b: R.Book, remaining: Quantity) {
    && R.WF(b) && b == ApplyFills(b0, done)
    && OrderFills(b0, o) == done + Fills(Queue(b, Opposite(o.side)), o.side, o.price, remaining)
    && remaining + Total(done) == o.remaining
  }

  lemma MatchBegin(b0: R.Book, o: OrderView)
    requires R.WF(b0)
    ensures MatchState(b0, o, [], b0, o.remaining)
  {
    hide R.WF, Queue;
    assert [] + OrderFills(b0, o) == OrderFills(b0, o);
  }

  lemma {:induction false} FillsSnoc(b: R.Book, fills: seq<Fill>, f: Fill)
    ensures ApplyFills(b, fills + [f]) == ApplyFill(ApplyFills(b, fills), f)
    ensures Total(fills + [f]) == Total(fills) + f.executed
    decreases |fills|
  {
    hide ApplyFill;
    if fills == [] {
      assert [f][1..] == [];
      assert ApplyFills(ApplyFill(b, f), []) == ApplyFill(b, f);
    } else {
      FillsSnoc(ApplyFill(b, fills[0]), fills[1..], f);
      assert (fills + [f])[1..] == fills[1..] + [f];
    }
  }

  /** One round of the loop. Neither the erase nor the update it makes can fail. */
  lemma MatchStep(b0: R.Book, o: OrderView, done: seq<Fill>, b: R.Book, remaining: Quantity, v: OrderView)
    requires MatchState(b0, o, done, b, remaining) && remaining > 0
    requires R.Best(b, Opposite(o.side)) == Some(v) && Crosses(o.side, o.price, v.price)
    ensures var x := Min(remaining, v.remaining);
            && 0 < x && MatchState(b0, o, done + [Fill(v, x)], ApplyFill(b, Fill(v, x)), remaining - x)
            && R.EraseResultOf(b, v.id) == Erased(v)
            && (x < v.remaining ==> R.SetResultOf(b, v.id, v.remaining - x) == SetOk(v.remaining))
            && OrderFills(b0, o)
              == done + [Fill(v, x)]
                + Fills(Queue(ApplyFill(b, Fill(v, x)), Opposite(o.side)), o.side, o.price, remaining - x)
  {
    hide R.WF, Queue, R.Best, ApplyFill;
    var opp := Opposite(o.side);
    var q := Queue(b, opp);
    BestIsFirst(b, opp);
    var x := Min(remaining, v.remaining);
    var f := Fill(v, x);
    ApplyFillStep(b, opp, x);
    FillsSnoc(b0, done, f);
    var b1 := ApplyFill(b, f);
    assert Fills(q, o.side, o.price, remaining) == [f] + Fills(Queue(b1, opp), o.side, o.price, remaining - x) by {
      if x < v.remaining {
        assert remaining - x == 0;
      } else {
        assert Queue(b1, opp) == q[1..];
      }
    }
    assert done + ([f] + Fills(Queue(b1, opp), o.side, o.price, remaining - x))
      == done + [f] + Fills(Queue(b1, opp), o.side, o.price, remaining - x);
  }

  /** The loop ends having executed exactly the fills of the order. */
  lemma MatchEnd(b0: R.Book, o: OrderView, done: seq<Fill>, b: R.Book, remaining: Quantity)
    requires MatchState(b0, o, done, b, remaining)
    requires var best := R.Best(b, Opposite(o.side));
             remaining == 0 || best == None || !Crosses(o.side, o.price, best.value.price)
    ensures done == OrderFills(b0, o) && b == AfterMatching(b0, o) && remaining == Leftover(b0, o)
  {
    hide R.WF, Queue, R.Best, ApplyFills;
    BestIsFirst(b, Opposite(o.side));
  }

  /** Traded plus left is the quantity; every maker trades at its own price, in queue order,
      and in full except possibly the last. */
  lemma MatchingConserves(b: R.Book, o: OrderView)
    requires R.WF(b)
    ensures var q, fs := Queue(b, Opposite(o.side)), OrderFills(b, o);
            && Total(fs) + Leftover(b, o) == o.remaining
            && TakesPrefix(q, o.side, o.price, fs)
            && (Leftover(b, o) == 0 <==> o.remaining <= CrossingQuantity(q, o.side, o.price))
            && (Leftover(b, o) > 0 ==> Total(fs) == CrossingQuantity(q, o.side, o.price))
  {
    hide Queue, R.WF;
    QueueOrdered(b, Opposite(o.side));
    FillsClosedForm(Queue(b, Opposite(o.side)), o.side, o.price, o.remaining);
  }

  /** Nothing was executed exactly if the whole quantity is left. */
  lemma NothingFilled(b: R.Book, o: OrderView)
    requires R.WF(b) && o.remaining > 0
    ensures Leftover(b, o) == o.remaining <==> OrderFills(b, o) == []
  {
    hide Queue, R.WF;
    MatchingConserves(b, o);
  }

  /** The book stays well formed, and keeps its configuration and its other orders. */
  lemma AfterOrderWF(b: R.Book, o: OrderView)
    requires R.WF(b)
    ensures R.WF(AfterMatching(b, o)) && AfterMatching(b, o).config == b.config
    ensures R.WF(AfterOrder(b, o)) && AfterOrder(b, o).config == b.config
    ensures AfterMatching(b, o).byId.Keys <= b.byId.Keys
    ensures AfterOrder(b, o).byId.Keys <= b.byId.Keys + {o.id}
  {
    hide Queue, R.WF;
    ApplyFillsQueues(b, o.side, o.price, o.remaining);
    R.InsertWF(AfterMatching(b, o), Residual(b, o));
  }

  /** An order with a fresh id that has traded and still has quantity left rests exactly when
      its price is in range: neither capacity nor its id can be in the way. */
  lemma PartlyExecutedRests(b: R.Book, o: OrderView)
    requires R.WF(b) && o.id !in b.byId
    requires OrderFills(b, o) != [] && Leftover(b, o) > 0
    ensures RestStatus(b, o) == if b.config.InRange(o.price) then InsertOk else PriceOutOfRange
  {
    hide Queue, R.WF;
    var q := Queue(b, Opposite(o.side));
    QueueOrdered(b, Opposite(o.side));
    ApplyFillsQueues(b, o.side, o.price, o.remaining);
    LeftoverCrossesNothing(q, o.side, o.price, o.remaining);
    SizeBound(b);
  }

  lemma SizeBound(b: R.Book)
    requires R.WF(b)
    ensures |b.byId| <= b.config.maxOrders
  {
  }

  ghost predicate NoneOfCrosses(side: Side, price: PriceTick, others: seq<OrderView>) {
    forall i :: 0 <= i < |others| ==> !Crosses(side, price, others[i].price)
  }

  /** The queues between matching and resting. */
  lemma QueuesAfterMatching(b: R.Book, o: OrderView)
    requires R.WF(b)
    ensures R.WF(AfterMatching(b, o)) && Queue(AfterMatching(b, o), o.side) == Queue(b, o.side)
    ensures PricesFrom(Queue(b, Opposite(o.side)), Queue(AfterMatching(b, o), Opposite(o.side)))
    ensures Leftover(b, o) > 0 ==> NoneOfCrosses(o.side, o.price, Queue(AfterMatching(b, o), Opposite(o.side)))
  {
    hide Queue, R.WF;
    var q := Queue(b, Opposite(o.side));
    QueueOrdered(b, Opposite(o.side));
    ApplyFillsQueues(b, o.side, o.price, o.remaining);
    FillsClosedForm(q, o.side, o.price, o.remaining);
    QueueAfterPrices(q, OrderFills(b, o));
    if Leftover(b, o) > 0 {
      LeftoverCrossesNothing(q, o.side, o.price, o.remaining);
    }
  }

  /** An uncrossed book stays uncrossed. */
  lemma OrderKeepsUncrossed(b: R.Book, o: OrderView)
    requires R.WF(b) && Uncrossed(b)
    ensures Uncrossed(AfterMatching(b, o)) && Uncrossed(AfterOrder(b, o))
  {
    hide Queue, R.WF, R.Rest, AfterMatching, Leftover, InsertedBetween, NoneOfCrosses, PricesFrom;
    var b1 := AfterMatching(b, o);
    QueuesAfterMatching(b, o);
    var own, others := Queue(b1, o.side), Queue(b1, Opposite(o.side));
    StillApart(o.side, own, Queue(b, Opposite(o.side)), others);
    if Leftover(b, o) > 0 && RestStatus(b, o) == InsertOk {
      var v := Residual(b, o);
      QueueAfterRest(b1, v);
      var before, after :| InsertedBetween(own, Queue(R.Rest(b1, v), v.side), v, before, after);
      InsertedApart(own, others, Queue(R.Rest(b1, v), o.side), v, before, after);
    }
  }

  ghost predicate Apart(side: Side, own: seq<OrderView>, others: seq<OrderView>) {
    if side == Bid then NoneMeet(own, others) else NoneMeet(others, own)
  }

  lemma StillApart(side: Side, own: seq<OrderView>, q: seq<OrderView>, others: seq<OrderView>)
    requires Apart(side, own, q) && PricesFrom(q, others)
    ensures Apart(side, own, others)
  {
  }

  lemma InsertedApart(own: seq<OrderView>, others: seq<OrderView>, own': seq<OrderView>, v: OrderView,
                      before: seq<OrderView>, after: seq<OrderView>)
    requires Apart(v.side, own, others) && InsertedBetween(own, own', v, before, after)
    requires NoneOfCrosses(v.side, v.price, others)
    ensures Apart(v.side, own', others)
  {
    forall i | 0 <= i < |own'|
      ensures own'[i] == v || exists k :: 0 <= k < |own| && own[k] == own'[i]
    {
      if i < |before| {
        assert own[i] == own'[i];
      } else if i > |before| {
        assert own[i - 1] == own'[i];
      }
    }
  }
}
