/** What the answers of the book mean, in terms of the orders it holds. */
module BookLaws {
  import opened BookTypes
  import R = ReferenceBooks
  import Q = BookQueues
  import opened BookRuns

  // ---------------------------------------------------------------- inserting twice

  /** No operation of these takes the order `id` out of the book. */
  predicate Keeps(ops: seq<Operation>, id: OrderId) {
    forall i :: 0 <= i < |ops| ==> ops[i] != Erase(id) && !ops[i].Clear? && !ops[i].Restore?
  }

  lemma {:induction false} StaysKnown(b: R.Book, ops: seq<Operation>, id: OrderId)
    requires id in b.byId && Keeps(ops, id)
    ensures id in ReferenceRun(b, ops).1.byId && ReferenceRun(b, ops).1.config == b.config
    decreases |ops|
  {
    hide R.Best, Q.Restore, Q.Snapshot;
    if ops != [] {
      StaysKnown(Reference(b, ops[0]).1, ops[1..], id);
    }
  }

  lemma {:induction false} RunConcat(b: R.Book, a: seq<Operation>, c: seq<Operation>)
    ensures ReferenceRun(b, a + c).0 == ReferenceRun(b, a).0 + ReferenceRun(ReferenceRun(b, a).1, c).0
    ensures ReferenceRun(b, a + c).1 == ReferenceRun(ReferenceRun(b, a).1, c).1
    ensures |ReferenceRun(b, a).0| == |a|
    decreases |a|
  {
    hide Reference;
    if a == [] {
      assert a + c == c;
    } else {
      RunConcat(Reference(b, a[0]).1, a[1..], c);
      assert (a + c)[1..] == a[1..] + c;
    }
  }

  lemma RunOne(b: R.Book, op: Operation)
    ensures ReferenceRun(b, [op]) == ([Reference(b, op).0], Reference(b, op).1)
  {
    hide Reference;
    var reply, b1 := Reference(b, op).0, Reference(b, op).1;
    assert [op][1..] == [] && ReferenceRun(b1, [op][1..]) == ([], b1);
    assert [reply] + [] == [reply];
  }

  /** Once an order was inserted, and until it is erased, the book cleared or an image restored,
      every insert of its id with a positive quantity and a price in range is a duplicate. */
  lemma DuplicateUntilErased(b: R.Book, v: OrderView, ops: seq<Operation>, w: OrderView)
    requires Keeps(ops, v.id) && w.id == v.id && w.remaining > 0 && b.config.InRange(w.price)
    ensures var replies := ReferenceRun(b, [Insert(v)] + ops + [Insert(w)]).0;
      && |replies| == |ops| + 2
      && (replies[0] == Inserted(InsertOk) ==> replies[|ops| + 1] == Inserted(DuplicateOrderId))
  {
    hide ReferenceRun;
    var b1 := Reference(b, Insert(v)).1;
    RunOne(b, Insert(v));
    RunConcat(b, [Insert(v)], ops);
    RunConcat(b, [Insert(v)] + ops, [Insert(w)]);
    RunOne(ReferenceRun(b1, ops).1, Insert(w));
    if R.InsertStatusOf(b, v) == InsertOk {
      StaysKnown(b1, ops, v.id);
    }
  }

  /** Erasing takes the id out again: inserting it is then no duplicate. */
  lemma ErasedIsNoDuplicate(b: R.Book, id: OrderId, w: OrderView)
    requires w.id == id
    ensures var replies := ReferenceRun(b, [Erase(id)] + [Insert(w)]).0;
            |replies| == 2 && replies[1] != Inserted(DuplicateOrderId)
  {
    hide ReferenceRun;
    RunOne(b, Erase(id));
    RunConcat(b, [Erase(id)], [Insert(w)]);
    RunOne(Reference(b, Erase(id)).1, Insert(w));
  }

  /** Below its capacity a book takes every new id with a positive quantity and a price in range. */
  lemma RoomIsGiven(b: R.Book, w: OrderView)
    requires w.remaining > 0 && b.config.InRange(w.price) && w.id !in b.byId
    ensures Reference(b, Insert(w)).0 == Inserted(if |b.byId| < b.config.maxOrders then InsertOk else CapacityExhausted)
  {
  }

  // ---------------------------------------------------------------- undoing

  /** An order is handed back by `erase` as it was inserted, and the book is as before. */
  lemma EraseUndoesInsert(b: R.Book, v: OrderView)
    requires R.WF(b) && Reference(b, Insert(v)).0 == Inserted(InsertOk)
    ensures Reference(Reference(b, Insert(v)).1, Erase(v.id)) == (ErasedAs(Erased(v)), b)
  {
    hide R.RemoveId, R.SetFifo, R.Fifo, R.WF, R.Best, Q.Restore, Q.Snapshot;
    NotThere(b, v);
    LevelsUndone(R.LevelsOf(b, v.side), v.price, v.id);
    assert b.byId[v.id := v] - {v.id} == b.byId;
  }

  /** Appending an id to the FIFO of a price and removing it again. */
  lemma LevelsUndone(levels: R.Levels, price: nat, id: OrderId)
    requires id !in R.Fifo(levels, price) && (price in levels ==> levels[price] != [])
    ensures var levels' := R.SetFifo(levels, price, R.Fifo(levels, price) + [id]);
            R.SetFifo(levels', price, R.RemoveId(R.Fifo(levels', price), id)) == levels
  {
    hide R.RemoveId;
    RemoveLast(R.Fifo(levels, price), id);
  }

  lemma NotThere(b: R.Book, v: OrderView)
    requires R.WF(b) && v.id !in b.byId
    ensures v.id !in R.Fifo(R.LevelsOf(b, v.side), v.price)
    ensures var levels := R.LevelsOf(b, v.side); v.price in levels ==> levels[v.price] != []
  {
    var levels := R.LevelsOf(b, v.side);
    if v.price in levels {
      assert R.LevelWF(b.byId, v.side, v.price, levels[v.price]);
      assert forall i :: 0 <= i < |levels[v.price]| ==> R.Belongs(b.byId, levels[v.price][i], v.side, v.price);
    }
  }

  lemma {:induction false} RemoveLast(ids: seq<OrderId>, id: OrderId)
    requires id !in ids
    ensures R.RemoveId(ids + [id], id) == ids
  {
    if ids != [] {
      assert (ids + [id])[1..] == ids[1..] + [id];
      RemoveLast(ids[1..], id);
    }
  }

  /** Setting a quantity reports the previous one; setting that again restores the book, and an
      erase in between hands the order back with the new quantity. */
  lemma SetIsUndone(b: R.Book, id: OrderId, r: Quantity)
    requires R.WF(b) && id in b.byId && r > 0
    ensures var v := b.byId[id]; var (reply, b') := Reference(b, SetRemaining(id, r));
      && reply == SetAs(SetOk(v.remaining))
      && Reference(b', SetRemaining(id, v.remaining)) == (SetAs(SetOk(r)), b)
      && Reference(b', Erase(id)).0 == ErasedAs(Erased(v.(remaining := r)))
  {
    assert R.OrderWF(b, id);
    SetTwice(b, id, r);
    hide R.WF, R.Erase, R.SetRemaining, R.Best, R.Insert, Q.Restore, Q.Snapshot;
  }

  lemma SetTwice(b: R.Book, id: OrderId, r: Quantity)
    requires id in b.byId && r > 0 && b.byId[id].remaining > 0
    ensures R.SetRemaining(b, id, r).byId == b.byId[id := b.byId[id].(remaining := r)]
    ensures R.SetRemaining(R.SetRemaining(b, id, r), id, b.byId[id].remaining) == b
  {
    assert b.byId[id := b.byId[id].(remaining := r)][id := b.byId[id]] == b.byId;
  }

  /** A zero quantity is refused before the id is looked up, and an unknown id after. */
  lemma SetRefusals(b: R.Book, id: OrderId, r: Quantity)
    ensures Reference(b, SetRemaining(id, r)).0 == SetAs(SetInvalidQuantity) <==> r == 0
    ensures Reference(b, SetRemaining(id, r)).0 == SetAs(SetNotFound) <==> r > 0 && id !in b.byId
    ensures Reference(b, Erase(id)).0 == ErasedAs(EraseNotFound) <==> id !in b.byId
  {
  }

  // ---------------------------------------------------------------- restoring

  /** Whether order `n` of an image is known already when it is its turn. */
  predicate Repeated(vs: seq<OrderView>, n: nat)
    requires n < |vs|
  {
    Named(vs, n, vs[n].id)
  }

  /** One of the first `n` orders has this id. */
  predicate Named(vs: seq<OrderView>, n: nat, id: OrderId)
    requires n <= |vs|
  {
    exists j :: 0 <= j < n && vs[j].id == id
  }

  /** Order `n` of an image cannot be inserted behind those before it. */
  predicate Defective(config: Config, vs: seq<OrderView>, n: nat)
    requires n < |vs|
  {
    vs[n].remaining == 0 || !config.InRange(vs[n].price) || Repeated(vs, n)
  }

  /** The answer to an image whose first defect, or end, is at `n`. */
  ghost predicate AnswersDefect(config: Config, vs: seq<OrderView>, n: nat, status: RestoreStatus) {
    && n <= |vs| && (forall i :: 0 <= i < n ==> !Defective(config, vs, i)) && (n < |vs| ==> Defective(config, vs, n))
    && (status == RestoreOk <==> n == |vs|)
    && (status == RestoreInvalidQuantity <==> n < |vs| && vs[n].remaining == 0)
    && (status == RestorePriceOutOfRange <==> n < |vs| && vs[n].remaining > 0 && !config.InRange(vs[n].price))
    && (status == RestoreDuplicate <==>
        n < |vs| && vs[n].remaining > 0 && config.InRange(vs[n].price) && Repeated(vs, n))
    && status != RestoreCapacityExceeded
  }

  /** An image that is too large is refused as a whole. Otherwise the first defect of the image
      decides the answer, the count is its place, and exactly the orders before it are restored. */
  lemma FirstDefectDecides(b: R.Book, vs: seq<OrderView>)
    ensures |vs| > b.config.maxOrders ==> Q.Restore(b, vs) == (RestoreCapacityExceeded, 0, b)
    ensures |vs| <= b.config.maxOrders ==>
      var (status, n, b') := Q.Restore(b, vs); AnswersDefect(b.config, vs, n, status) && HoldsFirst(b', vs, n)
  {
    hide R.Rest;
    if |vs| <= b.config.maxOrders {
      assert R.Empty(b.config).byId == map[] && vs[0..] == vs;
      RestoreBehind(b.config, vs, 0, R.Empty(b.config));
    }
  }

  /** The book holds exactly the first `n` orders of the image. */
  ghost predicate HoldsFirst(b: R.Book, vs: seq<OrderView>, n: nat) {
    && n <= |vs| && |b.byId| == n
    && (forall i :: 0 <= i < n ==> vs[i].id in b.byId && b.byId[vs[i].id] == vs[i])
    && (forall id :: id in b.byId ==> Named(vs, n, id))
  }

  lemma {:induction false} RestoreBehind(config: Config, vs: seq<OrderView>, done: nat, b: R.Book)
    requires done <= |vs| <= config.maxOrders && b.config == config && HoldsFirst(b, vs, done)
    requires forall i :: 0 <= i < done ==> !Defective(config, vs, i)
    ensures var (status, n, b') := Q.RestoreFrom(b, vs[done..], done);
            AnswersDefect(config, vs, n, status) && HoldsFirst(b', vs, n)
    decreases |vs| - done
  {
    hide R.Rest, HoldsFirst, AnswersDefect, Defective, Repeated;
    if done < |vs| {
      var v := vs[done];
      assert vs[done..][0] == v && vs[done..][1..] == vs[done + 1..];
      KnownIsRepeated(b, vs, done);
      if Defective(config, vs, done) {
        Refused(config, vs, done, b);
      } else {
        Accepted(config, vs, done, b);
        RestHoldsNext(b, vs, done);
        RestoreBehind(config, vs, done + 1, R.Rest(b, v));
      }
    } else {
      assert vs[done..] == [];
      AllRestored(config, vs);
    }
  }

  lemma KnownIsRepeated(b: R.Book, vs: seq<OrderView>, done: nat)
    requires done < |vs| && HoldsFirst(b, vs, done)
    ensures vs[done].id in b.byId <==> Repeated(vs, done)
    ensures |b.byId| == done
  {
  }

  lemma Refused(config: Config, vs: seq<OrderView>, n: nat, b: R.Book)
    requires n < |vs| <= config.maxOrders && b.config == config && |b.byId| == n
    requires (vs[n].id in b.byId <==> Repeated(vs, n)) && Defective(config, vs, n)
    requires forall i :: 0 <= i < n ==> !Defective(config, vs, i)
    ensures R.InsertStatusOf(b, vs[n]) != InsertOk
    ensures AnswersDefect(config, vs, n, Q.RestoreStatusFor(R.InsertStatusOf(b, vs[n])))
  {
    hide Repeated;
  }

  lemma Accepted(config: Config, vs: seq<OrderView>, n: nat, b: R.Book)
    requires n < |vs| <= config.maxOrders && b.config == config && |b.byId| == n
    requires (vs[n].id in b.byId <==> Repeated(vs, n)) && !Defective(config, vs, n)
    ensures R.InsertStatusOf(b, vs[n]) == InsertOk && vs[n].id !in b.byId
  {
    hide Repeated;
  }

  lemma AllRestored(config: Config, vs: seq<OrderView>)
    requires forall i :: 0 <= i < |vs| ==> !Defective(config, vs, i)
    ensures AnswersDefect(config, vs, |vs|, RestoreOk)
  {
    hide Defective;
  }

  lemma RestHoldsNext(b: R.Book, vs: seq<OrderView>, done: nat)
    requires done < |vs| && HoldsFirst(b, vs, done) && vs[done].id !in b.byId
    ensures HoldsFirst(R.Rest(b, vs[done]), vs, done + 1) && R.Rest(b, vs[done]).config == b.config
  {
    var b', v := R.Rest(b, vs[done]), vs[done];
    RestById(b, v);
    Q.RestKeys(b, v);
    hide R.Rest, Named;
    FirstAndNext(b.byId, vs, done);
    forall id | id in b'.byId
      ensures Named(vs, done + 1, id)
    {
      NamedBehind(vs, done, id);
    }
  }

  lemma RestById(b: R.Book, v: OrderView)
    ensures R.Rest(b, v).byId == b.byId[v.id := v]
  {
    hide R.SetFifo, R.Fifo;
  }

  lemma FirstAndNext(byId: map<OrderId, OrderView>, vs: seq<OrderView>, n: nat)
    requires n < |vs| && vs[n].id !in byId
    requires forall i :: 0 <= i < n ==> vs[i].id in byId && byId[vs[i].id] == vs[i]
    ensures var byId' := byId[vs[n].id := vs[n]];
            forall i :: 0 <= i < n + 1 ==> vs[i].id in byId' && byId'[vs[i].id] == vs[i]
  {
  }

  lemma NamedBehind(vs: seq<OrderView>, n: nat, id: OrderId)
    requires n < |vs|
    ensures Named(vs, n + 1, id) <==> Named(vs, n, id) || vs[n].id == id
  {
  }

  // ---------------------------------------------------------------- the order of an image

  ghost predicate Ascending(vs: seq<OrderView>) {
    forall i, j :: 0 <= i < j < |vs| ==> vs[i].price <= vs[j].price
  }

  /** An image is the bids from the lowest price up, and then the asks from the lowest price up. */
  lemma ImageOrder(b: R.Book) returns (bids: nat)
    requires R.WF(b)
    ensures bids <= |Q.Snapshot(b)|
    ensures forall i :: 0 <= i < |Q.Snapshot(b)| ==> Q.Snapshot(b)[i].side == if i < bids then Bid else Ask
    ensures Ascending(Q.Snapshot(b)[..bids]) && Ascending(Q.Snapshot(b)[bids..])
  {
    IdsAreKeys(b);
    assert R.SideWF(b.bids, b.byId, Bid) && R.SideWF(b.asks, b.byId, Ask);
    hide R.WF, R.SideWF, Q.Flat, Ascending;
    var bidPart := Q.Flat(b.bids, b.byId, true, 0, R.PRICE_LIMIT);
    var askPart := Q.Flat(b.asks, b.byId, true, 0, R.PRICE_LIMIT);
    Q.FlatMembers(b.bids, b.byId, Bid, true, 0, R.PRICE_LIMIT);
    Q.FlatMembers(b.asks, b.byId, Ask, true, 0, R.PRICE_LIMIT);
    FlatAscends(b.bids, b.byId, Bid, 0, R.PRICE_LIMIT);
    FlatAscends(b.asks, b.byId, Ask, 0, R.PRICE_LIMIT);
    bids := |bidPart|;
    TwoParts(bidPart, askPart);
  }

  lemma IdsAreKeys(b: R.Book)
    requires R.WF(b)
    ensures forall id :: id in b.byId ==> b.byId[id].id == id
  {
    forall id | id in b.byId
      ensures b.byId[id].id == id
    {
      assert R.OrderWF(b, id);
    }
  }

  lemma TwoParts(bidPart: seq<OrderView>, askPart: seq<OrderView>)
    requires forall i :: 0 <= i < |bidPart| ==> bidPart[i].side == Bid
    requires forall i :: 0 <= i < |askPart| ==> askPart[i].side == Ask
    ensures var image := bidPart + askPart;
      && image[..|bidPart|] == bidPart && image[|bidPart|..] == askPart
      && forall i :: 0 <= i < |image| ==> image[i].side == if i < |bidPart| then Bid else Ask
  {
  }

  lemma {:induction false} FlatAscends(levels: R.Levels, byId: map<OrderId, OrderView>, side: Side, lo: nat, hi: nat)
    requires hi <= R.PRICE_LIMIT && R.SideWF(levels, byId, side)
    requires forall id :: id in byId ==> byId[id].id == id
    ensures Ascending(Q.Flat(levels, byId, true, lo, hi))
    decreases hi - lo
  {
    if lo < hi {
      FlatAscends(levels, byId, side, lo + 1, hi);
      Q.FlatMembers(levels, byId, side, true, lo + 1, hi);
      var p := Q.PriceAt(true, lo);
      Q.LevelDistinct(levels, byId, side, p, true, lo);
      hide R.SideWF;
      AscendsBehind(byId, side, lo, hi, Q.Views(byId, R.Fifo(levels, p)), Q.Flat(levels, byId, true, lo + 1, hi));
    }
  }

  lemma AscendsBehind(byId: map<OrderId, OrderView>, side: Side, lo: nat, hi: nat, here: seq<OrderView>,
                      rest: seq<OrderView>)
    requires Ascending(rest)
    requires forall i :: 0 <= i < |here| ==> Q.InRank(side, true, lo, lo + 1, byId, here[i])
    requires forall i :: 0 <= i < |rest| ==> Q.InRank(side, true, lo + 1, hi, byId, rest[i])
    ensures Ascending(here + rest)
  {
    var all := here + rest;
    forall i, j | 0 <= i < j < |all|
      ensures all[i].price <= all[j].price
    {
      assert i < |here| ==> Q.InRank(side, true, lo, lo + 1, byId, here[i]);
      assert j < |here| ==> Q.InRank(side, true, lo, lo + 1, byId, here[j]);
      assert j >= |here| ==> Q.InRank(side, true, lo + 1, hi, byId, rest[j - |here|]);
    }
  }
}
