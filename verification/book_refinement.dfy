/** How the pool, the index and the FIFOs of one book stand for a reference book, as values. */
module BookRefinement {
  import opened BookTypes
  import opened OrderPools
  import opened Fifos
  import opened PriceLevels
  import opened SideBooks
  import R = ReferenceBooks

  function Ids(o: seq<Order>, f: seq<nat>): (ids: seq<OrderId>)
    requires forall i :: 0 <= i < |f| ==> f[i] < |o|
    ensures |ids| == |f| && forall i :: 0 <= i < |f| ==> ids[i] == o[f[i]].id
  {
    seq(|f|, i requires 0 <= i < |f| => o[f[i]].id)
  }

  /** The slots in the FIFOs are slots of resting orders of the pool. */
  ghost predicate Slots(o: seq<Order>, fifos: seq<seq<nat>>) {
    forall k :: 0 <= k < |fifos| ==> SlotsAt(o, fifos[k])
  }

  ghost predicate SlotsAt(o: seq<Order>, f: seq<nat>) {
    forall i :: 0 <= i < |f| ==> f[i] < |o| && o[f[i]].inUse
  }

  /** Every resting order of the side is in the FIFO of its price. */
  ghost predicate Resting(o: seq<Order>, fifos: seq<seq<nat>>, side: Side, base: nat) {
    forall s :: 0 <= s < |o| && o[s].inUse && o[s].side == side ==>
      0 <= o[s].price - 64 * base < |fifos| && s in fifos[o[s].price - 64 * base]
  }

  /** The reference levels hold the ids of the FIFOs, and nothing else. */
  ghost predicate LevelsRefine(levels: R.Levels, o: seq<Order>, fifos: seq<seq<nat>>, base: nat) {
    && Slots(o, fifos)
    && (forall k :: 0 <= k < |fifos| ==> LevelRefines(levels, o, fifos[k], 64 * base + k))
    && (forall p :: p in levels ==> levels[p] != [] && 64 * base <= p < 64 * base + |fifos|)
  }

  ghost predicate LevelRefines(levels: R.Levels, o: seq<Order>, f: seq<nat>, price: nat)
  {
    SlotsAt(o, f) && R.Fifo(levels, price) == Ids(o, f)
  }

  ghost predicate SideRefines(levels: R.Levels, o: seq<Order>, fifos: seq<seq<nat>>, side: Side, base: nat) {
    LevelsRefine(levels, o, fifos, base) && Resting(o, fifos, side, base)
  }

  /** The index holds exactly the resting orders under their ids. */
  ghost predicate Indexed(o: seq<Order>, contents: map<OrderId, nat>) {
    && (forall s :: 0 <= s < |o| && o[s].inUse ==> o[s].id in contents && contents[o[s].id] == s)
    && (forall id :: id in contents ==> contents[id] < |o| && o[contents[id]].inUse && o[contents[id]].id == id)
  }

  ghost predicate OrdersRefine(byId: map<OrderId, OrderView>, o: seq<Order>, contents: map<OrderId, nat>) {
    && byId.Keys == contents.Keys
    && forall id :: id in contents ==> contents[id] < |o| && byId[id] == o[contents[id]].View()
  }

  /** Two pools agree except at `slot`, up to links. */
  ghost predicate SameExcept(o: seq<Order>, o': seq<Order>, slot: nat) {
    && |o'| == |o|
    && forall s :: 0 <= s < |o| && s != slot ==> o'[s].View() == o[s].View() && o'[s].inUse == o[s].inUse
  }

  lemma LevelFramed(levels: R.Levels, levels': R.Levels, o: seq<Order>, o': seq<Order>, f: seq<nat>, price: nat,
                    slot: nat)
    requires LevelRefines(levels, o, f, price) && SameExcept(o, o', slot) && slot !in f
    requires R.Fifo(levels', price) == R.Fifo(levels, price)
    ensures LevelRefines(levels', o', f, price)
  {
    forall i | 0 <= i < |f|
      ensures f[i] < |o'| && o'[f[i]].inUse && o'[f[i]].id == o[f[i]].id
    {
      assert f[i] != slot && f[i] < |o|;
      assert o'[f[i]].View().id == o[f[i]].View().id;
    }
    assert Ids(o', f) == Ids(o, f);
  }

  /** One level's FIFO and reference entry change together; the slot is in no other FIFO. */
  lemma LevelsChange(levels: R.Levels, o: seq<Order>, fifos: seq<seq<nat>>, base: nat, o': seq<Order>, slot: nat,
                     k: nat, f: seq<nat>, ids: seq<OrderId>)
    requires LevelsRefine(levels, o, fifos, base) && k < |fifos| && SameExcept(o, o', slot)
    requires forall j :: 0 <= j < |fifos| && j != k ==> slot !in fifos[j]
    requires SlotsAt(o', f) && ids == Ids(o', f)
    ensures LevelsRefine(R.SetFifo(levels, 64 * base + k, ids), o', fifos[k := f], base)
  {
    var levels' := R.SetFifo(levels, 64 * base + k, ids);
    var fifos' := fifos[k := f];
    forall j | 0 <= j < |fifos'|
      ensures LevelRefines(levels', o', fifos'[j], 64 * base + j) && SlotsAt(o', fifos'[j])
    {
      if j != k {
        assert LevelRefines(levels, o, fifos[j], 64 * base + j);
        LevelFramed(levels, levels', o, o', fifos[j], 64 * base + j, slot);
      }
    }
  }

  /** A change outside the side's FIFOs leaves the side as it is. */
  lemma LevelsFramed(levels: R.Levels, o: seq<Order>, fifos: seq<seq<nat>>, base: nat, o': seq<Order>, slot: nat)
    requires LevelsRefine(levels, o, fifos, base) && SameExcept(o, o', slot)
    requires forall j :: 0 <= j < |fifos| ==> slot !in fifos[j]
    ensures LevelsRefine(levels, o', fifos, base)
  {
    forall j | 0 <= j < |fifos|
      ensures LevelRefines(levels, o', fifos[j], 64 * base + j) && SlotsAt(o', fifos[j])
    {
      assert LevelRefines(levels, o, fifos[j], 64 * base + j);
      LevelFramed(levels, levels, o, o', fifos[j], 64 * base + j, slot);
    }
  }

  lemma FreeSlotInNoFifo(o: seq<Order>, fifos: seq<seq<nat>>, slot: nat)
    requires Slots(o, fifos) && slot < |o| && !o[slot].inUse
    ensures forall j :: 0 <= j < |fifos| ==> slot !in fifos[j]
  {
    forall j | 0 <= j < |fifos|
      ensures slot !in fifos[j]
    {
      assert SlotsAt(o, fifos[j]);
    }
  }

  // ---------------------------------------------------------------- insert

  lemma InsertSide(levels: R.Levels, o: seq<Order>, fifos: seq<seq<nat>>, side: Side, base: nat, o': seq<Order>,
                   slot: nat, k: nat)
    requires SideRefines(levels, o, fifos, side, base)
    requires slot < |o| && !o[slot].inUse && SameExcept(o, o', slot)
    requires o'[slot].inUse && o'[slot].side == side && o'[slot].price == 64 * base + k && k < |fifos|
    ensures var p := o'[slot].price;
            SideRefines(R.SetFifo(levels, p, R.Fifo(levels, p) + [o'[slot].id]), o', fifos[k := fifos[k] + [slot]],
                side, base)
  {
    hide LevelRefines;
    FreeSlotInNoFifo(o, fifos, slot);
    var p := o'[slot].price;
    assert SlotsAt(o, fifos[k]);
    var f := fifos[k] + [slot];
    assert SlotsAt(o', f);
    InsertIds(levels, o, o', fifos[k], p, slot);
    LevelsChange(levels, o, fifos, base, o', slot, k, f, R.Fifo(levels, p) + [o'[slot].id]);
    InsertResting(o, fifos, side, base, o', slot, k);
  }

  lemma InsertIds(levels: R.Levels, o: seq<Order>, o': seq<Order>, f: seq<nat>, price: nat, slot: nat)
    requires LevelRefines(levels, o, f, price) && SameExcept(o, o', slot) && slot !in f && slot < |o|
    ensures SlotsAt(o', f)
    ensures R.Fifo(levels, price) + [o'[slot].id] == Ids(o', f + [slot])
  {
    LevelFramed(levels, levels, o, o', f, price, slot);
  }

  lemma InsertResting(o: seq<Order>, fifos: seq<seq<nat>>, side: Side, base: nat, o': seq<Order>, slot: nat, k: nat)
    requires Resting(o, fifos, side, base)
    requires slot < |o| && SameExcept(o, o', slot) && k < |fifos|
    requires o'[slot].price == 64 * base + k
    ensures Resting(o', fifos[k := fifos[k] + [slot]], side, base)
  {
    var fifos' := fifos[k := fifos[k] + [slot]];
    forall s | 0 <= s < |o'| && o'[s].inUse && o'[s].side == side
      ensures 0 <= o'[s].price - 64 * base < |fifos'| && s in fifos'[o'[s].price - 64 * base]
    {
      if s == slot {
        assert fifos'[k][|fifos[k]|] == s;
      } else {
        assert o'[s].View() == o[s].View();
        assert s in fifos[o[s].price - 64 * base];
      }
    }
  }

  lemma InsertOtherSide(levels: R.Levels, o: seq<Order>, fifos: seq<seq<nat>>, side: Side, base: nat, o': seq<Order>,
                        slot: nat)
    requires SideRefines(levels, o, fifos, side, base)
    requires slot < |o| && !o[slot].inUse && SameExcept(o, o', slot)
    requires o'[slot].inUse ==> o'[slot].side != side
    ensures SideRefines(levels, o', fifos, side, base)
  {
    FreeSlotInNoFifo(o, fifos, slot);
    LevelsFramed(levels, o, fifos, base, o', slot);
    forall s | 0 <= s < |o'| && o'[s].inUse && o'[s].side == side
      ensures 0 <= o'[s].price - 64 * base < |fifos| && s in fifos[o'[s].price - 64 * base]
    {
      assert o'[s].View() == o[s].View();
    }
  }

  lemma InsertIndexed(o: seq<Order>, contents: map<OrderId, nat>, byId: map<OrderId, OrderView>, o': seq<Order>,
                      slot: nat)
    requires Indexed(o, contents) && OrdersRefine(byId, o, contents)
    requires slot < |o| && !o[slot].inUse && SameExcept(o, o', slot)
    requires o'[slot].inUse && o'[slot].id !in contents
    ensures Indexed(o', contents[o'[slot].id := slot])
    ensures OrdersRefine(byId[o'[slot].id := o'[slot].View()], o', contents[o'[slot].id := slot])
  {
    forall s | 0 <= s < |o|
      ensures s != slot ==> o'[s].View().id == o[s].id == o'[s].id
    {
    }
  }

  // ---------------------------------------------------------------- erase

  lemma {:induction false} RemoveIdAt(ids: seq<OrderId>, i: nat)
    requires i < |ids| && NoRepeats(ids)
    ensures R.RemoveId(ids, ids[i]) == ids[..i] + ids[i + 1..]
  {
    if i > 0 {
      RemoveIdAt(ids[1..], i - 1);
      assert ids[0] != ids[i];
    }
  }

  lemma EraseIds(levels: R.Levels, o: seq<Order>, o': seq<Order>, f: seq<nat>, price: nat, i: nat)
    requires LevelRefines(levels, o, f, price) && i < |f| && SameExcept(o, o', f[i])
    requires NoRepeats(f) && NoRepeats(R.Fifo(levels, price))
    ensures SlotsAt(o', Without(f, i))
    ensures R.RemoveId(R.Fifo(levels, price), o[f[i]].id) == Ids(o', Without(f, i))
  {
    hide R.RemoveId;
    var f' := Without(f, i);
    forall j | 0 <= j < |f'|
      ensures f'[j] < |o'| && o'[f'[j]].inUse && o'[f'[j]].id == R.Fifo(levels, price)[if j < i then j else j + 1]
    {
      var m := if j < i then j else j + 1;
      assert f'[j] == f[m] != f[i];
      assert o'[f[m]].View().id == o[f[m]].View().id;
    }
    RemoveIdAt(R.Fifo(levels, price), i);
  }

  lemma EraseSide(levels: R.Levels, o: seq<Order>, fifos: seq<seq<nat>>, side: Side, base: nat, o': seq<Order>,
                  slot: nat, k: nat)
    requires SideRefines(levels, o, fifos, side, base)
    requires slot < |o| && o[slot].inUse && o[slot].price == 64 * base + k && k < |fifos| && slot in fifos[k]
    requires SameExcept(o, o', slot) && !o'[slot].inUse
    requires NoRepeats(fifos[k]) && NoRepeats(R.Fifo(levels, 64 * base + k))
    requires forall j :: 0 <= j < |fifos| && j != k ==> slot !in fifos[j]
    ensures SideRefines(R.SetFifo(levels, o[slot].price, R.RemoveId(R.Fifo(levels, o[slot].price), o[slot].id)), o',
                        RemovedFrom(fifos, k, slot), side, base)
  {
    hide R.RemoveId, NoRepeats, LevelRefines, NoRepeats;
    var i := IndexOf(fifos[k], slot);
    EraseIds(levels, o, o', fifos[k], 64 * base + k, i);
    LevelsChange(levels, o, fifos, base, o', slot, k, Without(fifos[k], i),
        R.RemoveId(R.Fifo(levels, o[slot].price), o[slot].id));
    EraseResting(o, fifos, side, base, o', slot, k, i);
  }

  lemma EraseResting(o: seq<Order>, fifos: seq<seq<nat>>, side: Side, base: nat, o': seq<Order>, slot: nat, k: nat,
                     i: nat)
    requires Resting(o, fifos, side, base)
    requires slot < |o| && SameExcept(o, o', slot) && !o'[slot].inUse && k < |fifos| && i < |fifos[k]|
      && fifos[k][i] == slot
    ensures Resting(o', fifos[k := Without(fifos[k], i)], side, base)
  {
    var fifos' := fifos[k := Without(fifos[k], i)];
    forall s | 0 <= s < |o'| && o'[s].inUse && o'[s].side == side
      ensures 0 <= o'[s].price - 64 * base < |fifos'| && s in fifos'[o'[s].price - 64 * base]
    {
      assert s != slot && o'[s].View() == o[s].View();
      var j := o[s].price - 64 * base;
      assert s in fifos[j];
      if j == k {
        var m :| 0 <= m < |fifos[k]| && fifos[k][m] == s;
        assert Without(fifos[k], i)[if m < i then m else m - 1] == s;
      }
    }
  }

  lemma EraseOtherSide(levels: R.Levels, o: seq<Order>, fifos: seq<seq<nat>>, side: Side, base: nat, o': seq<Order>,
                       slot: nat)
    requires SideRefines(levels, o, fifos, side, base)
    requires slot < |o| && SameExcept(o, o', slot) && !o'[slot].inUse
    requires forall j :: 0 <= j < |fifos| ==> slot !in fifos[j]
    ensures SideRefines(levels, o', fifos, side, base)
  {
    LevelsFramed(levels, o, fifos, base, o', slot);
    forall s | 0 <= s < |o'| && o'[s].inUse && o'[s].side == side
      ensures 0 <= o'[s].price - 64 * base < |fifos| && s in fifos[o'[s].price - 64 * base]
    {
      assert o'[s].View() == o[s].View();
    }
  }

  lemma EraseIndexed(o: seq<Order>, contents: map<OrderId, nat>, byId: map<OrderId, OrderView>, o': seq<Order>,
                     slot: nat)
    requires Indexed(o, contents) && OrdersRefine(byId, o, contents)
    requires slot < |o| && o[slot].inUse && SameExcept(o, o', slot) && !o'[slot].inUse
    ensures Indexed(o', contents - {o[slot].id}) && OrdersRefine(byId - {o[slot].id}, o', contents - {o[slot].id})
  {
    forall s | 0 <= s < |o|
      ensures s != slot ==> o'[s].View().id == o[s].id == o'[s].id
    {
    }
  }

  // ---------------------------------------------------------------- set remaining

  lemma SetSide(levels: R.Levels, o: seq<Order>, fifos: seq<seq<nat>>, side: Side, base: nat, slot: nat, r: Quantity)
    requires SideRefines(levels, o, fifos, side, base) && slot < |o|
    ensures SideRefines(levels, o[slot := o[slot].(remaining := r)], fifos, side, base)
  {
    var o' := o[slot := o[slot].(remaining := r)];
    forall k | 0 <= k < |fifos|
      ensures LevelRefines(levels, o', fifos[k], 64 * base + k) && SlotsAt(o', fifos[k])
    {
      assert LevelRefines(levels, o, fifos[k], 64 * base + k);
      assert Ids(o', fifos[k]) == Ids(o, fifos[k]);
    }
  }

  lemma SetIndexed(o: seq<Order>, contents: map<OrderId, nat>, byId: map<OrderId, OrderView>, slot: nat, r: Quantity)
    requires Indexed(o, contents) && OrdersRefine(byId, o, contents) && slot < |o| && o[slot].inUse
    ensures var o' := o[slot := o[slot].(remaining := r)];
            && Indexed(o', contents)
            && OrdersRefine(byId[o[slot].id := o'[slot].View()], o', contents)
  {
  }

  // ---------------------------------------------------------------- the whole book

  /** The pool `o`, the index contents and the FIFOs of both sides stand for the book `m`. */
  ghost predicate Represents(o: seq<Order>, contents: map<OrderId, nat>, bf: seq<seq<nat>>, af: seq<seq<nat>>,
                             base: nat, m: R.Book) {
    && Indexed(o, contents)
    && OrdersRefine(m.byId, o, contents)
    && SideRefines(m.bids, o, bf, Bid, base)
    && SideRefines(m.asks, o, af, Ask, base)
    && R.WF(m)
  }

  lemma FreeSlotRepresents(o: seq<Order>, contents: map<OrderId, nat>, bf: seq<seq<nat>>, af: seq<seq<nat>>, base: nat,
                           m: R.Book, o': seq<Order>, slot: nat)
    requires Represents(o, contents, bf, af, base, m)
    requires slot < |o| && !o[slot].inUse && SameExcept(o, o', slot) && !o'[slot].inUse
    ensures Represents(o', contents, bf, af, base, m)
  {
    hide SideRefines, R.WF;
    InsertOtherSide(m.bids, o, bf, Bid, base, o', slot);
    InsertOtherSide(m.asks, o, af, Ask, base, o', slot);
    forall s | 0 <= s < |o|
      ensures s != slot ==> o'[s].View().id == o[s].id == o'[s].id
    {
    }
  }

  function InsertFifos(fifos: seq<seq<nat>>, here: bool, k: nat, slot: nat): seq<seq<nat>>
    requires here ==> k < |fifos|
  {
    if here then fifos[k := fifos[k] + [slot]] else fifos
  }

  lemma RestRepresents(o: seq<Order>, contents: map<OrderId, nat>, bf: seq<seq<nat>>, af: seq<seq<nat>>, base: nat,
                       m: R.Book, o': seq<Order>, slot: nat, k: nat, v: OrderView)
    requires Represents(o, contents, bf, af, base, m) && R.InsertStatusOf(m, v) == InsertOk
    requires slot < |o| && !o[slot].inUse && SameExcept(o, o', slot)
    requires o'[slot].inUse && o'[slot].View() == v && v.price == 64 * base + k
    requires k < if v.side == Bid then |bf| else |af|
    ensures Represents(o', contents[v.id := slot], InsertFifos(bf, v.side == Bid, k, slot),
        InsertFifos(af, v.side == Ask, k, slot), base, R.Rest(m, v))
  {
    hide SideRefines, R.WF, Indexed, SameExcept, R.SetFifo, R.Fifo;
    R.RestWF(m, v);
    InsertIndexed(o, contents, m.byId, o', slot);
    if v.side == Bid {
      InsertSide(m.bids, o, bf, Bid, base, o', slot, k);
      InsertOtherSide(m.asks, o, af, Ask, base, o', slot);
    } else {
      InsertSide(m.asks, o, af, Ask, base, o', slot, k);
      InsertOtherSide(m.bids, o, bf, Bid, base, o', slot);
    }
  }

  ghost predicate OnlyIn(fifos: seq<seq<nat>>, k: nat, slot: nat) {
    && k < |fifos| && slot in fifos[k] && NoRepeats(fifos[k])
    && forall j :: 0 <= j < |fifos| && j != k ==> slot !in fifos[j]
  }

  ghost predicate Nowhere(fifos: seq<seq<nat>>, slot: nat) {
    forall j :: 0 <= j < |fifos| ==> slot !in fifos[j]
  }

  /** `slot` rested in FIFO `k` of its side and nowhere else, and was taken out of it. */
  ghost predicate RemovalFrom(side: Side, price: nat, slot: nat, bf: seq<seq<nat>>, af: seq<seq<nat>>,
                              bf': seq<seq<nat>>, af': seq<seq<nat>>, base: nat, k: nat)
  {
    && price == 64 * base + k
    && if side == Bid then
         OnlyIn(bf, k, slot) && Nowhere(af, slot) && bf' == RemovedFrom(bf, k, slot) && af' == af
       else
         OnlyIn(af, k, slot) && Nowhere(bf, slot) && af' == RemovedFrom(af, k, slot) && bf' == bf
  }

  lemma EraseRepresents(o: seq<Order>, contents: map<OrderId, nat>, bf: seq<seq<nat>>, af: seq<seq<nat>>, base: nat,
                        m: R.Book, o': seq<Order>, slot: nat, k: nat, bf': seq<seq<nat>>, af': seq<seq<nat>>)
    requires Represents(o, contents, bf, af, base, m)
    requires slot < |o| && o[slot].inUse && SameExcept(o, o', slot) && !o'[slot].inUse
    requires RemovalFrom(o[slot].side, o[slot].price, slot, bf, af, bf', af', base, k)
    ensures Represents(o', contents - {o[slot].id}, bf', af', base, R.Erase(m, o[slot].id))
    ensures o[slot].id in m.byId && m.byId[o[slot].id] == o[slot].View()
  {
    hide SideRefines, R.WF, SameExcept, R.SetFifo, R.Fifo, R.RemoveId;
    var id := o[slot].id;
    assert id in contents && contents[id] == slot;
    R.EraseWF(m, id);
    EraseIndexed(o, contents, m.byId, o', slot);
    R.LevelOfOrder(m, id);
    FifoOfOrder(m, id);
    if o[slot].side == Bid {
      EraseSide(m.bids, o, bf, Bid, base, o', slot, k);
      EraseOtherSide(m.asks, o, af, Ask, base, o', slot);
    } else {
      EraseSide(m.asks, o, af, Ask, base, o', slot, k);
      EraseOtherSide(m.bids, o, bf, Bid, base, o', slot);
    }
  }

  lemma FifoOfOrder(m: R.Book, id: OrderId)
    requires R.WF(m) && id in m.byId
    ensures NoRepeats(R.Fifo(R.LevelsOf(m, m.byId[id].side), m.byId[id].price))
  {
    R.LevelOfOrder(m, id);
  }

  lemma SetRepresents(o: seq<Order>, contents: map<OrderId, nat>, bf: seq<seq<nat>>, af: seq<seq<nat>>, base: nat,
                      m: R.Book, slot: nat, r: Quantity)
    requires Represents(o, contents, bf, af, base, m)
    requires slot < |o| && o[slot].inUse && r > 0
    ensures Represents(o[slot := o[slot].(remaining := r)], contents, bf, af, base, R.SetRemaining(m, o[slot].id, r))
    ensures o[slot].id in m.byId && m.byId[o[slot].id] == o[slot].View()
  {
    hide SideRefines, R.WF;
    R.SetRemainingWF(m, o[slot].id, r);
    SetIndexed(o, contents, m.byId, slot, r);
    SetSide(m.bids, o, bf, Bid, base, slot, r);
    SetSide(m.asks, o, af, Ask, base, slot, r);
  }

  lemma EmptyRepresents(o: seq<Order>, bf: seq<seq<nat>>, af: seq<seq<nat>>, base: nat, config: Config)
    requires forall s :: 0 <= s < |o| ==> !o[s].inUse
    requires forall k :: 0 <= k < |bf| ==> bf[k] == []
    requires forall k :: 0 <= k < |af| ==> af[k] == []
    ensures Represents(o, map[], bf, af, base, R.Empty(config))
  {
    R.EmptyWF(config);
  }

  // ---------------------------------------------------------------- best

  lemma NoBest(levels: R.Levels, o: seq<Order>, fifos: seq<seq<nat>>, base: nat)
    requires LevelsRefine(levels, o, fifos, base)
    requires forall k :: 0 <= k < |fifos| ==> fifos[k] == []
    ensures levels.Keys == {}
  {
    hide LevelRefines;
    if levels.Keys != {} {
      var p :| p in levels.Keys;
      EmptyFifoNoLevel(levels, o, fifos[p - 64 * base], p);
    }
  }

  lemma EmptyFifoNoLevel(levels: R.Levels, o: seq<Order>, f: seq<nat>, price: nat)
    requires LevelRefines(levels, o, f, price) && f == []
    ensures price in levels ==> levels[price] == []
  {
  }

  /** The best non-empty FIFO is the reference's best price. */
  lemma BestIsBestKey(levels: R.Levels, o: seq<Order>, fifos: seq<seq<nat>>, base: nat, side: Side, k: nat)
    requires LevelsRefine(levels, o, fifos, base) && IsBestLevel(fifos, k, side)
    ensures levels.Keys != {} && R.BestKey(side, levels.Keys) == 64 * base + k
    ensures fifos[k][0] < |o| && levels[64 * base + k] == Ids(o, fifos[k])
  {
    assert LevelRefines(levels, o, fifos[k], 64 * base + k);
    var p := 64 * base + k;
    assert p in levels.Keys;
    var q := R.BestKey(side, levels.Keys);
    assert LevelRefines(levels, o, fifos[q - 64 * base], 64 * base + (q - 64 * base));
    assert fifos[q - 64 * base] != [];
    assert AtLeastAsGood(side, k, q - 64 * base);
  }
}
