/** The fixed pool of order slots. Free slots form a singly linked LIFO list through
    `Order.next`; the FIFO links of a resting order use the same field. */
module OrderPools {
  import opened BookTypes

  datatype Order = Order(id: OrderId, owner: OwnerId, price: PriceTick, remaining: Quantity,
                         prev: nat, next: nat, side: Side, inUse: bool)
  {
    function View(): OrderView {
      OrderView(id, owner, side, price, remaining)
    }
  }

  /** The `i`-th slot of a list, or `end` past its last one. */
  function LinkOr(s: seq<nat>, i: nat, end: nat): nat {
    if i < |s| then s[i] else end
  }

  /** Following `next` from `head` visits the free slots `s`, none twice, and then `end`. */
  ghost predicate Chain(o: seq<Order>, head: nat, s: seq<nat>, end: nat) {
    && head == LinkOr(s, 0, end)
    && NoRepeats(s)
    && (forall i :: 0 <= i < |s| ==> s[i] < |o| && !o[s[i]].inUse && o[s[i]].next == LinkOr(s, i + 1, end))
  }

  /** `free` is the list reached from `freeHead`: every free slot exactly once, acyclic. */
  ghost predicate FreeList(o: seq<Order>, freeHead: nat, freeCount: nat, free: seq<nat>) {
    && Chain(o, freeHead, free, INVALID)
    && freeCount == |free|
    && (forall s :: 0 <= s < |o| && !o[s].inUse ==> s in free)
  }

  /** The list depends only on the free slots. */
  lemma FreeListFrame(o: seq<Order>, o': seq<Order>, freeHead: nat, freeCount: nat, free: seq<nat>)
    requires FreeList(o, freeHead, freeCount, free) && |o| == |o'|
    requires forall s :: 0 <= s < |o| ==> o[s].inUse == o'[s].inUse
    requires forall s :: 0 <= s < |o| && !o[s].inUse ==> o[s] == o'[s]
    ensures FreeList(o', freeHead, freeCount, free)
  {
  }

  /** The list built at construction: every slot, in ascending order. */
  lemma FreshFreeList(o: seq<Order>)
    requires forall s :: 0 <= s < |o| ==> !o[s].inUse && o[s].next == if s + 1 == |o| then INVALID else s + 1
    ensures FreeList(o, if |o| == 0 then INVALID else 0, |o|, seq(|o|, i => i))
  {
    var free := seq(|o|, i => i);
    forall s | 0 <= s < |o|
      ensures s in free
    {
      assert free[s] == s;
    }
  }

  lemma AcquireKeepsList(o: seq<Order>, freeHead: nat, freeCount: nat, free: seq<nat>, taken: Order)
    requires FreeList(o, freeHead, freeCount, free) && free != []
    requires taken.inUse
    ensures freeHead < |o| && !o[freeHead].inUse && o[freeHead].next == LinkOr(free, 1, INVALID)
    ensures FreeList(o[freeHead := taken], LinkOr(free, 1, INVALID), freeCount - 1, free[1..])
  {
    var rest := free[1..];
    var o' := o[freeHead := taken];
    assert free[0] == freeHead && o[free[0]].next == LinkOr(free, 1, INVALID);
    forall i | 0 <= i < |rest|
      ensures rest[i] < |o'| && !o'[rest[i]].inUse && o'[rest[i]].next == LinkOr(rest, i + 1, INVALID)
    {
      assert rest[i] == free[i + 1] != free[0];
    }
    forall s | 0 <= s < |o'| && !o'[s].inUse
      ensures s in rest
    {
      StillListed(free, s);
    }
  }

  lemma StillListed(free: seq<nat>, s: nat)
    requires s in free && s != free[0]
    ensures s in free[1..]
  {
  }

  lemma ReleaseKeepsList(o: seq<Order>, freeHead: nat, freeCount: nat, free: seq<nat>, slot: nat, released: Order)
    requires FreeList(o, freeHead, freeCount, free)
    requires slot < |o| && o[slot].inUse
    requires !released.inUse && released.next == freeHead
    ensures FreeList(o[slot := released], slot, freeCount + 1, [slot] + free)
  {
    var free' := [slot] + free;
    var o' := o[slot := released];
    forall i | 0 <= i < |free'|
      ensures free'[i] < |o'| && !o'[free'[i]].inUse && o'[free'[i]].next == LinkOr(free', i + 1, INVALID)
    {
      assert i > 0 ==> free'[i] == free[i - 1];
    }
  }

  /** A repeat-free list of slots below `n` has at most `n` members. */
  lemma {:induction false} RepeatFreeIsShort(s: seq<nat>, n: nat)
    requires NoRepeats(s) && forall i :: 0 <= i < |s| ==> s[i] < n
    ensures |s| <= n
  {
    if s == [] {
      return;
    }
    assert s[0] < n;
    if (n - 1) in s {
      var k :| 0 <= k < |s| && s[k] == n - 1;
      var rest := s[..k] + s[k + 1..];
      forall i | 0 <= i < |rest|
        ensures rest[i] == s[if i < k then i else i + 1]
      {
      }
      RepeatFreeIsShort(rest, n - 1);
    } else {
      forall i | 0 <= i < |s|
        ensures s[i] < n - 1
      {
        assert s[i] in s;
      }
      RepeatFreeIsShort(s, n - 1);
    }
  }

  class OrderPool {
    const capacity: nat
    const orders: array<Order>
    var freeHead: nat
    var freeCount: nat
    ghost var free: seq<nat>

    ghost predicate Valid()
      reads this, orders
    {
      && orders.Length == capacity <= MAX_CAPACITY
      && FreeList(orders[..], freeHead, freeCount, free)
    }

    /** The program refuses a larger pool with an exception (`Create`). */
    constructor (capacity: nat)
      requires capacity <= MAX_CAPACITY
      ensures Valid() && fresh(orders) && this.capacity == capacity && freeCount == capacity
      ensures forall s :: 0 <= s < capacity ==> !orders[s].inUse
    {
      this.capacity := capacity;
      orders := new Order[capacity](_ => Order(0, 0, 0, 0, INVALID, INVALID, Bid, false));
      new;
      InitializeFreelist();
    }

    static method Create(capacity: nat) returns (pool: Option<OrderPool>)
      ensures pool.Some? <==> capacity <= MAX_CAPACITY
      ensures pool.Some? ==> pool.value.Valid() && fresh(pool.value) && pool.value.capacity == capacity
    {
      if capacity > MAX_CAPACITY {
        return None;
      }
      var p := new OrderPool(capacity);
      return Some(p);
    }

    method InitializeFreelist()
      requires orders.Length == capacity <= MAX_CAPACITY
      modifies this, orders
      ensures Valid() && freeCount == capacity
      ensures forall s :: 0 <= s < capacity ==> !orders[s].inUse
    {
      freeHead := if capacity == 0 then INVALID else 0;
      freeCount := capacity;
      var slot := 0;
      while slot < capacity
        invariant slot <= capacity
        invariant freeHead == (if capacity == 0 then INVALID else 0) && freeCount == capacity
        invariant forall s ::
          0 <= s < slot ==> !orders[s].inUse && orders[s].next == if s + 1 == capacity then INVALID else s + 1
      {
        orders[slot] := orders[slot].(next := if slot + 1 == capacity then INVALID else slot + 1, inUse := false);
        slot := slot + 1;
      }
      free := seq(capacity, i => i);
      FreshFreeList(orders[..]);
    }

    method Emplace(id: OrderId, owner: OwnerId, price: PriceTick, remaining: Quantity, side: Side) returns (slot: nat)
      requires Valid()
      modifies this, orders
      ensures Valid()
      ensures slot == INVALID <==> old(freeCount) == 0
      ensures slot == INVALID ==> orders[..] == old(orders[..]) && freeCount == old(freeCount)
      ensures slot != INVALID ==>
                && slot < capacity && !old(orders[slot].inUse)
                && orders[..]
                  == old(orders[..])[slot := Order(id, owner, price, remaining, INVALID, INVALID, side, true)]
                && freeCount == old(freeCount) - 1
    {
      if freeHead == INVALID {
        return INVALID;
      }
      slot := freeHead;
      AcquireKeepsList(orders[..], freeHead, freeCount, free,
          Order(id, owner, price, remaining, INVALID, INVALID, side, true));
      freeHead := orders[slot].next;
      freeCount := freeCount - 1;
      free := free[1..];
      orders[slot] := Order(id, owner, price, remaining, INVALID, INVALID, side, true);
      assert orders[..] == old(orders[..])[slot := Order(id, owner, price, remaining, INVALID, INVALID, side, true)];
    }

    /** An invalid or already free slot is ignored. */
    method Release(slot: nat)
      requires Valid()
      modifies this, orders
      ensures Valid()
      ensures var valid := slot < capacity && old(orders[..])[slot].inUse;
              && freeCount == old(freeCount) + (if valid then 1 else 0)
              && (!valid ==> orders[..] == old(orders[..]))
              && (valid ==>
                  orders[..] == old(orders[..])[slot := old(orders[..])[slot].(inUse := false, next := old(freeHead))])
    {
      var valid := slot < capacity && orders[slot].inUse;
      if !valid {
        return;
      }
      var released := orders[slot].(inUse := false, next := freeHead);
      ReleaseKeepsList(orders[..], freeHead, freeCount, free, slot, released);
      orders[slot] := released;
      assert orders[..] == old(orders[..])[slot := released];
      freeHead := slot;
      freeCount := freeCount + 1;
      free := [slot] + free;
    }

    function Contains(slot: nat): bool
      reads this, orders
    {
      slot < capacity && slot < orders.Length && orders[slot].inUse
    }

    /** The slow check accepts exactly the sound freelists, whatever the pool holds. */
    method ValidateFreelist() returns (ok: bool)
      requires orders.Length == capacity <= MAX_CAPACITY
      ensures ok <==> exists free :: FreeList(orders[..], freeHead, freeCount, free)
    {
      hide FreeList, Chain;
      ghost var o := orders[..];
      if capacity == 0 {
        EmptyPoolFreelist(o, freeHead, freeCount);
        return freeHead == INVALID && freeCount == 0;
      }
      var seen := new bool[capacity](_ => false);
      var count := 0;
      var current: nat := freeHead;
      ghost var walked: seq<nat> := [];
      StartWalk(o, freeHead);
      while current != INVALID
        invariant orders[..] == o && count == |walked| <= capacity
        invariant Chain(o, freeHead, walked, current)
        invariant forall s :: 0 <= s < capacity ==> (seen[s] <==> s in walked)
        decreases capacity - count
      {
        if current >= capacity || orders[current].inUse || seen[current] {
          BadStep(o, freeHead, freeCount, walked, current);
          return false;
        }
        WalkOn(o, freeHead, walked, current);
        seen[current] := true;
        count := count + 1;
        walked := walked + [current];
        current := orders[current].next;
      }
      if count != freeCount {
        WrongWalk(o, freeHead, freeCount, walked);
        return false;
      }
      var slot := 0;
      while slot < capacity
        invariant slot <= capacity
        invariant orders[..] == o
        invariant forall s :: 0 <= s < capacity ==> (seen[s] <==> s in walked)
        invariant forall s :: 0 <= s < slot ==> (o[s].inUse <==> s !in walked)
      {
        if orders[slot].inUse == seen[slot] {
          assert o[slot].inUse <==> slot in walked;
          WrongWalk(o, freeHead, freeCount, walked);
          return false;
        }
        slot := slot + 1;
      }
      RightWalk(o, freeHead, walked);
      return true;
    }
  }

  /** Any freelist starts with the slots walked so far. */
  lemma {:induction false} WalkIsPrefix(o: seq<Order>, freeHead: nat, freeCount: nat, free: seq<nat>, walked: seq<nat>,
                                        current: nat, k: nat)
    requires FreeList(o, freeHead, freeCount, free) && |o| <= MAX_CAPACITY
    requires Chain(o, freeHead, walked, current) && k <= |walked|
    ensures k <= |free| && forall i :: 0 <= i < k ==> walked[i] == free[i]
    ensures LinkOr(walked, k, current) == LinkOr(free, k, INVALID)
  {
    if k > 0 {
      WalkIsPrefix(o, freeHead, freeCount, free, walked, current, k - 1);
      assert walked[k - 1] < |o|;
    }
  }

  lemma StartWalk(o: seq<Order>, freeHead: nat)
    ensures Chain(o, freeHead, [], freeHead)
  {
  }

  lemma BadStep(o: seq<Order>, freeHead: nat, freeCount: nat, walked: seq<nat>, current: nat)
    requires |o| <= MAX_CAPACITY && Chain(o, freeHead, walked, current) && current != INVALID
    requires current >= |o| || o[current].inUse || current in walked
    ensures !exists free :: FreeList(o, freeHead, freeCount, free)
  {
    forall f | FreeList(o, freeHead, freeCount, f)
      ensures false
    {
      WalkIsPrefix(o, freeHead, freeCount, f, walked, current, |walked|);
    }
  }

  lemma WrongWalk(o: seq<Order>, freeHead: nat, freeCount: nat, walked: seq<nat>)
    requires |o| <= MAX_CAPACITY && Chain(o, freeHead, walked, INVALID)
    requires |walked| != freeCount || exists s :: 0 <= s < |o| && (o[s].inUse <==> s in walked)
    ensures !exists free :: FreeList(o, freeHead, freeCount, free)
  {
    forall f | FreeList(o, freeHead, freeCount, f)
      ensures false
    {
      WalkIsPrefix(o, freeHead, freeCount, f, walked, INVALID, |walked|);
    }
  }

  lemma RightWalk(o: seq<Order>, freeHead: nat, walked: seq<nat>)
    requires Chain(o, freeHead, walked, INVALID)
    requires forall s :: 0 <= s < |o| ==> (o[s].inUse <==> s !in walked)
    ensures FreeList(o, freeHead, |walked|, walked)
  {
  }

  lemma EmptyPoolFreelist(o: seq<Order>, freeHead: nat, freeCount: nat)
    requires o == []
    ensures (freeHead == INVALID && freeCount == 0) <==> exists free :: FreeList(o, freeHead, freeCount, free)
  {
    if freeHead == INVALID && freeCount == 0 {
      assert FreeList(o, freeHead, freeCount, []);
    }
  }

  lemma WalkOn(o: seq<Order>, freeHead: nat, walked: seq<nat>, current: nat)
    requires Chain(o, freeHead, walked, current)
    requires current < |o| && !o[current].inUse && current !in walked
    ensures Chain(o, freeHead, walked + [current], o[current].next)
    ensures |walked| < |o|
  {
    var walked' := walked + [current];
    RepeatFreeIsShort(walked', |o|);
    forall i | 0 <= i < |walked'|
      ensures o[walked'[i]].next == LinkOr(walked', i + 1, o[current].next)
    {
      if i < |walked| {
        assert walked'[i] == walked[i];
      }
    }
  }
}
