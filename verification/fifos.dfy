/** Intrusive FIFO lists over the order pool, as values: `f` is the list of slots of one
    price level, `o` the pool's order array. */
module Fifos {
  import opened BookTypes
  import opened OrderPools

  function PrevOf(f: seq<nat>, i: nat): nat {
    if 0 < i <= |f| then f[i - 1] else INVALID
  }

  /** The `i`-th order of the list is linked to its neighbours and belongs to the level. */
  ghost predicate Node(o: seq<Order>, f: seq<nat>, i: nat, side: Side, price: nat)
    requires i < |f|
  {
    && f[i] < |o|
    && o[f[i]].inUse && o[f[i]].side == side && o[f[i]].price == price && o[f[i]].remaining > 0
    && o[f[i]].prev == PrevOf(f, i)
    && o[f[i]].next == LinkOr(f, i + 1, INVALID)
  }

  ghost predicate Fifo(o: seq<Order>, f: seq<nat>, side: Side, price: nat) {
    && NoRepeats(f)
    && forall i :: 0 <= i < |f| ==> Node(o, f, i, side, price)
  }

  lemma NodeAt(o: seq<Order>, f: seq<nat>, i: nat, side: Side, price: nat)
    requires Fifo(o, f, side, price) && i < |f|
    ensures f[i] < |o| && o[f[i]].inUse && o[f[i]].next == LinkOr(f, i + 1, INVALID) && o[f[i]].prev == PrevOf(f, i)
    ensures o[f[i]].remaining > 0 && o[f[i]].side == side && o[f[i]].price == price
  {
    assert Node(o, f, i, side, price);
  }

  /** The exact sum of the remaining quantities, in FIFO order. */
  function SumRemaining(o: seq<Order>, f: seq<nat>): nat
    requires forall i :: 0 <= i < |f| ==> f[i] < |o|
  {
    if f == [] then 0 else SumRemaining(o, f[..|f| - 1]) + o[f[|f| - 1]].remaining
  }

  // ---------------------------------------------------------------- frames and sums

  lemma FifoFrame(o: seq<Order>, o': seq<Order>, f: seq<nat>, side: Side, price: nat)
    requires Fifo(o, f, side, price) && |o'| == |o|
    requires forall i :: 0 <= i < |f| ==> f[i] < |o| && o'[f[i]] == o[f[i]]
    ensures Fifo(o', f, side, price) && SumRemaining(o', f) == SumRemaining(o, f)
  {
    forall i | 0 <= i < |f|
      ensures Node(o', f, i, side, price)
    {
      assert Node(o, f, i, side, price);
      assert o'[f[i]] == o[f[i]];
    }
    SumFrame(o, o', f);
  }

  lemma {:induction false} SumFrame(o: seq<Order>, o': seq<Order>, f: seq<nat>)
    requires forall i :: 0 <= i < |f| ==> f[i] < |o| && f[i] < |o'| && o'[f[i]].remaining == o[f[i]].remaining
    ensures SumRemaining(o', f) == SumRemaining(o, f)
  {
    if f != [] {
      SumFrame(o, o', f[..|f| - 1]);
    }
  }

  lemma LastOfSum(o: seq<Order>, f: seq<nat>, s: nat, g: seq<nat>)
    requires forall i :: 0 <= i < |f| ==> f[i] < |o|
    requires s < |o| && g == f + [s]
    ensures SumRemaining(o, g) == SumRemaining(o, f) + o[s].remaining
  {
    assert g[..|g| - 1] == f;
  }

  /** Taking one order out of a list takes its quantity out of the sum. */
  lemma {:induction false} SumSplit(o: seq<Order>, f: seq<nat>, i: nat)
    requires forall j :: 0 <= j < |f| ==> f[j] < |o|
    requires i < |f|
    ensures SumRemaining(o, f) == SumRemaining(o, f[..i] + f[i + 1..]) + o[f[i]].remaining
    decreases |f|
  {
    var k := |f| - 1;
    var init, last := f[..k], f[k];
    assert f == init + [last];
    LastOfSum(o, init, last, f);
    if i == k {
      assert f[..i] + f[i + 1..] == init;
    } else {
      SumSplit(o, init, i);
      var rest := init[..i] + init[i + 1..];
      assert f[..i] + f[i + 1..] == rest + [last];
      LastOfSum(o, rest, last, rest + [last]);
    }
  }

  /** No sum of up to 2^32 - 2 quantities overflows the 64-bit totals. */
  lemma {:induction false} SumFits(o: seq<Order>, f: seq<nat>)
    requires forall i :: 0 <= i < |f| ==> f[i] < |o|
    ensures SumRemaining(o, f) <= |f| * 0xFFFF_FFFF
  {
    if f != [] {
      SumFits(o, f[..|f| - 1]);
    }
  }

  // ---------------------------------------------------------------- append

  /** The pool after `slot` was linked behind the tail of `f`. */
  function Appended(o: seq<Order>, f: seq<nat>, slot: nat): seq<Order>
    requires slot < |o| && forall i :: 0 <= i < |f| ==> f[i] < |o|
  {
    var o1 := o[slot := o[slot].(prev := PrevOf(f, |f|), next := INVALID)];
    if f == [] then o1 else o1[f[|f| - 1] := o1[f[|f| - 1]].(next := slot)]
  }

  lemma AppendKeepsFifo(o: seq<Order>, f: seq<nat>, slot: nat, side: Side, price: nat)
    requires Fifo(o, f, side, price)
    requires forall i :: 0 <= i < |f| ==> f[i] < |o|
    requires slot < |o| && slot !in f && o[slot].inUse && o[slot].side == side && o[slot].price == price
      && o[slot].remaining > 0
    ensures Fifo(Appended(o, f, slot), f + [slot], side, price)
  {
    var f' := f + [slot];
    var o' := Appended(o, f, slot);
    forall i | 0 <= i < |f'|
      ensures Node(o', f', i, side, price)
    {
      if i < |f| {
        assert Node(o, f, i, side, price);
        assert f'[i] == f[i];
        assert f[i] in f;
      }
    }
    forall i, j | 0 <= i < j < |f'|
      ensures f'[i] != f'[j]
    {
      assert f[i] in f;
    }
  }

  lemma AppendAddsQuantity(o: seq<Order>, f: seq<nat>, slot: nat)
    requires slot < |o| && forall i :: 0 <= i < |f| ==> f[i] < |o|
    requires slot !in f
    ensures forall i :: 0 <= i < |f + [slot]| ==> (f + [slot])[i] < |o|
    ensures SumRemaining(Appended(o, f, slot), f + [slot]) == SumRemaining(o, f) + o[slot].remaining
  {
    var o' := Appended(o, f, slot);
    SumFrame(o, o', f);
    assert (f + [slot])[..|f|] == f;
  }

  // ---------------------------------------------------------------- remove

  function Without(f: seq<nat>, i: nat): seq<nat>
    requires i < |f|
  {
    f[..i] + f[i + 1..]
  }

  /** The pool after the `i`-th order of `f` was unlinked. */
  function Unlinked(o: seq<Order>, f: seq<nat>, i: nat): seq<Order>
    requires i < |f| && forall j :: 0 <= j < |f| ==> f[j] < |o|
  {
    var o1 := if i == 0 then o else o[f[i - 1] := o[f[i - 1]].(next := LinkOr(f, i + 1, INVALID))];
    var o2 := if i + 1 == |f| then o1 else o1[f[i + 1] := o1[f[i + 1]].(prev := PrevOf(f, i))];
    o2[f[i] := o2[f[i]].(prev := INVALID, next := INVALID)]
  }

  lemma UnlinkedAt(o: seq<Order>, f: seq<nat>, i: nat, s: nat)
    requires NoRepeats(f)
    requires i < |f| && forall j :: 0 <= j < |f| ==> f[j] < |o|
    requires s < |o|
    ensures s !in f ==> Unlinked(o, f, i)[s] == o[s]
    ensures forall j :: 0 <= j < |f| && f[j] == s && j != i ==>
      Unlinked(o, f, i)[s] == o[s].(next := if j + 1 == i then LinkOr(f, i + 1, INVALID) else o[s].next,
                                    prev := if j == i + 1 then PrevOf(f, i) else o[s].prev)
    ensures Unlinked(o, f, i)[s].View() == o[s].View() && Unlinked(o, f, i)[s].inUse == o[s].inUse
  {
  }

  lemma RemoveKeepsNode(o: seq<Order>, f: seq<nat>, i: nat, j: nat, side: Side, price: nat)
    requires Fifo(o, f, side, price) && i < |f|
    requires forall m :: 0 <= m < |f| ==> f[m] < |o|
    requires j < |Without(f, i)|
    ensures Node(Unlinked(o, f, i), Without(f, i), j, side, price)
  {
    var f' := Without(f, i);
    var m := if j < i then j else j + 1;
    assert Node(o, f, m, side, price);
    assert f'[j] == f[m];
    UnlinkedAt(o, f, i, f[m]);
    assert j > 0 ==> f'[j - 1] == f[if j - 1 < i then j - 1 else j];
    assert j + 1 < |f'| ==> f'[j + 1] == f[if j + 1 < i then j + 1 else j + 2];
  }

  lemma RemoveKeepsFifo(o: seq<Order>, f: seq<nat>, i: nat, side: Side, price: nat)
    requires Fifo(o, f, side, price) && i < |f|
    requires forall m :: 0 <= m < |f| ==> f[m] < |o|
    ensures Fifo(Unlinked(o, f, i), Without(f, i), side, price)
    ensures forall m :: 0 <= m < |Without(f, i)| ==> Without(f, i)[m] < |o|
    ensures SumRemaining(Unlinked(o, f, i), Without(f, i)) == SumRemaining(o, f) - o[f[i]].remaining
    ensures f[i] !in Without(f, i)
  {
    var f' := Without(f, i);
    forall j | 0 <= j < |f'|
      ensures Node(Unlinked(o, f, i), f', j, side, price) && f'[j] == f[if j < i then j else j + 1]
    {
      RemoveKeepsNode(o, f, i, j, side, price);
    }
    forall m | 0 <= m < |f'|
      ensures Unlinked(o, f, i)[f'[m]].remaining == o[f'[m]].remaining
    {
      UnlinkedAt(o, f, i, f'[m]);
    }
    SumFrame(o, Unlinked(o, f, i), f');
    SumSplit(o, f, i);
  }

  // ---------------------------------------------------------------- set_remaining

  lemma SetKeepsFifo(o: seq<Order>, f: seq<nat>, i: nat, r: Quantity, side: Side, price: nat)
    requires Fifo(o, f, side, price) && i < |f| && r > 0
    requires forall m :: 0 <= m < |f| ==> f[m] < |o|
    ensures var o' := o[f[i] := o[f[i]].(remaining := r)];
            && Fifo(o', f, side, price)
            && SumRemaining(o', f) == SumRemaining(o, f) - o[f[i]].remaining + r
  {
    var o' := o[f[i] := o[f[i]].(remaining := r)];
    forall j | 0 <= j < |f|
      ensures Node(o', f, j, side, price)
    {
      assert Node(o, f, j, side, price);
    }
    SumSplit(o, f, i);
    SumSplit(o', f, i);
    assert f[i] !in Without(f, i);
    SumFrame(o, o', Without(f, i));
  }
}
