/** The open-addressing OrderId -> slot index with backward-shift deletion.

    The bucket count is a power of two in the program, so `x & (count - 1)` is reduction
    modulo the count; `Next` and `Dist` below are that arithmetic on positions
    (`MaskedSteps`). The hash is an arbitrary function of the id. */
module OrderIdIndexes {
  import opened BookTypes
  import opened Modular

  datatype Bucket = Empty | Occupied(id: OrderId, slot: nat)

  datatype IndexInsertStatus = Ok | Duplicate | Full

  function Next(p: nat, n: nat): nat {
    if p + 1 == n then 0 else p + 1
  }

  /** Steps from `from` to `to` going up and around a table of `n` buckets. */
  function Dist(from: nat, to: nat, n: nat): int {
    if from <= to then to - from else to - from + n
  }

  lemma MaskedSteps(p: nat, q: nat, n: nat)
    requires p < n && q < n
    ensures Next(p, n) == (p + 1) % n
    ensures Dist(p, q, n) == (q - p) % n
  {
    if q < p {
      ModAddsBack(q - p, n);
    }
  }

  lemma ModAddsBack(x: int, n: nat)
    requires x < 0 < x + n
    ensures x % n == x + n
  {
    assert x == -1 * n + (x + n);
  }

  // ---------------------------------------------------------------- the table as a value

  /** No two buckets hold one id. */
  ghost predicate Distinct(b: seq<Bucket>) {
    forall p, q :: 0 <= p < q < |b| && b[p].Occupied? && b[q].Occupied? ==> b[p].id != b[q].id
  }

  /** `m` lists exactly the occupied buckets. */
  ghost predicate Lists(b: seq<Bucket>, m: map<OrderId, nat>) {
    && (forall p :: 0 <= p < |b| && b[p].Occupied? ==> b[p].id in m && m[b[p].id] == b[p].slot)
    && (forall id :: id in m ==> exists p :: 0 <= p < |b| && b[p] == Occupied(id, m[id]))
  }

  ghost predicate Homes(home: OrderId -> nat, n: nat) {
    forall id :: home(id) < n
  }

  /** The probe path of the entry at `p` starts at its home, does not pass the cut `c`,
      and has only occupied buckets before `p`, except that the bucket `hole` may be empty
      when `excused`. */
  ghost predicate Placed(b: seq<Bucket>, home: OrderId -> nat, c: nat, hole: nat, excused: bool, p: nat)
    requires p < |b|
  {
    b[p].Occupied? ==>
      var h := home(b[p].id);
      && Dist(c, h, |b|) <= Dist(c, p, |b|)
      && forall q ::
        0 <= q < |b| && Dist(c, h, |b|) <= Dist(c, q, |b|) < Dist(c, p, |b|) && b[q].Empty? ==> excused && q == hole
  }

  /** Every entry is placed. No probe path passes the cut, also in a full table. */
  ghost predicate AllPlaced(b: seq<Bucket>, home: OrderId -> nat, c: nat) {
    forall p :: 0 <= p < |b| ==> Placed(b, home, c, 0, false, p)
  }

  ghost predicate TableInv(b: seq<Bucket>, home: OrderId -> nat, c: nat, m: map<OrderId, nat>) {
    && c < |b|
    && Homes(home, |b|)
    && Distinct(b)
    && Lists(b, m)
    && AllPlaced(b, home, c)
  }

  /** The position of the `d`-th probe from `h`. */
  function Probe(h: nat, d: nat, n: nat): nat {
    if h + d < n then h + d else h + d - n
  }

  /** The first `probes` buckets probed for `id` are occupied by other ids. */
  ghost predicate Missed(b: seq<Bucket>, h: nat, id: OrderId, probes: nat)
    requires h < |b| && probes <= |b|
  {
    forall d :: 0 <= d < probes ==> b[Probe(h, d, |b|)].Occupied? && b[Probe(h, d, |b|)].id != id
  }

  lemma ProbeInverse(h: nat, p: nat, n: nat)
    requires h < n && p < n
    ensures 0 <= Dist(h, p, n) < n && Probe(h, Dist(h, p, n), n) == p
  {
  }

  /** An entry is found before the first empty bucket of its probe path. */
  lemma OnlyAbsentBeforeEmpty(b: seq<Bucket>, home: OrderId -> nat, c: nat, p: nat, probes: nat)
    requires c < |b| && Homes(home, |b|) && p < |b| && b[p].Occupied?
    requires Placed(b, home, c, 0, false, p)
    requires probes < |b| && b[Probe(home(b[p].id), probes, |b|)].Empty?
    ensures Dist(home(b[p].id), p, |b|) < probes
    ensures p == Probe(home(b[p].id), Dist(home(b[p].id), p, |b|), |b|)
  {
    var h := home(b[p].id);
    var q := Probe(h, probes, |b|);
    ProbeInverse(h, p, |b|);
    assert !(Dist(c, h, |b|) <= Dist(c, q, |b|) < Dist(c, p, |b|));
  }

  /** Probing may stop at the first empty bucket. */
  lemma AbsentAtEmpty(b: seq<Bucket>, home: OrderId -> nat, c: nat, m: map<OrderId, nat>, id: OrderId, probes: nat)
    requires TableInv(b, home, c, m)
    requires probes < |b| && Missed(b, home(id), id, probes)
    requires b[Probe(home(id), probes, |b|)].Empty?
    ensures id !in m
  {
    var n := |b|;
    var h := home(id);
    if id in m {
      var p :| 0 <= p < n && b[p] == Occupied(id, m[id]);
      OnlyAbsentBeforeEmpty(b, home, c, p, probes);
    }
  }

  /** Probing every bucket without a hit also shows absence. */
  lemma AbsentAfterAll(b: seq<Bucket>, home: OrderId -> nat, c: nat, m: map<OrderId, nat>, id: OrderId)
    requires TableInv(b, home, c, m)
    requires Missed(b, home(id), id, |b|)
    ensures id !in m
    ensures forall p :: 0 <= p < |b| ==> b[p].Occupied?
  {
    forall p | 0 <= p < |b|
      ensures b[p].Occupied? && b[p].id != id
    {
      ProbeInverse(home(id), p, |b|);
      var d := Dist(home(id), p, |b|);
      assert b[Probe(home(id), d, |b|)].Occupied?;
    }
  }

  /** Filling the first empty bucket `e` of the probe path keeps the table, with the cut
      moved just past `e`: before the insertion no path ran through `e`. */
  lemma FillKeepsTable(b: seq<Bucket>, home: OrderId -> nat, c: nat, m: map<OrderId, nat>,
                       id: OrderId, slot: nat, probes: nat)
    requires TableInv(b, home, c, m)
    requires probes < |b| && Missed(b, home(id), id, probes)
    requires b[Probe(home(id), probes, |b|)].Empty?
    ensures var e := Probe(home(id), probes, |b|);
            TableInv(b[e := Occupied(id, slot)], home, Next(e, |b|), m[id := slot])
  {
    var n := |b|;
    var h := home(id);
    var e := Probe(h, probes, n);
    var b' := b[e := Occupied(id, slot)];
    var c' := Next(e, n);
    AbsentAtEmpty(b, home, c, m, id, probes);
    FillLists(b, m, e, id, slot);
    forall p | 0 <= p < n
      ensures Placed(b', home, c', 0, false, p)
    {
      assert Placed(b, home, c, 0, false, p);
      if p == e {
        forall q | 0 <= q < n && Dist(c', h, n) <= Dist(c', q, n) < Dist(c', e, n)
          ensures b'[q].Occupied?
        {
          ProbeInverse(h, q, n);
          assert b[Probe(h, Dist(h, q, n), n)].Occupied?;
        }
      } else if b[p].Occupied? {
        FillKeepsPlace(b, home, c, e, id, slot, p);
      }
    }
  }

  lemma FillLists(b: seq<Bucket>, m: map<OrderId, nat>, e: nat, id: OrderId, slot: nat)
    requires Distinct(b) && Lists(b, m) && id !in m
    requires e < |b| && b[e].Empty?
    ensures Distinct(b[e := Occupied(id, slot)]) && Lists(b[e := Occupied(id, slot)], m[id := slot])
  {
    var b' := b[e := Occupied(id, slot)];
    var m' := m[id := slot];
    forall i | i in m'
      ensures exists p :: 0 <= p < |b'| && b'[p] == Occupied(i, m'[i])
    {
      if i == id {
        assert b'[e] == Occupied(i, m'[i]);
      } else {
        var p :| 0 <= p < |b| && b[p] == Occupied(i, m[i]);
        assert b'[p] == Occupied(i, m'[i]);
      }
    }
  }

  lemma FillKeepsPlace(b: seq<Bucket>, home: OrderId -> nat, c: nat, e: nat, id: OrderId, slot: nat, p: nat)
    requires c < |b| && Homes(home, |b|) && e < |b| && p < |b| && p != e
    requires b[e].Empty? && b[p].Occupied? && Placed(b, home, c, 0, false, p)
    ensures Placed(b[e := Occupied(id, slot)], home, Next(e, |b|), 0, false, p)
  {
    var n := |b|;
    var h := home(b[p].id);
    var c' := Next(e, n);
    assert !(Dist(c, h, n) <= Dist(c, e, n) < Dist(c, p, n));
    var b' := b[e := Occupied(id, slot)];
    assert Dist(c', h, n) <= Dist(c', p, n);
    forall q | 0 <= q < n && Dist(c', h, n) <= Dist(c', q, n) < Dist(c', p, n)
      ensures b'[q].Occupied?
    {
      assert Dist(c, h, n) <= Dist(c, q, n) < Dist(c, p, n);
    }
  }

  // ---------------------------------------------------------------- backward shift

  /** The table while `erase_at` repairs it: `hole` is empty; an entry whose path still runs
      through the hole lies at or after the scan position `next`, counted from the cut. */
  ghost predicate Repairing(b: seq<Bucket>, home: OrderId -> nat, c: nat, hole: nat, next: int) {
    && c < |b| && hole < |b| && Homes(home, |b|) && b[hole].Empty?
    && forall p :: 0 <= p < |b| ==> Placed(b, home, c, hole, next <= Dist(c, p, |b|), p)
  }

  lemma StartRepair(b: seq<Bucket>, home: OrderId -> nat, c: nat, m: map<OrderId, nat>, p: nat)
    requires TableInv(b, home, c, m)
    requires p < |b| && b[p].Occupied?
    ensures b[p].id in m
    ensures var b' := b[p := Empty];
            Repairing(b', home, c, p, Dist(c, p, |b|) + 1) && Distinct(b') && Lists(b', m - {b[p].id})
  {
    var n := |b|;
    var b' := b[p := Empty];
    forall q | 0 <= q < n
      ensures Placed(b', home, c, p, Dist(c, p, n) + 1 <= Dist(c, q, n), q)
    {
      assert Placed(b, home, c, 0, false, q);
    }
    var m' := m - {b[p].id};
    forall i | i in m'
      ensures exists q :: 0 <= q < |b'| && b'[q] == Occupied(i, m'[i])
    {
      var q :| 0 <= q < n && b[q] == Occupied(i, m[i]);
      assert b'[q] == Occupied(i, m'[i]);
    }
  }

  /** Moving the candidate into the hole, when the hole lies on the candidate's path. */
  lemma ShiftKeepsPlaces(b: seq<Bucket>, home: OrderId -> nat, c: nat, hole: nat, cand: nat)
    requires Repairing(b, home, c, hole, Dist(c, cand, |b|))
    requires cand < |b| && b[cand].Occupied? && Dist(c, hole, |b|) < Dist(c, cand, |b|)
    requires Dist(home(b[cand].id), hole, |b|) < Dist(home(b[cand].id), cand, |b|)
    ensures Repairing(b[hole := b[cand]][cand := Empty], home, c, cand, Dist(c, cand, |b|) + 1)
  {
    var n := |b|;
    var b' := b[hole := b[cand]][cand := Empty];
    assert Placed(b, home, c, hole, true, cand);
    forall p | 0 <= p < n
      ensures Placed(b', home, c, cand, Dist(c, cand, n) + 1 <= Dist(c, p, n), p)
    {
      assert Placed(b, home, c, hole, Dist(c, cand, n) <= Dist(c, p, n), p);
      if p != cand && p != hole && b[p].Occupied? {
        var h := home(b[p].id);
        forall q | 0 <= q < n && Dist(c, h, n) <= Dist(c, q, n) < Dist(c, p, n) && b'[q].Empty?
          ensures Dist(c, cand, n) + 1 <= Dist(c, p, n) && q == cand
        {
          assert b[q].Empty? || q == cand;
        }
      }
    }
  }

  lemma ShiftKeepsEntries(b: seq<Bucket>, hole: nat, cand: nat, m: map<OrderId, nat>)
    requires Distinct(b) && Lists(b, m)
    requires hole < |b| && cand < |b| && b[hole].Empty? && b[cand].Occupied?
    ensures Distinct(b[hole := b[cand]][cand := Empty]) && Lists(b[hole := b[cand]][cand := Empty], m)
  {
    var b' := b[hole := b[cand]][cand := Empty];
    forall i | i in m
      ensures exists q :: 0 <= q < |b'| && b'[q] == Occupied(i, m[i])
    {
      var q :| 0 <= q < |b| && b[q] == Occupied(i, m[i]);
      assert b'[if q == cand then hole else q] == Occupied(i, m[i]);
    }
  }

  /** A candidate whose path does not run through the hole stays. */
  lemma SkipKeepsRepair(b: seq<Bucket>, home: OrderId -> nat, c: nat, hole: nat, cand: nat)
    requires Repairing(b, home, c, hole, Dist(c, cand, |b|))
    requires cand < |b| && b[cand].Occupied? && Dist(c, hole, |b|) < Dist(c, cand, |b|)
    requires Dist(home(b[cand].id), hole, |b|) >= Dist(home(b[cand].id), cand, |b|)
    ensures Repairing(b, home, c, hole, Dist(c, cand, |b|) + 1)
  {
    var n := |b|;
    assert Placed(b, home, c, hole, true, cand);
    forall p | 0 <= p < n
      ensures Placed(b, home, c, hole, Dist(c, cand, n) + 1 <= Dist(c, p, n), p)
    {
      assert Placed(b, home, c, hole, Dist(c, cand, n) <= Dist(c, p, n), p);
      if Dist(c, p, n) == Dist(c, cand, n) {
        assert p == cand;
      }
    }
  }

  /** The scan is over when the whole table after the hole was seen or an empty bucket ends
      the cluster: no path runs through the hole any more. */
  lemma RepairDone(b: seq<Bucket>, home: OrderId -> nat, c: nat, hole: nat, next: int, cand: nat)
    requires Repairing(b, home, c, hole, next)
    requires next >= |b| || (cand < |b| && Dist(c, cand, |b|) == next && Dist(c, hole, |b|) < next && b[cand].Empty?)
    ensures AllPlaced(b, home, c)
  {
    var n := |b|;
    forall p | 0 <= p < n
      ensures Placed(b, home, c, 0, false, p)
    {
      assert Placed(b, home, c, hole, next <= Dist(c, p, n), p);
      if next < n && b[p].Occupied? && next <= Dist(c, p, n) {
        assert p != cand;
        assert next < Dist(c, p, n);
        assert !(Dist(c, home(b[p].id), n) <= Dist(c, cand, n));
      }
    }
  }

  /** Past the cut the scan only meets entries that stay where they are. */
  lemma WrappedCandidateStays(b: seq<Bucket>, home: OrderId -> nat, c: nat, hole: nat, cand: nat)
    requires Repairing(b, home, c, hole, |b|)
    requires cand < |b| && b[cand].Occupied? && Dist(c, cand, |b|) < Dist(c, hole, |b|)
    ensures Dist(home(b[cand].id), hole, |b|) >= Dist(home(b[cand].id), cand, |b|)
  {
    assert Placed(b, home, c, hole, false, cand);
  }

  /** The table after one step of the scan, and the hole then. */
  function Shifted(b: seq<Bucket>, home: OrderId -> nat, hole: nat, cand: nat): seq<Bucket>
    requires hole < |b| && cand < |b| && b[cand].Occupied?
  {
    if Dist(home(b[cand].id), hole, |b|) < Dist(home(b[cand].id), cand, |b|)
    then b[hole := b[cand]][cand := Empty] else b
  }

  function ShiftedHole(b: seq<Bucket>, home: OrderId -> nat, hole: nat, cand: nat): nat
    requires hole < |b| && cand < |b| && b[cand].Occupied?
  {
    if Dist(home(b[cand].id), hole, |b|) < Dist(home(b[cand].id), cand, |b|) then cand else hole
  }

  /** The state of the scan after `scanned` buckets. `e` is the erased position's distance
      from the cut; the scan may wrap past the cut, where it only meets entries that stay. */
  ghost predicate Scanning(b: seq<Bucket>, home: OrderId -> nat, c: nat, hole: nat, cand: nat, e: int, scanned: nat,
                           m: map<OrderId, nat>) {
    && Repairing(b, home, c, hole, Min(e + 1 + scanned, |b|)) && Distinct(b) && Lists(b, m)
    && hole < |b| && cand < |b| && scanned < |b|
    && 0 <= e <= Dist(c, hole, |b|) < e + 1 + scanned
    && Dist(c, cand, |b|) == if e + 1 + scanned < |b| then e + 1 + scanned else e + 1 + scanned - |b|
  }

  lemma StartScan(b: seq<Bucket>, home: OrderId -> nat, c: nat, m: map<OrderId, nat>, p: nat)
    requires TableInv(b, home, c, m)
    requires p < |b| && b[p].Occupied?
    ensures b[p].id in m && |m - {b[p].id}| == |m| - 1
    ensures Scanning(b[p := Empty], home, c, p, Next(p, |b|), Dist(c, p, |b|), 0, m - {b[p].id})
  {
    hide Repairing, Distinct, Lists;
    StartRepair(b, home, c, m, p);
    assert m.Keys == (m - {b[p].id}).Keys + {b[p].id};
  }

  lemma ScanStep(b: seq<Bucket>, home: OrderId -> nat, c: nat, hole: nat, cand: nat, e: int, scanned: nat,
                 m: map<OrderId, nat>)
    requires Scanning(b, home, c, hole, cand, e, scanned, m)
    requires scanned + 1 < |b| && cand < |b| && b[cand].Occupied? && hole < |b|
    ensures Scanning(Shifted(b, home, hole, cand), home, c, ShiftedHole(b, home, hole, cand), Next(cand, |b|), e,
        scanned + 1, m)
  {
    hide Distinct, Lists, Placed;
    if e + 1 + scanned >= |b| {
      WrappedCandidateStays(b, home, c, hole, cand);
    } else if Dist(home(b[cand].id), hole, |b|) < Dist(home(b[cand].id), cand, |b|) {
      ShiftKeepsPlaces(b, home, c, hole, cand);
      ShiftKeepsEntries(b, hole, cand, m);
    } else {
      SkipKeepsRepair(b, home, c, hole, cand);
    }
  }

  lemma ScanDone(b: seq<Bucket>, home: OrderId -> nat, c: nat, hole: nat, cand: nat, e: int, scanned: nat,
                 m: map<OrderId, nat>)
    requires Scanning(b, home, c, hole, cand, e, scanned, m)
    requires scanned + 1 == |b| || (cand < |b| && b[cand].Empty?)
    ensures TableInv(b, home, c, m)
  {
    hide Distinct, Lists, Placed, AllPlaced;
    if e + 1 + scanned >= |b| {
      assert Min(e + 1 + scanned, |b|) == |b|;
    }
    RepairDone(b, home, c, hole, Min(e + 1 + scanned, |b|), cand);
  }

  // ---------------------------------------------------------------- occupied buckets

  ghost predicate AllOccupied(b: seq<Bucket>) {
    forall p :: 0 <= p < |b| ==> b[p].Occupied?
  }

  lemma DropLast(b: seq<Bucket>, m: map<OrderId, nat>)
    requires |b| > 0 && Distinct(b) && Lists(b, m)
    ensures var k := |b| - 1;
            var m0 := if b[k].Empty? then m else m - {b[k].id};
            Distinct(b[..k]) && Lists(b[..k], m0) && |m| == if b[k].Empty? then |m0| else |m0| + 1
  {
    var k := |b| - 1;
    var b0 := b[..k];
    var m0 := if b[k].Empty? then m else m - {b[k].id};
    forall i | i in m0
      ensures exists p :: 0 <= p < |b0| && b0[p] == Occupied(i, m0[i])
    {
      var p :| 0 <= p < |b| && b[p] == Occupied(i, m[i]);
      assert b0[p] == b[p];
    }
    if b[k].Occupied? {
      assert m.Keys == m0.Keys + {b[k].id};
    }
  }

  lemma NoBucketsNoIds(b: seq<Bucket>, m: map<OrderId, nat>)
    requires |b| == 0 && Lists(b, m)
    ensures |m| == 0
  {
    assert m.Keys == {};
  }

  /** As many ids as occupied buckets: a table with an empty bucket holds fewer ids than
      buckets, a full one exactly as many. */
  lemma {:induction false} KeysAreOccupied(b: seq<Bucket>, m: map<OrderId, nat>)
    requires Distinct(b) && Lists(b, m)
    ensures |m| <= |b|
    ensures |m| == |b| <==> AllOccupied(b)
    decreases |b|
  {
    hide Distinct, Lists;
    if |b| == 0 {
      NoBucketsNoIds(b, m);
    } else {
      var k := |b| - 1;
      var m0 := if b[k].Empty? then m else m - {b[k].id};
      DropLast(b, m);
      KeysAreOccupied(b[..k], m0);
      assert forall p :: 0 <= p < k ==> b[..k][p] == b[p];
    }
  }

  // ---------------------------------------------------------------- the index object

  class OrderIdIndex {
    const home: OrderId -> nat  // the masked hash
    const buckets: array<Bucket>
    var size: nat
    ghost var contents: map<OrderId, nat>
    ghost var cut: nat

    ghost predicate Valid()
      reads this, buckets
    {
      && size == |contents|
      && buckets.Length > 0
      && TableInv(buckets[..], home, cut, contents)
    }

    static method BucketCountFor(capacity: nat) returns (count: nat)
      ensures count >= (if capacity == 0 then 1 else 2 * capacity + 1)
      ensures PowerOfTwo(count)
      ensures count == 1 || count / 2 < 2 * capacity + 1
    {
      count := 1;
      var required := if capacity == 0 then 1 else 2 * capacity + 1;
      while count < required
        invariant PowerOfTwo(count)
        invariant count == 1 || count / 2 < required
      {
        count := 2 * count;
      }
    }

    constructor (capacity: nat, hash: OrderId -> nat)
      ensures Valid() && fresh(buckets)
      ensures contents == map[] && forall id :: home(id) == hash(id) % buckets.Length
      ensures buckets.Length > 2 * capacity || (capacity == 0 && buckets.Length == 1)
    {
      var count := BucketCountFor(capacity);
      home := id => hash(id) % count;
      buckets := new Bucket[count];
      new;
      Clear();
    }

    method Clear()
      requires buckets.Length > 0 && Homes(home, buckets.Length)
      modifies this, buckets
      ensures Valid() && contents == map[]
    {
      size := 0;
      var i := 0;
      while i < buckets.Length
        invariant i <= buckets.Length && size == 0
        invariant forall j :: 0 <= j < i ==> buckets[j].Empty?
      {
        buckets[i] := Empty;
        i := i + 1;
      }
      contents := map[];
      cut := 0;
    }

    method Find(id: OrderId) returns (slot: nat)
      requires Valid()
      ensures slot == if id in contents then contents[id] else INVALID
    {
      var n := buckets.Length;
      ghost var b := buckets[..];
      var pos := home(id);
      var probe := 0;
      while probe < n
        invariant probe <= n && (probe < n ==> pos == Probe(home(id), probe, n))
        invariant Missed(b, home(id), id, probe)
      {
        match buckets[pos] {
          case Empty =>
            AbsentAtEmpty(b, home, cut, contents, id, probe);
            return INVALID;
          case Occupied(i, s) =>
            if i == id {
              assert b[pos].Occupied?;
              return s;
            }
        }
        pos := Next(pos, n);
        probe := probe + 1;
      }
      AbsentAfterAll(b, home, cut, contents, id);
      return INVALID;
    }

    method Insert(id: OrderId, slot: nat) returns (status: IndexInsertStatus)
      requires Valid()
      modifies this, buckets
      ensures Valid()
      ensures status == if id in old(contents) then Duplicate
                        else if |old(contents)| == buckets.Length then Full else Ok
      ensures contents == if status == Ok then old(contents)[id := slot] else old(contents)
    {
      var n := buckets.Length;
      ghost var b := buckets[..];
      KeysAreOccupied(b, contents);
      var pos := home(id);
      var probe := 0;
      while probe < n
        invariant probe <= n && (probe < n ==> pos == Probe(home(id), probe, n))
        invariant Missed(b, home(id), id, probe)
        invariant buckets[..] == b && contents == old(contents) && size == old(size) && cut == old(cut)
      {
        match buckets[pos] {
          case Occupied(i, s) =>
            if i == id {
              assert b[pos].Occupied?;
              return Duplicate;
            }
          case Empty =>
            assert b[pos].Empty?;
            AbsentAtEmpty(b, home, cut, contents, id, probe);
            FillKeepsTable(b, home, cut, contents, id, slot, probe);
            buckets[pos] := Occupied(id, slot);
            size := size + 1;
            contents := contents[id := slot];
            cut := Next(pos, n);
            assert buckets[..] == b[pos := Occupied(id, slot)];
            return Ok;
        }
        pos := Next(pos, n);
        probe := probe + 1;
      }
      AbsentAfterAll(b, home, cut, contents, id);
      return Full;
    }

    method EraseAndGet(id: OrderId) returns (slot: nat)
      requires Valid()
      modifies this, buckets
      ensures Valid()
      ensures slot == if id in old(contents) then old(contents)[id] else INVALID
      ensures contents == old(contents) - {id}
    {
      var n := buckets.Length;
      ghost var b := buckets[..];
      var pos := home(id);
      var probe := 0;
      while probe < n
        invariant probe <= n && (probe < n ==> pos == Probe(home(id), probe, n))
        invariant Missed(b, home(id), id, probe)
        invariant buckets[..] == b && contents == old(contents) && size == old(size) && cut == old(cut)
      {
        match buckets[pos] {
          case Empty =>
            AbsentAtEmpty(b, home, cut, contents, id, probe);
            assert contents == old(contents) - {id};
            return INVALID;
          case Occupied(i, s) =>
            if i == id {
              assert b[pos].Occupied?;
              slot := s;
              size := size - 1;
              EraseAt(pos);
              return;
            }
        }
        pos := Next(pos, n);
        probe := probe + 1;
      }
      AbsentAfterAll(b, home, cut, contents, id);
      assert contents == old(contents) - {id};
      return INVALID;
    }

    /** Backward shift: pulls back every entry whose probe path runs through the hole. */
    method EraseAt(erasedPos: nat)
      requires erasedPos < buckets.Length && buckets[erasedPos].Occupied?
      requires size + 1 == |contents| && TableInv(buckets[..], home, cut, contents)
      modifies this, buckets
      ensures Valid()
      ensures contents == old(contents) - {old(buckets[erasedPos].id)}
      ensures size == old(size)
    {
      hide Scanning, TableInv, Dist;
      var n := buckets.Length;
      ghost var b := buckets[..];
      ghost var m := contents - {b[erasedPos].id};
      ghost var e := Dist(cut, erasedPos, n);
      StartScan(b, home, cut, contents, erasedPos);
      contents := m;
      var holePos: nat := erasedPos;
      buckets[holePos] := Empty;
      b := b[erasedPos := Empty];
      var candidatePos: nat := Next(erasedPos, n);
      var repairScan := 0;
      while repairScan + 1 < n && buckets[candidatePos].Occupied?
        invariant candidatePos < n && holePos < n && repairScan < n
        invariant cut == old(cut) && size == old(size) && contents == m && buckets[..] == b
        invariant Scanning(b, home, cut, holePos, candidatePos, e, repairScan, m)
      {
        ScanStep(b, home, cut, holePos, candidatePos, e, repairScan, m);
        b := Shifted(b, home, holePos, candidatePos);
        repairScan := repairScan + 1;
        var homePos := home(buckets[candidatePos].id);
        var holeDistance := Dist(homePos, holePos, n);
        var candidateDistance := Dist(homePos, candidatePos, n);
        if holeDistance < candidateDistance {
          buckets[holePos] := buckets[candidatePos];
          buckets[candidatePos] := Empty;
          holePos := candidatePos;
        }
        assert buckets[..] == b;
        candidatePos := Next(candidatePos, n);
      }
      ScanDone(b, home, cut, holePos, candidatePos, e, repairScan, m);
    }
  }
}
