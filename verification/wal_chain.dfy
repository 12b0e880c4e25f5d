/** Any number of chained one-position sliders over the retained ring, running concurrently with
    the producer and a reclaimer behind the last of them. A step is one access to shared memory;
    a role reads of another's frontier some value between the last it read and the present one,
    and never a head older than the upstream frontier it has already seen. */
module WalChain {
  import opened ByteWords
  import opened Modular
  import opened WalCores
  import opened Sliders

  datatype Producer = Idle | Room(payload: Payload) | SlotWritten(payload: Payload)

  datatype Phase = Resting | Running | Viewed(record: RecordView) | Accepted

  /** `current` is the slider's own position, `frontier` what it has published of it, `end` the
      end of the range it works on; `accepted` is what its module has accepted. */
  datatype Stage = Stage(frontier: nat, current: nat, seen: nat, end: nat, phase: Phase, accepted: seq<RecordView>)

  datatype State = State(slots: seq<Payload>, tail: nat, head: nat, tailSeen: nat, published: seq<Payload>,
                         producer: Producer, stages: seq<Stage>)

  datatype Step =
    | FindRoom(payload: Payload, tailSeen: nat)
    | WriteSlot
    | StoreHead
    | Acquire(i: nat, seen: nat, policy: Policy)
    | View(i: nat, tailSeen: nat, headSeen: nat)
    | Accept(i: nat)
    | Refuse(i: nat)
    | PublishFrontier(i: nat)
    | Finish(i: nat)
    | Reclaim(end: nat)

  function Upstream(s: State, i: nat): nat
    requires i < |s.stages|
  {
    if i == 0 then s.head else s.stages[i - 1].frontier
  }

  function LastFrontier(s: State): nat {
    if s.stages == [] then s.head else s.stages[|s.stages| - 1].frontier
  }

  predicate InPhase(s: State, i: nat, phase: Phase) {
    i < |s.stages| && s.stages[i].phase == phase
  }

  predicate Enabled(s: State, step: Step)
    requires s.slots != []
  {
    match step
    case FindRoom(payload, tailSeen) => s.producer.Idle? && s.tailSeen <= tailSeen <= s.tail
      && s.head - tailSeen != |s.slots|
    case WriteSlot => s.producer.Room?
    case StoreHead => s.producer.SlotWritten?
    case Acquire(i, seen, _) => InPhase(s, i, Resting) && s.stages[i].seen <= seen <= Upstream(s, i)
    case View(i, tailSeen, headSeen) =>
      InPhase(s, i, Running) && s.stages[i].current < s.stages[i].end && tailSeen <= s.tail
        && s.stages[i].seen <= headSeen <= s.head
    case Accept(i) => i < |s.stages| && s.stages[i].phase.Viewed?
    case Refuse(i) => i < |s.stages| && s.stages[i].phase.Viewed?
    case PublishFrontier(i) => InPhase(s, i, Accepted)
    case Finish(i) => InPhase(s, i, Running) && s.stages[i].current == s.stages[i].end
    case Reclaim(end) => s.tail <= end <= LastFrontier(s)
  }

  function SetStage(s: State, i: nat, stage: Stage): State
    requires i < |s.stages|
  {
    s.(stages := s.stages[i := stage])
  }

  /** What a view of the current position finds, given the frontiers it read. */
  function ViewStatusOf(position: nat, tailSeen: nat, headSeen: nat): ViewStatus {
    if position < tailSeen then Reclaimed else if position >= headSeen then Unpublished else ViewOk
  }

  function Do(first: nat, s: State, step: Step): State
    requires s.slots != [] && Enabled(s, step)
  {
    match step
    case FindRoom(payload, tailSeen) => s.(tailSeen := tailSeen, producer := Room(payload))
    case WriteSlot => s.(slots := s.slots[s.head % |s.slots| := s.producer.payload],
        producer := SlotWritten(s.producer.payload))
    case StoreHead => s.(head := s.head + 1, published := s.published + [s.producer.payload], producer := Idle)
    case Acquire(i, seen, policy) =>
      var st := s.stages[i];
      var range := AcquiredRange(policy, st.current, seen);
      if EntryStatusOf(st.frontier, st.current, seen, range) != Works then SetStage(s, i, st.(seen := seen))
      else SetStage(s, i, st.(seen := seen, end := range.end, phase := Running))
    case View(i, tailSeen, headSeen) =>
      var st := s.stages[i];
      if ViewStatusOf(st.current, tailSeen, headSeen) != ViewOk then SetStage(s, i, st.(phase := Resting))
      else SetStage(s, i,
          st.(phase := Viewed(RecordView(st.current, first + st.current, s.slots[st.current % |s.slots|]))))
    case Accept(i) =>
      var st := s.stages[i];
      SetStage(s, i, st.(current := st.current + 1, phase := Accepted, accepted := st.accepted + [st.phase.record]))
    case Refuse(i) => SetStage(s, i, s.stages[i].(phase := Resting))
    case PublishFrontier(i) =>
      var st := s.stages[i];
      if st.current < st.frontier then SetStage(s, i, st.(phase := Resting))
      else SetStage(s, i, st.(frontier := st.current, phase := Running))
    case Finish(i) => SetStage(s, i, s.stages[i].(phase := Resting))
    case Reclaim(end) => s.(tail := end)
  }

  // ---------------------------------------------------------------- the invariant

  function RecordAt(first: nat, published: seq<Payload>, p: nat): RecordView
    requires p < |published|
  {
    RecordView(p, first + p, published[p])
  }

  /** A module has accepted the positions below `current`, each once, in order, as published. */
  ghost predicate AcceptedAll(first: nat, published: seq<Payload>, st: Stage) {
    |st.accepted| == st.current <= |published| && forall p ::
      0 <= p < st.current ==> st.accepted[p] == RecordAt(first, published, p)
  }

  ghost predicate StageInv(first: nat, published: seq<Payload>, upstream: nat, st: Stage) {
    && st.current <= st.seen <= upstream <= |published| && AcceptedAll(first, published, st)
    && st.current == (if st.phase == Accepted then st.frontier + 1 else st.frontier)
    && (st.phase != Resting ==> st.current <= st.end <= st.seen)
    && (st.phase.Viewed? ==> st.current < st.end && st.phase.record == RecordAt(first, published, st.current))
  }

  ghost predicate ProducerInv(s: State)
    requires s.slots != []
  {
    && s.tailSeen <= s.tail <= s.head <= s.tailSeen + |s.slots|
    && (!s.producer.Idle? ==> s.head < s.tailSeen + |s.slots|)
    && (s.producer.SlotWritten? ==> s.slots[s.head % |s.slots|] == s.producer.payload)
  }

  ghost predicate Inv(first: nat, s: State) {
    && s.slots != [] && ProducerInv(s) && Retained(s.slots, s.published, s.tail, s.head)
    && s.tail <= LastFrontier(s)
    && forall i :: 0 <= i < |s.stages| ==> StageInv(first, s.published, Upstream(s, i), s.stages[i])
  }

  lemma FrontierBound(first: nat, s: State, i: nat)
    requires Inv(first, s) && i < |s.stages|
    ensures s.stages[i].frontier <= Upstream(s, i)
  {
  }

  /** Frontiers never increase along the chain. */
  lemma {:induction false} ChainOrdered(first: nat, s: State, i: nat, j: nat)
    requires Inv(first, s) && i <= j < |s.stages|
    ensures s.tail <= LastFrontier(s) <= s.stages[j].frontier <= s.stages[i].frontier <= s.head
    decreases j
  {
    hide Inv, StageInv;
    if i < j {
      FrontierBound(first, s, j);
      ChainOrdered(first, s, i, j - 1);
      LastIsLeast(first, s, j);
    } else if i > 0 {
      FrontierBound(first, s, i);
      ChainOrdered(first, s, i - 1, i - 1);
      LastIsLeast(first, s, j);
    } else {
      FrontierBound(first, s, 0);
      LastIsLeast(first, s, j);
    }
  }

  lemma TailBound(first: nat, s: State)
    requires Inv(first, s)
    ensures s.tail <= LastFrontier(s)
  {
  }

  lemma {:induction false} LastIsLeast(first: nat, s: State, j: nat)
    requires Inv(first, s) && j < |s.stages|
    ensures s.tail <= LastFrontier(s) <= s.stages[j].frontier
    decreases |s.stages| - j
  {
    hide Inv, StageInv;
    TailBound(first, s);
    if j + 1 < |s.stages| {
      LastIsLeast(first, s, j + 1);
      FrontierBound(first, s, j + 1);
    }
  }

  /** A stage's invariant survives a longer history and a farther upstream. */
  lemma StageMonotonic(first: nat, published: seq<Payload>, upstream: nat, st: Stage, published': seq<Payload>,
                       upstream': nat)
    requires StageInv(first, published, upstream, st) && published <= published'
      && upstream <= upstream' <= |published'|
    ensures StageInv(first, published', upstream', st)
  {
    hide Retained;
    forall p | 0 <= p < st.current
      ensures st.accepted[p] == RecordAt(first, published', p)
    {
      assert st.accepted[p] == RecordAt(first, published, p);
    }
  }

  lemma ProducerKeeps(first: nat, s: State, step: Step)
    requires Inv(first, s) && Enabled(s, step) && (step.FindRoom? || step.WriteSlot? || step.Reclaim?)
    ensures Inv(first, Do(first, s, step))
  {
    hide StageInv, Retained;
    if step.WriteSlot? {
      WriteKeepsRetained(s.slots, s.published, s.tail, s.head, s.producer.payload);
    } else if step.Reclaim? {
      LastBelowHead(first, s);
      ReclaimKeepsRetained(s.slots, s.published, s.tail, s.head, step.end);
    }
    var s' := Do(first, s, step);
    assert forall i :: 0 <= i < |s'.stages| ==> Upstream(s', i) == Upstream(s, i);
  }

  lemma LastBelowHead(first: nat, s: State)
    requires Inv(first, s)
    ensures LastFrontier(s) <= s.head
  {
    if s.stages != [] {
      ChainOrdered(first, s, 0, |s.stages| - 1);
    }
  }

  lemma WriteKeepsRetained(slots: seq<Payload>, published: seq<Payload>, tail: nat, head: nat, payload: Payload)
    requires Retained(slots, published, tail, head) && tail <= head < tail + |slots|
    ensures Retained(slots[head % |slots| := payload], published, tail, head)
  {
    forall p | tail <= p < head
      ensures slots[head % |slots| := payload][p % |slots|] == published[p]
    {
      DistinctSlots(p, head, |slots|);
    }
  }

  lemma ReclaimKeepsRetained(slots: seq<Payload>, published: seq<Payload>, tail: nat, head: nat, end: nat)
    requires Retained(slots, published, tail, head) && tail <= end
    ensures Retained(slots, published, end, head)
  {
  }

  lemma HeadKeeps(first: nat, s: State)
    requires Inv(first, s) && Enabled(s, StoreHead)
    ensures Inv(first, Do(first, s, StoreHead))
  {
    hide StageInv;
    var s' := Do(first, s, StoreHead);
    forall i | 0 <= i < |s'.stages|
      ensures StageInv(first, s'.published, Upstream(s', i), s'.stages[i])
    {
      UpstreamBelowHead(first, s, i);
      StageMonotonic(first, s.published, Upstream(s, i), s.stages[i], s'.published, Upstream(s', i));
    }
  }

  lemma UpstreamBelowHead(first: nat, s: State, i: nat)
    requires Inv(first, s) && i < |s.stages|
    ensures Upstream(s, i) <= s.head == |s.published|
  {
    hide StageInv;
    if i > 0 {
      ChainOrdered(first, s, 0, i - 1);
    }
  }

  /** A step of one stage: the others see at most a farther upstream. */
  lemma StageKeeps(first: nat, s: State, i: nat, st: Stage)
    requires Inv(first, s) && i < |s.stages|
    requires StageInv(first, s.published, Upstream(s, i), st) && s.stages[i].frontier <= st.frontier
    ensures Inv(first, SetStage(s, i, st))
  {
    hide StageInv, Retained;
    var s' := SetStage(s, i, st);
    forall j | 0 <= j < |s'.stages|
      ensures StageInv(first, s'.published, Upstream(s', j), s'.stages[j])
    {
      if j == i + 1 {
        FrontierWithin(first, s.published, Upstream(s, i), st);
        StageMonotonic(first, s.published, Upstream(s, j), s.stages[j], s.published, Upstream(s', j));
      }
    }
  }

  lemma FrontierWithin(first: nat, published: seq<Payload>, upstream: nat, st: Stage)
    requires StageInv(first, published, upstream, st)
    ensures st.frontier <= upstream <= |published|
  {
  }

  /** No stage ever finds its position reclaimed or unpublished, and what it reads is what was
      published there. */
  lemma ViewAlwaysOk(first: nat, s: State, i: nat, tailSeen: nat, headSeen: nat)
    requires Inv(first, s) && Enabled(s, View(i, tailSeen, headSeen))
    ensures ViewStatusOf(s.stages[i].current, tailSeen, headSeen) == ViewOk
    ensures s.stages[i].current < |s.published|
      && s.slots[s.stages[i].current % |s.slots|] == s.published[s.stages[i].current]
  {
    LastIsLeast(first, s, i);
    UpstreamBelowHead(first, s, i);
    assert StageInv(first, s.published, Upstream(s, i), s.stages[i]);
  }

  /** No call of a slider ends in an error of its own: on entry its frontier and position agree and
      the upstream has not gone back, its range is valid, and every publication goes through. */
  lemma SliderNeverFails(first: nat, s: State, i: nat)
    requires Inv(first, s) && i < |s.stages|
    ensures forall seen, policy :: Enabled(s, Acquire(i, seen, policy)) ==>
              var st := s.stages[i];
              var status := EntryStatusOf(st.frontier, st.current, seen, AcquiredRange(policy, st.current, seen));
              (status == Works || status == Empty)
                && (status == Empty <==> AcquiredRange(policy, st.current, seen).end == st.current)
    ensures Enabled(s, PublishFrontier(i)) ==> s.stages[i].frontier < s.stages[i].current
  {
    StageOf(first, s, i);
    forall seen, policy | Enabled(s, Acquire(i, seen, policy))
      ensures var st := s.stages[i];
              var status := EntryStatusOf(st.frontier, st.current, seen, AcquiredRange(policy, st.current, seen));
              (status == Works || status == Empty)
                && (status == Empty <==> AcquiredRange(policy, st.current, seen).end == st.current)
    {
      EntryIsDecided(policy, s.stages[i].frontier, s.stages[i].current, seen);
    }
  }

  /** While a stage works on a record it has viewed, up to the publication of its position, the
      slot of that record is neither reclaimed nor the one the producer may be writing. */
  lemma NoOverlap(first: nat, s: State, i: nat)
    requires Inv(first, s) && i < |s.stages| && (s.stages[i].phase.Viewed? || s.stages[i].phase == Accepted)
    ensures var position := s.stages[i].frontier;
            && s.tail <= position < s.head && s.slots[position % |s.slots|] == s.published[position]
            && (!s.producer.Idle? ==> position % |s.slots| != s.head % |s.slots|)
            && (s.stages[i].phase.Viewed? ==> s.stages[i].phase.record == RecordAt(first, s.published, position))
  {
    LastIsLeast(first, s, i);
    UpstreamBelowHead(first, s, i);
    StageOf(first, s, i);
    if !s.producer.Idle? {
      DistinctSlots(s.stages[i].frontier, s.head, |s.slots|);
    }
  }

  lemma StageOf(first: nat, s: State, i: nat)
    requires Inv(first, s) && i < |s.stages|
    ensures StageInv(first, s.published, Upstream(s, i), s.stages[i])
  {
  }

  lemma SliderKeeps(first: nat, s: State, step: Step)
    requires Inv(first, s) && Enabled(s, step)
    requires step.Acquire? || step.View? || step.Refuse? || step.PublishFrontier? || step.Finish?
    ensures Inv(first, Do(first, s, step))
  {
    var i := step.i;
    StageOf(first, s, i);
    if step.View? {
      ViewAlwaysOk(first, s, i, step.tailSeen, step.headSeen);
    }
    hide Inv, AcceptedAll;
    StageKeeps(first, s, i, Do(first, s, step).stages[i]);
  }

  lemma AcceptKeeps(first: nat, s: State, i: nat)
    requires Inv(first, s) && Enabled(s, Accept(i))
    ensures Inv(first, Do(first, s, Accept(i)))
  {
    StageOf(first, s, i);
    hide Inv, StageInv;
    AcceptedOne(first, s.published, Upstream(s, i), s.stages[i]);
    StageKeeps(first, s, i, Do(first, s, Accept(i)).stages[i]);
  }

  lemma AcceptedOne(first: nat, published: seq<Payload>, upstream: nat, st: Stage)
    requires StageInv(first, published, upstream, st) && st.phase.Viewed?
    ensures StageInv(first, published, upstream,
        st.(current := st.current + 1, phase := Accepted, accepted := st.accepted + [st.phase.record]))
  {
  }

  lemma StepKeeps(first: nat, s: State, step: Step)
    requires Inv(first, s) && Enabled(s, step)
    ensures Inv(first, Do(first, s, step))
  {
    hide Inv, Enabled, Do;
    if step.FindRoom? || step.WriteSlot? || step.Reclaim? {
      ProducerKeeps(first, s, step);
    } else if step.StoreHead? {
      HeadKeeps(first, s);
    } else if step.Accept? {
      AcceptKeeps(first, s, step.i);
    } else {
      SliderKeeps(first, s, step);
    }
  }

  // ---------------------------------------------------------------- every interleaving

  ghost predicate Schedule(first: nat, s: State, steps: seq<Step>)
    decreases |steps|
  {
    s.slots != [] && (steps != [] ==> Enabled(s, steps[0]) && Schedule(first, Do(first, s, steps[0]), steps[1..]))
  }

  ghost function Execute(first: nat, s: State, steps: seq<Step>): State
    requires Schedule(first, s, steps)
    decreases |steps|
  {
    if steps == [] then s else Execute(first, Do(first, s, steps[0]), steps[1..])
  }

  function Begin(slots: seq<Payload>, stages: nat): State {
    State(slots, 0, 0, 0, [], Idle, seq(stages, i => Stage(0, 0, 0, 0, Resting, [])))
  }

  lemma BeginInv(first: nat, slots: seq<Payload>, stages: nat)
    requires slots != []
    ensures Inv(first, Begin(slots, stages))
  {
  }

  /** Whatever the schedule: tail <= last frontier <= ... <= first frontier <= head, and every
      module has accepted the positions 0, 1, 2, ... below its own, each exactly once and with
      the payload and sequence it was published with, refusals and wraparound included. */
  lemma {:induction false} RunIsSafe(first: nat, s: State, steps: seq<Step>)
    requires Inv(first, s) && Schedule(first, s, steps)
    ensures var s' := Execute(first, s, steps);
            && Inv(first, s') && s'.tail <= LastFrontier(s') <= s'.head
            && (forall i, j :: 0 <= i <= j < |s'.stages| ==> s'.stages[j].frontier <= s'.stages[i].frontier)
            && (forall i :: 0 <= i < |s'.stages| ==> AcceptedAll(first, s'.published, s'.stages[i]))
    decreases |steps|
  {
    hide Enabled, Do;
    if steps == [] {
      TailBound(first, s);
      LastBelowHead(first, s);
      forall i | 0 <= i < |s.stages|
        ensures AcceptedAll(first, s.published, s.stages[i])
      {
        StageOf(first, s, i);
      }
      hide Inv;
      forall i, j | 0 <= i <= j < |s.stages|
        ensures s.stages[j].frontier <= s.stages[i].frontier
      {
        ChainOrdered(first, s, i, j);
      }
    } else {
      StepKeeps(first, s, steps[0]);
      hide Inv;
      RunIsSafe(first, Do(first, s, steps[0]), steps[1..]);
    }
  }
}
