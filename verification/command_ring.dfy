/** The bounded command ring as a system of five roles that run concurrently: a producer,
    persistence, the risk and reserve stages and the matcher. A step is one access to shared
    memory: to a frontier, the failure flag or a field of a slot. A role knows its own frontier; of
    the frontier it depends on it reads some value between the last one it read and the present
    one. */
module CommandRing {
  import opened BookTypes
  import opened MatcherTypes
  import opened Modular
  import opened Sequences

  datatype Decision = Pending | Accepted | Rejected | Skipped

  datatype Check = Check(decision: Decision, code: nat)

  const UNCHECKED := Check(Pending, 0)

  datatype Slot = Slot(command: CommandEnvelope, risk: Check, reserve: Check)

  /** The shared memory, and the live cursor of the producer. */
  datatype Ring = Ring(slots: seq<Slot>, tail: nat, reserve: nat, risk: nat, durable: nat, head: nat, failed: bool,
                       nextLive: nat, exhausted: bool)

  /** What has happened, by ring position; persistence's record of what it stored; what the
      matcher received; the sequences that the stages' calls returned. */
  datatype History = History(published: seq<CommandEnvelope>, risks: seq<Check>, reserves: seq<Check>,
                             persisted: seq<CommandEnvelope>, delivered: seq<Slot>,
                             riskReturned: seq<nat>, reserveReturned: seq<nat>)

  datatype Producer =
    | Idle
    | Admitted(next: CommandEnvelope, live: bool)
    | Room(next: CommandEnvelope, live: bool)
    | CommandWritten(next: CommandEnvelope, live: bool)
    | RiskCleared(next: CommandEnvelope, live: bool)
    | SlotWritten(next: CommandEnvelope, live: bool)

  /** Persistence checks the failure flag at the start of a copy and of a store. */
  datatype Keeper = Resting | Copying | Storing | Sequenced(sequence: nat)

  /** A stage that has stored its frontier still reads the slot of the position it has left. */
  datatype Stage =
    | Waiting
    | Ready
    | GotInput(command: CommandEnvelope)
    | Read(command: CommandEnvelope, input: Check)
    | Written(result: Check)
    | Returning(position: nat)

  datatype Consumer = Listening | Available | GotCommand(command: CommandEnvelope)
                    | GotRisk(command: CommandEnvelope, risk: Check) | Copied(slot: Slot)

  /** The last value each role read of the frontier it depends on. */
  datatype Seen = Seen(tail: nat, head: nat, durable: nat, risk: nat, reserve: nat)

  /** `owners` says of each slot for which position its command was last written. */
  datatype System = System(ring: Ring, h: History, seen: Seen, owners: map<nat, nat>, producer: Producer,
                           keeper: Keeper, batch: seq<CommandEnvelope>, riskStage: Stage, reserveStage: Stage,
                           consumer: Consumer)

  datatype Step =
    | Admit(next: CommandEnvelope, live: bool)
    | FindRoom(tailSeen: nat)
    | GiveUp(tailSeen: nat)
    | WriteCommand
    | ClearRisk
    | ClearReserve
    | StoreHead
    | SeeHead(headSeen: nat)
    | CheckToCopy
    | CopyPending
    | NothingToCopy
    | CheckToStore
    | ReadLast
    | StoreDurable
    | FailPersistence
    | RestoreCursor(sequence: nat)
    | SeeDurable(durableSeen: nat)
    | ReadForRisk
    | WriteRisk(result: Check)
    | StoreRisk
    | ReturnRisk
    | SeeRisk(riskSeen: nat)
    | ReadCommandForReserve
    | ReadRiskForReserve
    | WriteReserve(result: Check)
    | StoreReserve
    | ReturnReserve
    | SeeReserve(reserveSeen: nat)
    | TakeCommand
    | TakeRisk
    | TakeReserve
    | StoreTail

  /** The state in which each step is taken: what the role checked before, on what it saw. */
  predicate Enabled(s: System, step: Step)
    requires s.ring.slots != []
  {
    var r := s.ring;
    match step
    case Admit(next, live) =>
      && s.producer.Idle? && !r.failed
      && (if live then !r.exhausted && next.sequence == r.nextLive else next.sequence != 0)
    case FindRoom(tailSeen) =>
      s.producer.Admitted? && s.seen.tail <= tailSeen <= r.tail && r.head - tailSeen != |r.slots|
    case GiveUp(tailSeen) =>
      s.producer.Admitted? && s.seen.tail <= tailSeen <= r.tail && r.head - tailSeen == |r.slots|
    case WriteCommand => s.producer.Room?
    case ClearRisk => s.producer.CommandWritten?
    case ClearReserve => s.producer.RiskCleared?
    case StoreHead => s.producer.SlotWritten?
    case SeeHead(headSeen) => s.seen.head <= headSeen <= r.head
    case CheckToCopy => s.keeper.Resting? && !r.failed
    case CopyPending => s.keeper.Copying? && r.durable + |s.batch| < s.seen.head
    case NothingToCopy => s.keeper.Copying? && r.durable + |s.batch| >= s.seen.head
    case CheckToStore => s.keeper.Resting? && !r.failed && s.batch != []
    case ReadLast => s.keeper.Storing? && s.batch != []
    case StoreDurable => s.keeper.Sequenced?
    case FailPersistence => true
    case RestoreCursor(sequence) => sequence != 0
    case SeeDurable(durableSeen) => s.riskStage.Waiting? && s.seen.durable <= durableSeen <= r.durable
      && r.risk != durableSeen
    case ReadForRisk => s.riskStage.Ready?
    case WriteRisk(result) => (s.riskStage.Ready? || s.riskStage.Read?) && result.decision != Pending
    case StoreRisk => s.riskStage.Written?
    case ReturnRisk => s.riskStage.Returning?
    case SeeRisk(riskSeen) => s.reserveStage.Waiting? && s.seen.risk <= riskSeen <= r.risk && r.reserve != riskSeen
    case ReadCommandForReserve => s.reserveStage.Ready?
    case ReadRiskForReserve => s.reserveStage.GotInput?
    case WriteReserve(result) => (s.reserveStage.Ready? || s.reserveStage.Read?) && result.decision != Pending
    case StoreReserve => s.reserveStage.Written?
    case ReturnReserve => s.reserveStage.Returning?
    case SeeReserve(reserveSeen) => s.consumer.Listening? && s.seen.reserve <= reserveSeen <= r.reserve
      && r.tail != reserveSeen
    case TakeCommand => s.consumer.Available?
    case TakeRisk => s.consumer.GotCommand?
    case TakeReserve => s.consumer.GotRisk?
    case StoreTail => s.consumer.Copied?
  }

  /** Ring position `p` is in slot `p % capacity`. */
  function SlotAt(slots: seq<Slot>, position: nat): Slot
    requires slots != []
  {
    slots[position % |slots|]
  }

  function SetSlot(slots: seq<Slot>, position: nat, slot: Slot): (slots': seq<Slot>)
    requires slots != []
    ensures |slots'| == |slots|
  {
    slots[position % |slots| := slot]
  }

  function Put(r: Ring, position: nat, slot: Slot): Ring
    requires r.slots != []
  {
    r.(slots := SetSlot(r.slots, position, slot))
  }

  /** The live cursor after a publication, counted from the sequence it assigned. */
  function Advanced(r: Ring, live: bool, given: nat): (r': Ring)
    ensures r' == r.(nextLive := r'.nextLive, exhausted := r'.exhausted)
  {
    if !live then r
    else if given == MAX_SEQUENCE then r.(exhausted := true)
    else r.(nextLive := given + 1)
  }

  function Do(s: System, step: Step): (s': System)
    requires s.ring.slots != [] && Enabled(s, step)
    ensures |s'.ring.slots| == |s.ring.slots|
  {
    var r := s.ring;
    match step
    case Admit(next, live) => s.(producer := Admitted(next, live))
    case FindRoom(tailSeen) =>
      s.(seen := s.seen.(tail := tailSeen), producer := Room(s.producer.next, s.producer.live))
    case GiveUp(tailSeen) => s.(seen := s.seen.(tail := tailSeen), producer := Idle)
    case WriteCommand =>
      s.(ring := Put(r, r.head, SlotAt(r.slots, r.head).(command := s.producer.next)),
          owners := s.owners[r.head % |r.slots| := r.head],
          producer := CommandWritten(s.producer.next, s.producer.live))
    case ClearRisk =>
      s.(ring := Put(r, r.head, SlotAt(r.slots, r.head).(risk := UNCHECKED)),
          producer := RiskCleared(s.producer.next, s.producer.live))
    case ClearReserve =>
      s.(ring := Put(r, r.head, SlotAt(r.slots, r.head).(reserve := UNCHECKED)),
          producer := SlotWritten(s.producer.next, s.producer.live))
    case StoreHead =>
      s.(ring := Advanced(r.(head := r.head + 1), s.producer.live, s.producer.next.sequence), producer := Idle,
          h := s.h.(published := s.h.published + [s.producer.next]))
    case SeeHead(headSeen) => s.(seen := s.seen.(head := headSeen))
    case CheckToCopy => s.(keeper := Copying)
    case CopyPending =>
      s.(batch := s.batch + [SlotAt(r.slots, r.durable + |s.batch|).command], keeper := Resting)
    case NothingToCopy => s.(keeper := Resting)
    case CheckToStore => s.(keeper := Storing)
    case ReadLast =>
      s.(keeper := Sequenced(SlotAt(r.slots, r.durable + |s.batch| - 1).command.sequence))
    case StoreDurable =>
      s.(ring := r.(durable := r.durable + |s.batch|), batch := [], keeper := Resting,
          h := s.h.(persisted := s.h.persisted + s.batch))
    case FailPersistence => s.(ring := r.(failed := true))
    case RestoreCursor(sequence) => s.(ring := r.(nextLive := sequence, exhausted := false))
    case SeeDurable(durableSeen) => s.(seen := s.seen.(durable := durableSeen), riskStage := Ready)
    case ReadForRisk => s.(riskStage := Read(SlotAt(r.slots, r.risk).command, UNCHECKED))
    case WriteRisk(result) =>
      s.(ring := Put(r, r.risk, SlotAt(r.slots, r.risk).(risk := result)), riskStage := Written(result))
    case StoreRisk =>
      s.(ring := r.(risk := r.risk + 1), riskStage := Returning(r.risk),
          h := s.h.(risks := s.h.risks + [s.riskStage.result]))
    case ReturnRisk =>
      s.(riskStage := Waiting,
          h := s.h.(riskReturned := s.h.riskReturned + [SlotAt(r.slots, s.riskStage.position).command.sequence]))
    case SeeRisk(riskSeen) => s.(seen := s.seen.(risk := riskSeen), reserveStage := Ready)
    case ReadCommandForReserve => s.(reserveStage := GotInput(SlotAt(r.slots, r.reserve).command))
    case ReadRiskForReserve => s.(reserveStage := Read(s.reserveStage.command, SlotAt(r.slots, r.reserve).risk))
    case WriteReserve(result) =>
      s.(ring := Put(r, r.reserve, SlotAt(r.slots, r.reserve).(reserve := result)), reserveStage := Written(result))
    case StoreReserve =>
      s.(ring := r.(reserve := r.reserve + 1), reserveStage := Returning(r.reserve),
          h := s.h.(reserves := s.h.reserves + [s.reserveStage.result]))
    case ReturnReserve =>
      s.(reserveStage := Waiting,
          h := s.h.(reserveReturned :=
              s.h.reserveReturned + [SlotAt(r.slots, s.reserveStage.position).command.sequence]))
    case SeeReserve(reserveSeen) => s.(seen := s.seen.(reserve := reserveSeen), consumer := Available)
    case TakeCommand => s.(consumer := GotCommand(SlotAt(r.slots, r.tail).command))
    case TakeRisk => s.(consumer := GotRisk(s.consumer.command, SlotAt(r.slots, r.tail).risk))
    case TakeReserve => s.(consumer := Copied(Slot(s.consumer.command, s.consumer.risk,
        SlotAt(r.slots, r.tail).reserve)))
    case StoreTail =>
      s.(ring := r.(tail := r.tail + 1), consumer := Listening,
          h := s.h.(delivered := s.h.delivered + [s.consumer.slot]))
  }

  // ---------------------------------------------------------------- the invariant

  predicate Ordered(r: Ring) {
    r.tail <= r.reserve <= r.risk <= r.durable <= r.head <= r.tail + |r.slots|
  }

  /** What the roles saw is not newer than the present, nor older than what they did with it. */
  predicate SeenInv(r: Ring, seen: Seen) {
    && seen.tail <= r.tail && r.head <= seen.tail + |r.slots|
    && seen.head <= r.head
    && r.risk <= seen.durable <= r.durable
    && r.reserve <= seen.risk <= r.risk
    && r.tail <= seen.reserve <= r.reserve
  }

  /** The ring holds what was published and checked and is not yet consumed. */
  ghost predicate Stored(r: Ring, h: History)
    requires r.slots != []
  {
    && |h.published| == r.head && |h.risks| == r.risk && |h.reserves| == r.reserve
    && (forall p :: r.tail <= p < r.head ==> SlotAt(r.slots, p).command == h.published[p])
    && (forall p :: r.tail <= p < r.risk ==> SlotAt(r.slots, p).risk == h.risks[p])
    && (forall p :: r.tail <= p < r.reserve ==> SlotAt(r.slots, p).reserve == h.reserves[p])
  }

  /** Each delivered slot is the published command with its own two results. */
  ghost predicate DeliveredInOrder(tail: nat, h: History) {
    && |h.delivered| == tail <= |h.published| && tail <= |h.risks| && tail <= |h.reserves|
    && forall p :: 0 <= p < tail ==> h.delivered[p] == Slot(h.published[p], h.risks[p], h.reserves[p])
  }

  /** The producer has found room and will write the slot at the head, or is writing it. */
  predicate Claims(producer: Producer) {
    !producer.Idle? && !producer.Admitted?
  }

  /** The producer has written the command at the head. */
  predicate HasWritten(producer: Producer) {
    producer.CommandWritten? || producer.RiskCleared? || producer.SlotWritten?
  }

  /** A stage between seeing its upstream frontier and storing its own. */
  predicate Active(stage: Stage) {
    !stage.Waiting? && !stage.Returning?
  }

  ghost predicate ProducerInv(r: Ring, tailSeen: nat, producer: Producer)
    requires r.slots != []
  {
    && (Claims(producer) ==> r.head < tailSeen + |r.slots|)
    && (HasWritten(producer) ==> SlotAt(r.slots, r.head).command == producer.next)
  }

  ghost predicate KeeperInv(durable: nat, h: History, batch: seq<CommandEnvelope>, keeper: Keeper) {
    && (keeper.Storing? || keeper.Sequenced? ==> batch != [])
    && (keeper.Sequenced? && durable + |batch| <= |h.published| ==>
        keeper.sequence == h.published[durable + |batch| - 1].sequence)
  }

  ghost predicate PersistenceInv(durable: nat, h: History, batch: seq<CommandEnvelope>) {
    && durable + |batch| <= |h.published|
    && h.persisted == h.published[..durable]
    && batch == h.published[durable..durable + |batch|]
  }

  ghost predicate RiskInv(r: Ring, h: History, durableSeen: nat, stage: Stage)
    requires r.slots != []
  {
    && |h.riskReturned| + (if stage.Returning? then 1 else 0) == r.risk
    && (stage.Returning? ==> stage.position + 1 == r.risk)
    && (Active(stage) ==> r.risk < durableSeen)
    && (stage.Read? ==> r.risk < |h.published| && stage.command == h.published[r.risk])
    && (stage.Written? ==> SlotAt(r.slots, r.risk).risk == stage.result)
  }

  ghost predicate ReserveInv(r: Ring, h: History, riskSeen: nat, stage: Stage)
    requires r.slots != []
  {
    && |h.reserveReturned| + (if stage.Returning? then 1 else 0) == r.reserve
    && (stage.Returning? ==> stage.position + 1 == r.reserve)
    && (Active(stage) ==> r.reserve < riskSeen)
    && (stage.GotInput? || stage.Read? ==> r.reserve < |h.published| && stage.command == h.published[r.reserve])
    && (stage.Read? ==> r.reserve < |h.risks| && stage.input == h.risks[r.reserve])
    && (stage.Written? ==> SlotAt(r.slots, r.reserve).reserve == stage.result)
  }

  ghost predicate ConsumerInv(tail: nat, h: History, reserveSeen: nat, consumer: Consumer) {
    !consumer.Listening? ==>
      && tail < reserveSeen && tail < |h.published| && tail < |h.risks| && tail < |h.reserves|
      && (consumer.GotCommand? || consumer.GotRisk? ==> consumer.command == h.published[tail])
      && (consumer.GotRisk? ==> consumer.risk == h.risks[tail])
      && (consumer.Copied? ==> consumer.slot == Slot(h.published[tail], h.risks[tail], h.reserves[tail]))
  }

  /** The slot of `p` has not been written for the position one whole ring later. */
  predicate Intact(r: Ring, producer: Producer, p: nat) {
    IntactAt(|r.slots|, r.head, HasWritten(producer), p)
  }

  predicate IntactAt(n: nat, head: nat, written: bool, p: nat) {
    p < head && (head < p + n || (head == p + n && !written))
  }

  ghost predicate Owns(slots: seq<Slot>, owners: map<nat, nat>, p: nat)
    requires slots != []
  {
    p % |slots| in owners && owners[p % |slots|] == p
  }

  /** The slots hold the last commands written, consumed or not. */
  ghost predicate LastWritten(slots: seq<Slot>, head: nat, published: seq<CommandEnvelope>, owners: map<nat, nat>,
                              written: bool)
    requires slots != []
  {
    && |published| == head && (written ==> Owns(slots, owners, head))
    && forall p :: 0 <= p < head && IntactAt(|slots|, head, written, p) ==>
         SlotAt(slots, p).command == published[p] && Owns(slots, owners, p)
  }

  ghost predicate WrittenInv(s: System) {
    s.ring.slots != [] && LastWritten(s.ring.slots, s.ring.head, s.h.published, s.owners, HasWritten(s.producer))
  }

  ghost predicate Inv(s: System) {
    RingInv(s) && WrittenInv(s)
  }

  ghost predicate RingInv(s: System) {
    && s.ring.slots != [] && Ordered(s.ring) && SeenInv(s.ring, s.seen) && Stored(s.ring, s.h)
    && DeliveredInOrder(s.ring.tail, s.h)
    && ProducerInv(s.ring, s.seen.tail, s.producer) && PersistenceInv(s.ring.durable, s.h, s.batch)
    && KeeperInv(s.ring.durable, s.h, s.batch, s.keeper)
    && RiskInv(s.ring, s.h, s.seen.durable, s.riskStage) && ReserveInv(s.ring, s.h, s.seen.risk, s.reserveStage)
    && ConsumerInv(s.ring.tail, s.h, s.seen.reserve, s.consumer)
  }

  /** Writing at a position of the ring leaves the slots of all other positions alone. */
  lemma WriteFrame(slots: seq<Slot>, tail: nat, position: nat, slot: Slot)
    requires slots != [] && tail <= position < tail + |slots|
    ensures SlotAt(SetSlot(slots, position, slot), position) == slot
    ensures forall p ::
      tail <= p < tail + |slots| && p != position ==> SlotAt(SetSlot(slots, position, slot), p) == SlotAt(slots, p)
  {
    forall p | tail <= p < tail + |slots| && p != position
      ensures SlotAt(SetSlot(slots, position, slot), p) == SlotAt(slots, p)
    {
      if p < position {
        DistinctSlots(p, position, |slots|);
      } else {
        DistinctSlots(position, p, |slots|);
      }
    }
  }

  lemma ProducerKeeps(s: System, step: Step)
    requires RingInv(s) && Enabled(s, step)
    requires step.Admit? || step.FindRoom? || step.GiveUp? || step.RestoreCursor?
    ensures RingInv(Do(s, step))
  {
    hide SetSlot, SlotAt;
  }

  /** The three writes of the producer into the slot at the head. */
  lemma ProducerWriteKeeps(s: System, step: Step)
    requires RingInv(s) && Enabled(s, step)
    requires step.WriteCommand? || step.ClearRisk? || step.ClearReserve?
    ensures RingInv(Do(s, step))
  {
    hide SetSlot, SlotAt, PersistenceInv, DeliveredInOrder, ConsumerInv;
    var r := s.ring;
    var slot := if step.WriteCommand? then SlotAt(r.slots, r.head).(command := s.producer.next)
                else if step.ClearRisk? then SlotAt(r.slots, r.head).(risk := UNCHECKED)
                else SlotAt(r.slots, r.head).(reserve := UNCHECKED);
    WriteFrame(r.slots, r.tail, r.head, slot);
  }

  lemma PublicationKeeps(s: System)
    requires RingInv(s) && Enabled(s, StoreHead)
    ensures RingInv(Do(s, StoreHead))
  {
    hide SetSlot, SlotAt, Advanced, PersistenceInv, KeeperInv, DeliveredInOrder;
    PublicationKeepsHistory(s.ring, s.h, s.batch, s.keeper, s.producer.next);
  }

  lemma PublicationKeepsHistory(r: Ring, h: History, batch: seq<CommandEnvelope>, keeper: Keeper, next: CommandEnvelope)
    requires PersistenceInv(r.durable, h, batch) && KeeperInv(r.durable, h, batch, keeper)
      && DeliveredInOrder(r.tail, h)
    ensures KeeperInv(r.durable, h.(published := h.published + [next]), batch, keeper)
    ensures PersistenceInv(r.durable, h.(published := h.published + [next]), batch)
    ensures DeliveredInOrder(r.tail, h.(published := h.published + [next]))
  {
    assert (h.published + [next])[..r.durable] == h.published[..r.durable];
    assert (h.published + [next])[r.durable..r.durable + |batch|] == h.published[r.durable..r.durable + |batch|];
  }

  lemma PersistenceKeeps(s: System, step: Step)
    requires RingInv(s) && Enabled(s, step)
    requires step.SeeHead? || step.CheckToCopy? || step.CopyPending? || step.NothingToCopy? || step.CheckToStore?
             || step.ReadLast?
    ensures RingInv(Do(s, step))
  {
    hide SetSlot, SlotAt, DeliveredInOrder, ProducerInv, RiskInv, ReserveInv, ConsumerInv;
  }

  lemma DurabilityKeeps(s: System, step: Step)
    requires RingInv(s) && Enabled(s, step)
    requires step.StoreDurable? || step.FailPersistence?
    ensures RingInv(Do(s, step))
  {
    hide SetSlot, SlotAt;
  }

  lemma RiskKeeps(s: System, step: Step)
    requires RingInv(s) && Enabled(s, step)
    requires step.SeeDurable? || step.ReadForRisk?
    ensures RingInv(Do(s, step))
  {
    hide SetSlot, SlotAt, DeliveredInOrder, ProducerInv, PersistenceInv, KeeperInv, ReserveInv, ConsumerInv;
  }

  lemma RiskStoreKeeps(s: System)
    requires RingInv(s) && Enabled(s, StoreRisk)
    ensures RingInv(Do(s, StoreRisk))
  {
    hide SetSlot, SlotAt;
  }

  lemma RiskReturnKeeps(s: System)
    requires RingInv(s) && Enabled(s, ReturnRisk)
    ensures RingInv(Do(s, ReturnRisk))
  {
    hide SetSlot, SlotAt, ProducerInv;
  }

  lemma RiskWriteKeeps(s: System, result: Check)
    requires RingInv(s) && Enabled(s, WriteRisk(result))
    ensures RingInv(Do(s, WriteRisk(result)))
  {
    hide SetSlot, SlotAt, PersistenceInv, DeliveredInOrder, ConsumerInv;
    var r := s.ring;
    WriteFrame(r.slots, r.tail, r.risk, SlotAt(r.slots, r.risk).(risk := result));
  }

  lemma ReserveKeeps(s: System, step: Step)
    requires RingInv(s) && Enabled(s, step)
    requires step.SeeRisk? || step.ReadCommandForReserve? || step.ReadRiskForReserve?
    ensures RingInv(Do(s, step))
  {
    hide SetSlot, SlotAt, DeliveredInOrder, ProducerInv, PersistenceInv, KeeperInv, RiskInv, ConsumerInv;
  }

  lemma ReserveStoreKeeps(s: System)
    requires RingInv(s) && Enabled(s, StoreReserve)
    ensures RingInv(Do(s, StoreReserve))
  {
    hide SetSlot, SlotAt;
  }

  lemma ReserveReturnKeeps(s: System)
    requires RingInv(s) && Enabled(s, ReturnReserve)
    ensures RingInv(Do(s, ReturnReserve))
  {
    hide SetSlot, SlotAt, ProducerInv;
  }

  lemma ReserveWriteKeeps(s: System, result: Check)
    requires RingInv(s) && Enabled(s, WriteReserve(result))
    ensures RingInv(Do(s, WriteReserve(result)))
  {
    hide SetSlot, SlotAt, PersistenceInv, DeliveredInOrder, ConsumerInv;
    var r := s.ring;
    WriteFrame(r.slots, r.tail, r.reserve, SlotAt(r.slots, r.reserve).(reserve := result));
  }

  lemma ConsumerKeeps(s: System, step: Step)
    requires RingInv(s) && Enabled(s, step)
    requires step.SeeReserve? || step.TakeCommand? || step.TakeRisk? || step.TakeReserve?
    ensures RingInv(Do(s, step))
  {
    hide SetSlot, SlotAt, DeliveredInOrder, ProducerInv, PersistenceInv, KeeperInv, RiskInv, ReserveInv;
  }

  lemma TailStoreKeeps(s: System)
    requires RingInv(s) && Enabled(s, StoreTail)
    ensures RingInv(Do(s, StoreTail))
  {
    hide SetSlot, SlotAt;
  }

  /** The ring's own part of the invariant. */
  lemma RingKeeps(s: System, step: Step)
    requires RingInv(s) && Enabled(s, step)
    ensures RingInv(Do(s, step))
  {
    hide *;
    match step
    case WriteCommand => ProducerWriteKeeps(s, step);
    case ClearRisk => ProducerWriteKeeps(s, step);
    case ClearReserve => ProducerWriteKeeps(s, step);
    case StoreHead => PublicationKeeps(s);
    case SeeHead(_) => PersistenceKeeps(s, step);
    case CheckToCopy => PersistenceKeeps(s, step);
    case CopyPending => PersistenceKeeps(s, step);
    case NothingToCopy => PersistenceKeeps(s, step);
    case CheckToStore => PersistenceKeeps(s, step);
    case ReadLast => PersistenceKeeps(s, step);
    case StoreDurable => DurabilityKeeps(s, step);
    case FailPersistence => DurabilityKeeps(s, step);
    case SeeDurable(_) => RiskKeeps(s, step);
    case ReadForRisk => RiskKeeps(s, step);
    case WriteRisk(result) => RiskWriteKeeps(s, result);
    case StoreRisk => RiskStoreKeeps(s);
    case ReturnRisk => RiskReturnKeeps(s);
    case SeeRisk(_) => ReserveKeeps(s, step);
    case ReadCommandForReserve => ReserveKeeps(s, step);
    case ReadRiskForReserve => ReserveKeeps(s, step);
    case WriteReserve(result) => ReserveWriteKeeps(s, result);
    case StoreReserve => ReserveStoreKeeps(s);
    case ReturnReserve => ReserveReturnKeeps(s);
    case SeeReserve(_) => ConsumerKeeps(s, step);
    case TakeCommand => ConsumerKeeps(s, step);
    case TakeRisk => ConsumerKeeps(s, step);
    case TakeReserve => ConsumerKeeps(s, step);
    case StoreTail => TailStoreKeeps(s);
    case _ => ProducerKeeps(s, step);
  }

  /** Writing anything but a command leaves every slot's command alone. */
  lemma CommandsStay(slots: seq<Slot>, position: nat, slot: Slot)
    requires slots != [] && slot.command == SlotAt(slots, position).command
    ensures forall p: nat :: SlotAt(SetSlot(slots, position, slot), p).command == SlotAt(slots, p).command
  {
  }

  /** Writing the command at the head takes the slot over from the position one ring earlier. */
  lemma CommandWriteKeeps(s: System)
    requires RingInv(s) && WrittenInv(s) && Enabled(s, WriteCommand)
    ensures WrittenInv(Do(s, WriteCommand))
  {
    hide SetSlot, SlotAt, Stored, DeliveredInOrder, PersistenceInv, KeeperInv, RiskInv, ReserveInv, ConsumerInv;
    var r, n, s' := s.ring, |s.ring.slots|, Do(s, WriteCommand);
    var slot := SlotAt(r.slots, r.head).(command := s.producer.next);
    forall p | 0 <= p < r.head && Intact(s'.ring, s'.producer, p)
      ensures SlotAt(s'.ring.slots, p).command == s.h.published[p] && Owns(s'.ring.slots, s'.owners, p)
    {
      WriteFrame(r.slots, p, r.head, slot);
      DistinctSlots(p, r.head, n);
    }
  }

  lemma HeadStoreKeeps(s: System)
    requires RingInv(s) && WrittenInv(s) && Enabled(s, StoreHead)
    ensures WrittenInv(Do(s, StoreHead))
  {
    hide SlotAt, Owns, Stored, DeliveredInOrder, PersistenceInv, KeeperInv, RiskInv, ReserveInv, ConsumerInv;
  }

  lemma WrittenKeeps(s: System, step: Step)
    requires RingInv(s) && WrittenInv(s) && Enabled(s, step)
    ensures WrittenInv(Do(s, step))
  {
    if step.WriteCommand? {
      CommandWriteKeeps(s);
    } else if step.StoreHead? {
      HeadStoreKeeps(s);
    } else if step.ClearRisk? || step.ClearReserve? || step.WriteRisk? || step.WriteReserve? {
      SidecarWriteKeeps(s, step);
    } else {
      hide RingInv, LastWritten, SlotAt, SetSlot;
    }
  }

  /** The writes of the other fields of a slot. */
  lemma SidecarWriteKeeps(s: System, step: Step)
    requires WrittenInv(s) && Enabled(s, step)
    requires step.ClearRisk? || step.ClearReserve? || step.WriteRisk? || step.WriteReserve?
    ensures WrittenInv(Do(s, step))
  {
    hide SetSlot, SlotAt;
    var r := s.ring;
    if step.ClearRisk? {
      CommandsStay(r.slots, r.head, SlotAt(r.slots, r.head).(risk := UNCHECKED));
    } else if step.ClearReserve? {
      CommandsStay(r.slots, r.head, SlotAt(r.slots, r.head).(reserve := UNCHECKED));
    } else if step.WriteRisk? {
      CommandsStay(r.slots, r.risk, SlotAt(r.slots, r.risk).(risk := step.result));
    } else {
      CommandsStay(r.slots, r.reserve, SlotAt(r.slots, r.reserve).(reserve := step.result));
    }
  }

  /** Every step of every role keeps the invariant. */
  lemma StepKeeps(s: System, step: Step)
    requires Inv(s) && Enabled(s, step)
    ensures Inv(Do(s, step))
  {
    hide Enabled, Do, RingInv, WrittenInv;
    RingKeeps(s, step);
    WrittenKeeps(s, step);
  }

  // ---------------------------------------------------------------- every interleaving

  /** A schedule: every step is enabled when its turn comes. */
  ghost predicate Schedule(s: System, steps: seq<Step>)
    requires s.ring.slots != []
    decreases |steps|
  {
    steps != [] ==> Enabled(s, steps[0]) && Schedule(Do(s, steps[0]), steps[1..])
  }

  ghost function Execute(s: System, steps: seq<Step>): (s': System)
    requires s.ring.slots != [] && Schedule(s, steps)
    ensures |s'.ring.slots| == |s.ring.slots|
    decreases |steps|
  {
    if steps == [] then s else Execute(Do(s, steps[0]), steps[1..])
  }

  predicate Opened(r: Ring, capacity: nat, first: nat) {
    |r.slots| == capacity > 0 && first > 0 && r == Ring(r.slots, 0, 0, 0, 0, 0, false, first, false)
  }

  function Begin(r: Ring): System {
    System(r, History([], [], [], [], [], [], []), Seen(0, 0, 0, 0, 0), map[], Idle, Resting, [], Waiting, Waiting,
        Listening)
  }

  /** In every interleaving: the frontiers are ordered and within one capacity, and the matcher
      has received exactly a prefix of the published commands, each with its own two results,
      and nothing that persistence had not stored. */
  lemma {:induction false} RunIsSafe(s: System, steps: seq<Step>)
    requires Inv(s) && Schedule(s, steps)
    ensures var s' := Execute(s, steps);
            && Inv(s') && Ordered(s'.ring)
            && |s'.h.delivered| == s'.ring.tail <= |s'.h.persisted| == s'.ring.durable
            && s'.h.persisted <= s'.h.published
            && (forall p :: 0 <= p < |s'.h.delivered| ==>
                  s'.h.delivered[p] == Slot(s'.h.published[p], s'.h.risks[p], s'.h.reserves[p]))
    decreases |steps|
  {
    hide Do, Enabled;
    if steps != [] {
      StepKeeps(s, steps[0]);
      RunIsSafe(Do(s, steps[0]), steps[1..]);
    }
  }

  lemma BeginInv(r: Ring, capacity: nat, first: nat)
    requires Opened(r, capacity, first)
    ensures Inv(Begin(r))
  {
  }

  // ---------------------------------------------------------------- who is at which slot

  /** Two positions less than a ring apart are in different slots. */
  predicate Apart(n: nat, p: nat, q: nat)
    requires n > 0
  {
    p % n != q % n
  }

  /** While a role may write a slot, no other role reads or writes at that slot, the late reads of
      the stages apart: the producer is less than a ring ahead of everything not yet consumed,
      persistence copies and stores above the stages, and the stages and the matcher work at
      different positions. */
  lemma NoOverlap(s: System)
    requires Inv(s)
    ensures var n, r := |s.ring.slots|, s.ring;
            && (Claims(s.producer) ==> forall p :: r.tail <= p < r.head ==> Apart(n, p, r.head))
            && (forall p :: r.durable <= p < r.head ==>
                  && (Active(s.riskStage) ==> Apart(n, r.risk, p))
                  && (Active(s.reserveStage) ==> Apart(n, r.reserve, p))
                  && (!s.consumer.Listening? ==> Apart(n, r.tail, p)))
            && (Active(s.riskStage) && Active(s.reserveStage) ==> Apart(n, r.risk, r.reserve))
            && (Active(s.riskStage) && !s.consumer.Listening? ==> Apart(n, r.risk, r.tail))
            && (Active(s.reserveStage) && !s.consumer.Listening? ==> Apart(n, r.reserve, r.tail))
    ensures Enabled(s, CopyPending) ==> s.ring.durable <= s.ring.durable + |s.batch| < s.ring.head
    ensures Enabled(s, ReadLast) ==> s.ring.durable <= s.ring.durable + |s.batch| - 1 < s.ring.head
  {
    Positions(s);
    var n, r := |s.ring.slots|, s.ring;
    hide Inv, SlotAt, Apart;
    forall p: nat, q: nat | p < q < p + n
      ensures Apart(n, p, q) && Apart(n, q, p)
    {
      LessThanARing(n, p, q);
    }
  }

  lemma LessThanARing(n: nat, p: nat, q: nat)
    requires p < q < p + n
    ensures Apart(n, p, q) && Apart(n, q, p)
  {
    DistinctSlots(p, q, n);
  }

  /** Where the roles are, by the invariant. */
  lemma Positions(s: System)
    requires Inv(s)
    ensures Ordered(s.ring) && s.ring.slots != [] && (Claims(s.producer) ==> s.ring.head < s.ring.tail + |s.ring.slots|)
    ensures Active(s.riskStage) ==> s.ring.risk < s.ring.durable
    ensures Active(s.reserveStage) ==> s.ring.reserve < s.ring.risk
    ensures !s.consumer.Listening? ==> s.ring.tail < s.ring.reserve
    ensures s.seen.head <= s.ring.head && s.ring.durable + |s.batch| <= s.ring.head
  {
    hide LastWritten, DeliveredInOrder, SlotAt;
  }

  /** The position whose slot a stage reads after it has stored its frontier. */
  predicate ReadsLate(s: System, p: nat) {
    s.riskStage == Returning(p) || s.reserveStage == Returning(p)
  }

  /** The command in the slot of `p` once the slot has been taken over. */
  function Successor(s: System, p: nat): CommandEnvelope
    requires ReadsLate(s, p) && !Intact(s.ring, s.producer, p) && Inv(s)
  {
    TakenOver(s, p);
    if s.ring.head == p + |s.ring.slots| then s.producer.next else s.h.published[p + |s.ring.slots|]
  }

  lemma TakenOver(s: System, p: nat)
    requires Inv(s) && ReadsLate(s, p)
    ensures |s.ring.slots| > 0 && p < s.ring.head <= p + |s.ring.slots| + 1 && |s.h.published| == s.ring.head
    ensures !Intact(s.ring, s.producer, p) ==>
      s.ring.head == p + |s.ring.slots| + 1 || (s.ring.head == p + |s.ring.slots| && HasWritten(s.producer))
    ensures s.ring.head == p + |s.ring.slots| + 1 ==> !Claims(s.producer)
  {
    hide Stored, DeliveredInOrder, SlotAt;
  }

  /** The late read of a stage, which happens after its frontier is stored, is at a slot still
      written for its own position if and only if the producer has not begun to write the command
      one whole ring later. What it finds is then the published command, and otherwise that
      later one. */
  lemma LateRead(s: System, p: nat)
    requires Inv(s) && ReadsLate(s, p)
    ensures p < |s.h.published|
    ensures Owns(s.ring.slots, s.owners, p) <==> Intact(s.ring, s.producer, p)
    ensures SlotAt(s.ring.slots, p).command == if Intact(s.ring, s.producer, p) then s.h.published[p]
      else Successor(s, p)
  {
    hide Stored, DeliveredInOrder, PersistenceInv, KeeperInv, ConsumerInv, SlotAt;
    TakenOver(s, p);
    if !Intact(s.ring, s.producer, p) {
      var n := |s.ring.slots|;
      SameSlot(s.ring.slots, p);
      assert s.ring.head != p + n ==> Intact(s.ring, s.producer, p + n);
    }
  }

  lemma SameSlot(slots: seq<Slot>, p: nat)
    requires slots != []
    ensures (p + |slots|) % |slots| == p % |slots| && SlotAt(slots, p + |slots|) == SlotAt(slots, p)
  {
    NextRound(p, |slots|);
  }

  /** A guard the stage's caller can rely on: nothing is taken over while the position has not been
      consumed. */
  lemma UnconsumedIsIntact(s: System, p: nat)
    requires Inv(s) && ReadsLate(s, p) && s.ring.tail <= p
    ensures Intact(s.ring, s.producer, p) && SlotAt(s.ring.slots, p).command == s.h.published[p]
  {
    hide Stored, DeliveredInOrder, PersistenceInv, KeeperInv, ConsumerInv, SlotAt;
  }

  /** In a live stream, where no sequence is assigned twice, the sequence a stage returns is that of
      its own command if and only if the slot had not been taken over. */
  lemma LateReadLive(base: nat, first: nat, s: System, p: nat)
    requires Inv(s) && ReadsLate(s, p) && CountsFrom(base, first, s) && base <= p
    ensures SlotAt(s.ring.slots, p).command.sequence == s.h.published[p].sequence <==> Intact(s.ring, s.producer, p)
  {
    hide Inv, SlotAt;
    LateRead(s, p);
    TakenOver(s, p);
  }

  // ---------------------------------------------------------------- what only grows, and failure

  ghost predicate Grown(h: History, h': History) {
    h.published <= h'.published && h.delivered <= h'.delivered && h.persisted <= h'.persisted
  }

  lemma StepGrows(s: System, step: Step)
    requires s.ring.slots != [] && Enabled(s, step)
    ensures Grown(s.h, Do(s, step).h)
  {
    hide SlotAt, SetSlot, Advanced;
  }

  /** The published, stored and delivered histories only grow. */
  lemma {:induction false} HistoryGrows(s: System, steps: seq<Step>)
    requires s.ring.slots != [] && Schedule(s, steps)
    ensures Grown(s.h, Execute(s, steps).h)
    decreases |steps|
  {
    hide Enabled, Do;
    if steps != [] {
      StepGrows(s, steps[0]);
      HistoryGrows(Do(s, steps[0]), steps[1..]);
    }
  }

  /** Persistence has passed the check of the failure flag in a store. */
  predicate StoreInFlight(s: System) {
    s.keeper.Storing? || s.keeper.Sequenced?
  }

  /** The durable frontier once the store in flight is done. */
  function DurableEnd(s: System): nat {
    s.ring.durable + (if StoreInFlight(s) then |s.batch| else 0)
  }

  /** The head once the publication in flight is done. */
  function HeadEnd(s: System): nat {
    s.ring.head + (if s.producer.Idle? then 0 else 1)
  }

  lemma FailedStep(s: System, step: Step)
    requires s.ring.slots != [] && Enabled(s, step) && s.ring.failed
    ensures var s' := Do(s, step);
            && s'.ring.failed && DurableEnd(s') == DurableEnd(s) && HeadEnd(s') <= HeadEnd(s)
            && (s'.ring.durable == s.ring.durable || s'.ring.durable == DurableEnd(s))
  {
    hide SlotAt, SetSlot;
  }

  /** Once persistence has failed, only a store that had passed its check before can still move the
      durable frontier, once and to where it was going; at most the publication in flight is
      still published; and the matcher never receives anything at or above that frontier. When no
      store is in flight, as when the persistence role itself reports the failure, the frontier
      never moves again. */
  lemma {:induction false} FailureIsTerminal(s: System, steps: seq<Step>)
    requires Inv(s) && Schedule(s, steps) && s.ring.failed
    ensures var s' := Execute(s, steps);
            && s'.ring.failed && (s'.ring.durable == s.ring.durable || s'.ring.durable == DurableEnd(s))
            && DurableEnd(s') == DurableEnd(s) && HeadEnd(s') <= HeadEnd(s) && s'.ring.head <= HeadEnd(s)
            && |s'.h.delivered| <= s'.ring.durable == |s'.h.persisted|
            && (!StoreInFlight(s) ==> s'.ring.durable == s.ring.durable && s'.h.persisted == s.h.persisted)
    decreases |steps|
  {
    hide Enabled, Do;
    if steps != [] {
      StepKeeps(s, steps[0]);
      FailedStep(s, steps[0]);
      StepGrows(s, steps[0]);
      RunIsSafe(Do(s, steps[0]), steps[1..]);
      HistoryGrows(Do(s, steps[0]), steps[1..]);
      hide Inv;
      FailureIsTerminal(Do(s, steps[0]), steps[1..]);
    }
  }

  // ---------------------------------------------------------------- live sequences

  predicate LiveOnly(steps: seq<Step>) {
    forall i :: 0 <= i < |steps| ==> !steps[i].RestoreCursor? && (steps[i].Admit? ==> steps[i].live)
  }

  /** From position `base` on, the published sequences count up from `first`, and the cursor is the
      next one until the largest sequence is used up. The publication of a replayed command may
      still be under way below `base`. */
  ghost predicate CountsFrom(base: nat, first: nat, s: System) {
    Counting(base, first, s.h.published, s.ring.nextLive, s.ring.exhausted, s.producer)
  }

  ghost predicate Counting(base: nat, first: nat, published: seq<CommandEnvelope>, nextLive: nat, exhausted: bool,
                           producer: Producer) {
    var n := |published|;
    && (if n < base then n + 1 == base && Claims(producer) && !producer.live
        else !producer.Idle? ==> producer.live && !exhausted && producer.next.sequence == nextLive)
    && (forall i :: base <= i < n ==> published[i].sequence == first + i - base)
    && var count := if n < base then 0 else n - base;
       if exhausted then first + count == MAX_SEQUENCE + 1 && nextLive == MAX_SEQUENCE
       else nextLive == first + count <= MAX_SEQUENCE
  }

  /** A new ring counts from its first sequence; a restored cursor counts from the restored one. */
  lemma CountingStarts(r: Ring, capacity: nat, first: nat, s: System, sequence: nat)
    requires Opened(r, capacity, first) && first <= MAX_SEQUENCE
    requires s.ring.slots != [] && 0 < sequence <= MAX_SEQUENCE
      && (s.producer.Idle? || (Claims(s.producer) && !s.producer.live))
    ensures CountsFrom(0, first, Begin(r))
    ensures Enabled(s, RestoreCursor(sequence))
    ensures CountsFrom(|s.h.published| + (if s.producer.Idle? then 0 else 1), sequence, Do(s, RestoreCursor(sequence)))
  {
  }

  /** With live publication only, the matcher receives the sequences first, first + 1, ... and
      no sequence is ever assigned twice or wraps. */
  lemma LiveSequences(base: nat, first: nat, s: System, steps: seq<Step>)
    requires Inv(s) && Schedule(s, steps) && LiveOnly(steps) && CountsFrom(base, first, s)
    ensures CountsFrom(base, first, Execute(s, steps))
    ensures var d := Execute(s, steps).h.delivered;
            forall i :: base <= i < |d| ==> d[i].command.sequence == first + i - base <= MAX_SEQUENCE
  {
    hide Enabled, Do, Schedule, Execute;
    RunIsSafe(s, steps);
    RunCounts(base, first, s, steps);
  }

  lemma {:induction false} RunCounts(base: nat, first: nat, s: System, steps: seq<Step>)
    requires s.ring.slots != [] && Schedule(s, steps) && LiveOnly(steps) && CountsFrom(base, first, s)
    ensures CountsFrom(base, first, Execute(s, steps))
    decreases |steps|
  {
    hide CountsFrom, Enabled, Do;
    if steps != [] {
      StepCounts(base, first, s, steps[0]);
      RunCounts(base, first, Do(s, steps[0]), steps[1..]);
    }
  }

  lemma StepCounts(base: nat, first: nat, s: System, step: Step)
    requires s.ring.slots != [] && Enabled(s, step) && CountsFrom(base, first, s)
    requires !step.RestoreCursor? && (step.Admit? ==> step.live)
    ensures CountsFrom(base, first, Do(s, step))
  {
    hide SlotAt, SetSlot;
    if ProducerStep(step) {
      ProducerCounts(base, first, s, step);
    } else {
      hide Counting, Enabled;
    }
  }

  predicate ProducerStep(step: Step) {
    step.Admit? || step.FindRoom? || step.GiveUp? || step.WriteCommand? || step.ClearRisk? || step.ClearReserve?
    || step.StoreHead?
  }

  lemma ProducerCounts(base: nat, first: nat, s: System, step: Step)
    requires s.ring.slots != [] && Enabled(s, step) && CountsFrom(base, first, s)
    requires ProducerStep(step) && (step.Admit? ==> step.live)
    ensures CountsFrom(base, first, Do(s, step))
  {
    hide SlotAt, SetSlot;
  }
}
