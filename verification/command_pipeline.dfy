/** The command pipeline, call by call. Each call is one uninterrupted schedule of the steps in
    `CommandRing`, so the results proved there for every interleaving cover it. */
module CommandPipelines {
  import opened BookTypes
  import opened MatcherTypes
  import opened CommandRing
  import opened Sequences

  datatype Status = Ok | Empty | Full | InvalidConfig | InvalidCount | InvalidDecision | SequenceExhausted
                  | InvalidSequence | PersistenceFailed | Closed | AlreadyOpen

  datatype Result = Result(status: Status, sequence: nat, frontier: nat)

  function Failure(status: Status): Result {
    Result(status, 0, 0)
  }

  const EMPTY_SLOT := Slot(CommandEnvelope(0, 0, NoCommand), UNCHECKED, UNCHECKED)

  // ---------------------------------------------------------------- calls as schedules

  /** No role is in the middle of a call. */
  predicate Quiet(s: System) {
    s.producer.Idle? && s.keeper.Resting? && s.batch == [] && s.riskStage.Waiting? && s.reserveStage.Waiting?
      && s.consumer.Listening?
  }

  function PublishSteps(next: CommandEnvelope, live: bool, tail: nat): seq<Step> {
    [Admit(next, live), FindRoom(tail), WriteCommand, ClearRisk, ClearReserve, StoreHead]
  }

  function RiskSteps(durable: nat, result: Check): seq<Step> {
    [SeeDurable(durable), WriteRisk(result), StoreRisk, ReturnRisk]
  }

  function ReserveSteps(risk: nat, result: Check): seq<Step> {
    [SeeRisk(risk), WriteReserve(result), StoreReserve, ReturnReserve]
  }

  function ConsumeSteps(reserve: nat): seq<Step> {
    [SeeReserve(reserve), TakeCommand, TakeRisk, TakeReserve, StoreTail]
  }

  function Copies(count: nat): (steps: seq<Step>) {
    if count == 0 then [] else [CheckToCopy, CopyPending] + Copies(count - 1)
  }

  function DurableSteps(head: nat, count: nat): seq<Step> {
    [SeeHead(head)] + Copies(count) + [CheckToStore, ReadLast, StoreDurable]
  }

  lemma {:induction false} Then(s: System, a: seq<Step>, b: seq<Step>)
    requires s.ring.slots != [] && Schedule(s, a) && Schedule(Execute(s, a), b)
    ensures Schedule(s, a + b) && Execute(s, a + b) == Execute(Execute(s, a), b)
    decreases |a|
  {
    hide Enabled, Do;
    if a == [] {
      assert a + b == b;
    } else {
      Then(Do(s, a[0]), a[1..], b);
      assert (a + b)[1..] == a[1..] + b;
    }
  }

  /** Three enabled steps are a schedule. */
  lemma Chain3(s: System, a: Step, b: Step, c: Step)
    requires s.ring.slots != [] && Enabled(s, a) && Enabled(Do(s, a), b) && Enabled(Do(Do(s, a), b), c)
    ensures Schedule(s, [a, b, c]) && Execute(s, [a, b, c]) == Do(Do(Do(s, a), b), c)
  {
    hide Enabled, Do;
    assert [a, b, c][1..] == [b, c] && [b, c][1..] == [c] && [c][1..] == [];
    var s1 := Do(s, a);
    var s2 := Do(s1, b);
    OneRuns(s2, c);
    assert Schedule(s1, [b, c]) && Execute(s1, [b, c]) == Execute(s2, [c]);
  }

  lemma Chain5(s: System, a: Step, b: Step, c: Step, d: Step, e: Step)
    requires s.ring.slots != [] && Enabled(s, a) && Enabled(Do(s, a), b) && Enabled(Do(Do(s, a), b), c)
    requires var s3 := Do(Do(Do(s, a), b), c); Enabled(s3, d) && Enabled(Do(s3, d), e)
    ensures Schedule(s, [a, b, c, d, e]) && Execute(s, [a, b, c, d, e]) == Do(Do(Do(Do(Do(s, a), b), c), d), e)
  {
    hide Enabled, Do;
    assert [a, b, c, d, e][1..] == [b, c, d, e] && [b, c, d, e][1..] == [c, d, e];
    Chain3(Do(Do(s, a), b), c, d, e);
    assert Schedule(Do(s, a), [b, c, d, e]);
  }

  lemma Chain4(s: System, a: Step, b: Step, c: Step, d: Step)
    requires s.ring.slots != [] && Enabled(s, a) && Enabled(Do(s, a), b) && Enabled(Do(Do(s, a), b), c)
    requires Enabled(Do(Do(Do(s, a), b), c), d)
    ensures Schedule(s, [a, b, c, d]) && Execute(s, [a, b, c, d]) == Do(Do(Do(Do(s, a), b), c), d)
  {
    hide Enabled, Do;
    assert [a, b, c, d][1..] == [b, c, d];
    Chain3(Do(s, a), b, c, d);
  }

  lemma Chain6(s: System, a: Step, b: Step, c: Step, d: Step, e: Step, f: Step)
    requires s.ring.slots != [] && Enabled(s, a) && Enabled(Do(s, a), b) && Enabled(Do(Do(s, a), b), c)
    requires var s3 := Do(Do(Do(s, a), b), c);
             Enabled(s3, d) && Enabled(Do(s3, d), e) && Enabled(Do(Do(s3, d), e), f)
    ensures Schedule(s, [a, b, c, d, e, f])
    ensures Execute(s, [a, b, c, d, e, f]) == Do(Do(Do(Do(Do(Do(s, a), b), c), d), e), f)
  {
    hide Enabled, Do;
    assert [a, b, c, d, e, f][1..] == [b, c, d, e, f];
    Chain5(Do(s, a), b, c, d, e, f);
  }

  lemma SetAgain(slots: seq<Slot>, p: nat, a: Slot, b: Slot)
    requires slots != []
    ensures SlotAt(SetSlot(slots, p, a), p) == a && SetSlot(SetSlot(slots, p, a), p, b) == SetSlot(slots, p, b)
  {
  }

  /** The three writes fill the slot at the head. */
  lemma FillSlot(s: System)
    requires s.ring.slots != [] && s.producer.Room?
    ensures var s2 := Do(s, WriteCommand); var s3 := Do(s2, ClearRisk); var s4 := Do(s3, ClearReserve);
            s4 == s.(ring := Put(s.ring, s.ring.head, Slot(s.producer.next, UNCHECKED, UNCHECKED)), owners := s4.owners,
                     producer := SlotWritten(s.producer.next, s.producer.live))
  {
    hide SlotAt, SetSlot;
    var slots, p := s.ring.slots, s.ring.head;
    var a := SlotAt(slots, p).(command := s.producer.next);
    SetAgain(slots, p, a, a.(risk := UNCHECKED));
    SetAgain(slots, p, a.(risk := UNCHECKED), Slot(s.producer.next, UNCHECKED, UNCHECKED));
    SetAgain(slots, p, a, Slot(s.producer.next, UNCHECKED, UNCHECKED));
  }

  predicate HasRoom(s: System, next: CommandEnvelope, live: bool) {
    && s.ring.slots != [] && Enabled(s, Admit(next, live))
    && s.seen.tail <= s.ring.tail && s.ring.head - s.ring.tail != |s.ring.slots|
  }

  /** A publication as a schedule. */
  lemma PublishRuns(s: System, next: CommandEnvelope, live: bool)
    requires s.ring.slots != [] && Inv(s) && Quiet(s) && HasRoom(s, next, live)
    ensures Schedule(s, PublishSteps(next, live, s.ring.tail))
    ensures var r, s' := s.ring, Execute(s, PublishSteps(next, live, s.ring.tail));
            && Inv(s') && Quiet(s')
            && s'.ring
              == Advanced(Put(r, r.head, Slot(next, UNCHECKED, UNCHECKED)).(head := r.head + 1), live, next.sequence)
            && s'.h == s.h.(published := s.h.published + [next])
  {
    hide Schedule, Execute, SlotAt, SetSlot, Inv;
    var s1 := Do(Do(s, Admit(next, live)), FindRoom(s.ring.tail));
    Chain6(s, Admit(next, live), FindRoom(s.ring.tail), WriteCommand, ClearRisk, ClearReserve, StoreHead);
    FillSlot(s1);
    InvAfter(s, PublishSteps(next, live, s.ring.tail));
  }

  lemma InvAfter(s: System, steps: seq<Step>)
    requires Inv(s) && Schedule(s, steps)
    ensures Inv(Execute(s, steps))
  {
    RunIsSafe(s, steps);
  }

  /** A stage's result is recorded, and without interruption its call returns the sequence of its
      own command. */
  ghost predicate IsRiskHistory(h: History, p: nat, result: Check, h': History) {
    && p < |h.published|
    && h' == h.(risks := h.risks + [result], riskReturned := h.riskReturned + [h.published[p].sequence])
  }

  ghost predicate IsReserveHistory(h: History, p: nat, result: Check, h': History) {
    && p < |h.published|
    && h' == h.(reserves := h.reserves + [result], reserveReturned := h.reserveReturned + [h.published[p].sequence])
  }

  /** A stage's result as a schedule. */
  lemma RiskRuns(s: System, result: Check)
    requires s.ring.slots != [] && Inv(s) && Quiet(s) && s.ring.risk != s.ring.durable && result.decision != Pending
    ensures Schedule(s, RiskSteps(s.ring.durable, result))
    ensures var r, s' := s.ring, Execute(s, RiskSteps(s.ring.durable, result));
            && Inv(s') && Quiet(s')
            && s'.ring == Put(r, r.risk, SlotAt(r.slots, r.risk).(risk := result)).(risk := r.risk + 1)
            && IsRiskHistory(s.h, s.ring.risk, result, s'.h)
  {
    hide Schedule, Execute, SlotAt, SetSlot, Inv, Enabled, Do;
    Frontiers(s);
    SeesUpstream(s);
    WriteRiskIs(s, result);
    StoreRiskIs(Do(Do(s, SeeDurable(s.ring.durable)), WriteRisk(result)), result);
    SlotHolds(s, s.ring.risk);
    CommandsStay(s.ring.slots, s.ring.risk, SlotAt(s.ring.slots, s.ring.risk).(risk := result));
    Chain4(s, SeeDurable(s.ring.durable), WriteRisk(result), StoreRisk, ReturnRisk);
    InvAfter(s, RiskSteps(s.ring.durable, result));
  }

  /** A stage with something to do can start on it. */
  lemma SeesUpstream(s: System)
    requires s.ring.slots != [] && Quiet(s) && SeenInv(s.ring, s.seen)
    ensures s.ring.risk != s.ring.durable ==> Enabled(s, SeeDurable(s.ring.durable))
    ensures s.ring.reserve != s.ring.risk ==> Enabled(s, SeeRisk(s.ring.risk))
  {
  }

  lemma WriteRiskIs(s: System, result: Check)
    requires s.ring.slots != [] && Enabled(s, SeeDurable(s.ring.durable)) && result.decision != Pending
    ensures var s1 := Do(s, SeeDurable(s.ring.durable));
            && Enabled(s1, WriteRisk(result))
            && Do(s1, WriteRisk(result)) == s.(seen := s.seen.(durable := s.ring.durable), riskStage := Written(result),
                 ring := Put(s.ring, s.ring.risk, SlotAt(s.ring.slots, s.ring.risk).(risk := result)))
  {
    hide SlotAt, SetSlot;
  }

  lemma StoreRiskIs(s: System, result: Check)
    requires s.ring.slots != [] && s.riskStage == Written(result)
    ensures Enabled(s, StoreRisk) && Enabled(Do(s, StoreRisk), ReturnRisk)
    ensures Do(Do(s, StoreRisk), ReturnRisk) == s.(ring := s.ring.(risk := s.ring.risk + 1), riskStage := Waiting,
              h := s.h.(risks := s.h.risks + [result],
                        riskReturned := s.h.riskReturned + [SlotAt(s.ring.slots, s.ring.risk).command.sequence]))
  {
    hide SlotAt, SetSlot;
  }

  lemma ReserveRuns(s: System, result: Check)
    requires s.ring.slots != [] && Inv(s) && Quiet(s) && s.ring.reserve != s.ring.risk && result.decision != Pending
    ensures Schedule(s, ReserveSteps(s.ring.risk, result))
    ensures var r, s' := s.ring, Execute(s, ReserveSteps(s.ring.risk, result));
            && Inv(s') && Quiet(s')
            && s'.ring == Put(r, r.reserve, SlotAt(r.slots, r.reserve).(reserve := result)).(reserve := r.reserve + 1)
            && IsReserveHistory(s.h, s.ring.reserve, result, s'.h)
  {
    hide Schedule, Execute, SlotAt, SetSlot, Inv, Enabled, Do;
    Frontiers(s);
    SeesUpstream(s);
    WriteReserveIs(s, result);
    StoreReserveIs(Do(Do(s, SeeRisk(s.ring.risk)), WriteReserve(result)), result);
    SlotHolds(s, s.ring.reserve);
    CommandsStay(s.ring.slots, s.ring.reserve, SlotAt(s.ring.slots, s.ring.reserve).(reserve := result));
    Chain4(s, SeeRisk(s.ring.risk), WriteReserve(result), StoreReserve, ReturnReserve);
    InvAfter(s, ReserveSteps(s.ring.risk, result));
  }

  lemma WriteReserveIs(s: System, result: Check)
    requires s.ring.slots != [] && Enabled(s, SeeRisk(s.ring.risk)) && result.decision != Pending
    ensures var s1 := Do(s, SeeRisk(s.ring.risk));
            && Enabled(s1, WriteReserve(result))
            && Do(s1, WriteReserve(result)) == s.(seen := s.seen.(risk := s.ring.risk), reserveStage := Written(result),
                 ring := Put(s.ring, s.ring.reserve, SlotAt(s.ring.slots, s.ring.reserve).(reserve := result)))
  {
    hide SlotAt, SetSlot;
  }

  lemma StoreReserveIs(s: System, result: Check)
    requires s.ring.slots != [] && s.reserveStage == Written(result)
    ensures Enabled(s, StoreReserve) && Enabled(Do(s, StoreReserve), ReturnReserve)
    ensures Do(Do(s, StoreReserve), ReturnReserve) == s.(ring := s.ring.(reserve := s.ring.reserve + 1),
              reserveStage := Waiting,
              h := s.h.(reserves := s.h.reserves + [result],
                        reserveReturned := s.h.reserveReturned
                          + [SlotAt(s.ring.slots, s.ring.reserve).command.sequence]))
  {
    hide SlotAt, SetSlot;
  }

  /** The three reads copy the slot at the tail. */
  lemma CopySlot(s: System)
    requires s.ring.slots != [] && s.consumer.Available?
    ensures Enabled(s, TakeCommand) && Enabled(Do(s, TakeCommand), TakeRisk)
    ensures var s3 := Do(Do(s, TakeCommand), TakeRisk);
            Enabled(s3, TakeReserve) && Do(s3, TakeReserve) == s.(consumer := Copied(SlotAt(s.ring.slots, s.ring.tail)))
  {
    hide SlotAt;
  }

  lemma SeeAndFree(s: System, slot: Slot)
    requires s.ring.slots != [] && Enabled(s, SeeReserve(s.ring.reserve))
    ensures Do(s, SeeReserve(s.ring.reserve)) == s.(seen := s.seen.(reserve := s.ring.reserve), consumer := Available)
    ensures var s4 := s.(seen := s.seen.(reserve := s.ring.reserve), consumer := Copied(slot));
            && Enabled(s4, StoreTail)
            && Do(s4, StoreTail) == s4.(ring := s.ring.(tail := s.ring.tail + 1), consumer := Listening,
                                        h := s.h.(delivered := s.h.delivered + [slot]))
  {
    hide SlotAt, SetSlot;
  }

  /** A consumption as a schedule: the copied slot is the one at the tail. */
  lemma ConsumeRuns(s: System)
    requires s.ring.slots != [] && Inv(s) && Quiet(s) && Enabled(s, SeeReserve(s.ring.reserve))
    ensures Schedule(s, ConsumeSteps(s.ring.reserve))
    ensures var r, s' := s.ring, Execute(s, ConsumeSteps(s.ring.reserve));
            && Inv(s') && Quiet(s')
            && s'.ring == r.(tail := r.tail + 1)
            && s'.h == s.h.(delivered := s.h.delivered + [SlotAt(r.slots, r.tail)])
  {
    hide Schedule, Execute, SlotAt, SetSlot, Inv;
    ConsumeState(s);
    InvAfter(s, ConsumeSteps(s.ring.reserve));
  }

  lemma ConsumeState(s: System)
    requires s.ring.slots != [] && Enabled(s, SeeReserve(s.ring.reserve))
    ensures Schedule(s, ConsumeSteps(s.ring.reserve))
    ensures Execute(s, ConsumeSteps(s.ring.reserve)) ==
            s.(seen := s.seen.(reserve := s.ring.reserve), ring := s.ring.(tail := s.ring.tail + 1),
                consumer := Listening,
               h := s.h.(delivered := s.h.delivered + [SlotAt(s.ring.slots, s.ring.tail)]))
  {
    hide Schedule, Execute, SlotAt, SetSlot, Enabled, Do;
    SeeAndFree(s, SlotAt(s.ring.slots, s.ring.tail));
    CopySlot(Do(s, SeeReserve(s.ring.reserve)));
    Chain5(s, SeeReserve(s.ring.reserve), TakeCommand, TakeRisk, TakeReserve, StoreTail);
  }

  /** Copying a batch of `count` commands and storing the durable frontier, as a schedule. */
  lemma DurableRuns(s: System, count: nat)
    requires s.ring.slots != [] && Inv(s) && Quiet(s) && !s.ring.failed && 0 < count <= s.ring.head - s.ring.durable
    ensures Schedule(s, DurableSteps(s.ring.head, count))
    ensures var r, s' := s.ring, Execute(s, DurableSteps(s.ring.head, count));
            && Inv(s') && Quiet(s')
            && s'.ring == r.(durable := r.durable + count)
            && s'.h == s.h.(persisted := s.h.published[..r.durable + count])
  {
    assert Enabled(s, SeeHead(s.ring.head));
    hide Schedule, Execute, SlotAt, SetSlot, Inv, Enabled, Do;
    DurableState(s, count);
    InvAfter(s, DurableSteps(s.ring.head, count));
    PersistedSoFar(Execute(s, DurableSteps(s.ring.head, count)));
  }

  lemma DurableState(s: System, count: nat)
    requires s.ring.slots != [] && Quiet(s) && !s.ring.failed && 0 < count <= s.ring.head - s.ring.durable
    requires s.seen.head <= s.ring.head
    ensures Schedule(s, DurableSteps(s.ring.head, count))
    ensures var s' := Execute(s, DurableSteps(s.ring.head, count));
            && Quiet(s') && s'.ring == s.ring.(durable := s.ring.durable + count)
            && s'.h == s.h.(persisted := s'.h.persisted)
  {
    hide Schedule, Execute, SlotAt;
    var s1 := Do(s, SeeHead(s.ring.head));
    assert Enabled(s, SeeHead(s.ring.head)) && s1 == s.(seen := s.seen.(head := s.ring.head));
    hide Enabled, Do;
    CopiesRun(s1, count);
    var s2 := Execute(s1, Copies(count));
    OneRuns(s, SeeHead(s.ring.head));
    StoreDurableIs(s2);
    Chain3(s2, CheckToStore, ReadLast, StoreDurable);
    JoinThree(s, [SeeHead(s.ring.head)], Copies(count), [CheckToStore, ReadLast, StoreDurable]);
  }

  lemma StoreDurableIs(s: System)
    requires s.ring.slots != [] && s.keeper.Resting? && !s.ring.failed && s.batch != []
    ensures Enabled(s, CheckToStore) && Enabled(Do(s, CheckToStore), ReadLast)
    ensures var s2 := Do(Do(s, CheckToStore), ReadLast);
            && Enabled(s2, StoreDurable)
            && Do(s2, StoreDurable) == s.(ring := s.ring.(durable := s.ring.durable + |s.batch|), batch := [],
                 h := s.h.(persisted := s.h.persisted + s.batch))
  {
    hide SlotAt, SetSlot;
  }

  lemma JoinThree(s: System, a: seq<Step>, b: seq<Step>, c: seq<Step>)
    requires s.ring.slots != [] && Schedule(s, a) && Schedule(Execute(s, a), b)
      && Schedule(Execute(Execute(s, a), b), c)
    ensures Schedule(s, a + b + c) && Execute(s, a + b + c) == Execute(Execute(Execute(s, a), b), c)
  {
    hide Schedule, Execute;
    Then(s, a, b);
    Then(s, a + b, c);
  }

  lemma OneRuns(s: System, step: Step)
    requires s.ring.slots != [] && Enabled(s, step)
    ensures Schedule(s, [step]) && Execute(s, [step]) == Do(s, step)
  {
    hide Enabled, Do;
    assert [step][1..] == [];
    assert Schedule(Do(s, step), []);
  }

  lemma PersistedSoFar(s: System)
    requires Inv(s)
    ensures s.ring.durable <= |s.h.published| && s.h.persisted == s.h.published[..s.ring.durable]
  {
  }

  lemma {:induction false} CopiesRun(s: System, count: nat)
    requires s.ring.slots != [] && !s.ring.failed && s.keeper.Resting?
      && s.ring.durable + |s.batch| + count <= s.seen.head
    ensures Schedule(s, Copies(count)) && Execute(s, Copies(count)) == s.(batch := Execute(s, Copies(count)).batch)
    ensures |Execute(s, Copies(count)).batch| == |s.batch| + count
    decreases count
  {
    hide SlotAt;
    if count > 0 {
      var s1 := Do(s, CheckToCopy);
      assert Copies(count)[1..][1..] == Copies(count - 1);
      assert Copies(count)[1..] == [CopyPending] + Copies(count - 1);
      CopiesRun(Do(s1, CopyPending), count - 1);
      assert Schedule(s1, Copies(count)[1..]);
    }
  }

  /** What the invariant says about the slot at a position. */
  lemma SlotHolds(s: System, p: nat)
    requires s.ring.slots != [] && Inv(s) && s.ring.tail <= p < s.ring.head
    ensures p < |s.h.published| && SlotAt(s.ring.slots, p).command == s.h.published[p]
    ensures p < s.ring.risk ==> p < |s.h.risks| && SlotAt(s.ring.slots, p).risk == s.h.risks[p]
    ensures p < s.ring.reserve ==> p < |s.h.reserves| && SlotAt(s.ring.slots, p).reserve == s.h.reserves[p]
  {
    hide SlotAt;
  }

  lemma Frontiers(s: System)
    requires s.ring.slots != [] && Inv(s)
    ensures Ordered(s.ring) && SeenInv(s.ring, s.seen) && |s.h.published| == s.ring.head
  {
  }

  ghost predicate IsDurable(s: System, count: nat, s': System) {
    && s.ring.slots != [] && Schedule(s, DurableSteps(s.ring.head, count))
    && s' == Execute(s, DurableSteps(s.ring.head, count))
    && s.ring.durable + count <= |s.h.published|
    && s'.h == s.h.(persisted := s.h.published[..s.ring.durable + count])
  }

  ghost function DurableCall(s: System, count: nat): (s': System)
    requires s.ring.slots != [] && Inv(s) && Quiet(s) && !s.ring.failed && 0 < count <= s.ring.head - s.ring.durable
    ensures IsDurable(s, count, s') && s'.ring.slots != [] && Inv(s') && Quiet(s')
    ensures s'.ring == s.ring.(durable := s.ring.durable + count) && s'.h.published == s.h.published
  {
    Frontiers(s);
    DurableRuns(s, count);
    Execute(s, DurableSteps(s.ring.head, count))
  }

  ghost predicate IsRisk(s: System, check: Check, s': System) {
    && s.ring.slots != [] && Schedule(s, RiskSteps(s.ring.durable, check))
    && s' == Execute(s, RiskSteps(s.ring.durable, check))
    && IsRiskHistory(s.h, s.ring.risk, check, s'.h)
  }

  ghost function RiskCall(s: System, check: Check): (s': System)
    requires s.ring.slots != [] && Inv(s) && Quiet(s) && s.ring.risk != s.ring.durable && check.decision != Pending
    ensures IsRisk(s, check, s') && s'.ring.slots != [] && Inv(s') && Quiet(s')
    ensures s'.ring
      == Put(s.ring, s.ring.risk, SlotAt(s.ring.slots, s.ring.risk).(risk := check)).(risk := s.ring.risk + 1)
    ensures IsRiskHistory(s.h, s.ring.risk, check, s'.h)
  {
    Frontiers(s);
    RiskRuns(s, check);
    Execute(s, RiskSteps(s.ring.durable, check))
  }

  ghost predicate IsReserve(s: System, check: Check, s': System) {
    && s.ring.slots != [] && Schedule(s, ReserveSteps(s.ring.risk, check))
    && s' == Execute(s, ReserveSteps(s.ring.risk, check))
    && IsReserveHistory(s.h, s.ring.reserve, check, s'.h)
  }

  ghost function ReserveCall(s: System, check: Check): (s': System)
    requires s.ring.slots != [] && Inv(s) && Quiet(s) && s.ring.reserve != s.ring.risk && check.decision != Pending
    ensures IsReserve(s, check, s') && s'.ring.slots != [] && Inv(s') && Quiet(s')
    ensures s'.ring
      == Put(s.ring, s.ring.reserve,
          SlotAt(s.ring.slots, s.ring.reserve).(reserve := check)).(reserve := s.ring.reserve + 1)
    ensures IsReserveHistory(s.h, s.ring.reserve, check, s'.h)
  {
    Frontiers(s);
    ReserveRuns(s, check);
    Execute(s, ReserveSteps(s.ring.risk, check))
  }

  /** `slot` is the published command at the tail with its own two results. */
  ghost predicate IsConsumption(s: System, slot: Slot, s': System) {
    && s.ring.slots != [] && Schedule(s, ConsumeSteps(s.ring.reserve))
    && s' == Execute(s, ConsumeSteps(s.ring.reserve))
    && s.ring.tail < |s.h.published| && s.ring.tail < |s.h.risks| && s.ring.tail < |s.h.reserves|
    && slot == Slot(s.h.published[s.ring.tail], s.h.risks[s.ring.tail], s.h.reserves[s.ring.tail])
    && s'.h == s.h.(delivered := s.h.delivered + [slot])
  }

  ghost function ConsumeCall(s: System): (s': System)
    requires s.ring.slots != [] && Inv(s) && Quiet(s) && s.ring.tail != s.ring.reserve
    ensures IsConsumption(s, SlotAt(s.ring.slots, s.ring.tail), s') && s'.ring.slots != [] && Inv(s') && Quiet(s')
    ensures s'.ring == s.ring.(tail := s.ring.tail + 1)
  {
    Frontiers(s);
    SlotHolds(s, s.ring.tail);
    ConsumeRuns(s);
    Execute(s, ConsumeSteps(s.ring.reserve))
  }

  ghost predicate JustOpened(s: System, capacity: nat, first: nat) {
    Opened(s.ring, capacity, first) && s == Begin(s.ring)
  }

  lemma BeginQuiet(slots: seq<Slot>, capacity: nat, first: nat)
    requires |slots| == capacity > 0 && first > 0
    ensures var r := Ring(slots, 0, 0, 0, 0, 0, false, first, false);
            JustOpened(Begin(r), capacity, first) && Begin(r).ring == r && Quiet(Begin(r)) && Inv(Begin(r))
  {
    BeginInv(Ring(slots, 0, 0, 0, 0, 0, false, first, false), capacity, first);
  }

  // ---------------------------------------------------------------- the pipeline

  /** `s'` is `s` after the uninterrupted steps of one publication. */
  ghost predicate IsPublication(s: System, next: CommandEnvelope, live: bool, s': System) {
    && s.ring.slots != [] && Schedule(s, PublishSteps(next, live, s.ring.tail))
    && s' == Execute(s, PublishSteps(next, live, s.ring.tail))
    && s'.h == s.h.(published := s.h.published + [next])
  }

  ghost function Publication(s: System, next: CommandEnvelope, live: bool): (s': System)
    requires s.ring.slots != [] && Inv(s) && Quiet(s) && HasRoom(s, next, live)
    ensures IsPublication(s, next, live, s') && s'.ring.slots != [] && Inv(s') && Quiet(s')
    ensures s'.ring
      == Advanced(Put(s.ring, s.ring.head, Slot(next, UNCHECKED, UNCHECKED)).(head := s.ring.head + 1), live,
          next.sequence)
  {
    PublishRuns(s, next, live);
    Execute(s, PublishSteps(next, live, s.ring.tail))
  }

  class CommandPipeline {
    var isOpen: bool
    var slots: array<Slot>
    var tail: nat
    var reserveChecked: nat
    var riskChecked: nat
    var durable: nat
    var head: nat
    var persistenceFailed: bool
    var nextLive: nat
    var sequenceExhausted: bool
    ghost var sys: System

    ghost function RingNow(): Ring
      reads this, slots
    {
      Ring(slots[..], tail, reserveChecked, riskChecked, durable, head, persistenceFailed, nextLive, sequenceExhausted)
    }

    /** The fields are the ring of a system in which no role is in the middle of a call. */
    ghost predicate Valid()
      reads this, slots
    {
      isOpen ==> sys.ring.slots != [] && sys.ring == RingNow() && Quiet(sys) && Inv(sys)
    }

    constructor ()
      ensures Valid() && !isOpen && fresh(slots)
    {
      isOpen := false;
      slots := new Slot[0](_ => EMPTY_SLOT);
      sys := Begin(Ring([], 0, 0, 0, 0, 0, false, 0, false));
    }

    method Open(capacity: nat, firstSequence: nat) returns (status: Status)
      requires Valid()
      modifies this
      ensures Valid()
      ensures status == if old(isOpen) then AlreadyOpen else if capacity == 0 || firstSequence == 0 then InvalidConfig
        else Ok
      ensures status == Ok ==> isOpen && fresh(slots) && JustOpened(sys, capacity, firstSequence)
      ensures status != Ok ==> unchanged(this)
    {
      hide Inv, Quiet, Begin, JustOpened;
      if isOpen {
        status := AlreadyOpen;
      } else if capacity == 0 || firstSequence == 0 {
        status := InvalidConfig;
      } else {
        Reset(capacity, firstSequence);
        status := Ok;
      }
    }

    method Reset(capacity: nat, firstSequence: nat)
      requires capacity > 0 && firstSequence > 0
      modifies this
      ensures Valid() && isOpen && fresh(slots) && JustOpened(sys, capacity, firstSequence)
    {
      hide Inv, Quiet, Begin, JustOpened;
      slots := new Slot[capacity](_ => EMPTY_SLOT);
      tail, reserveChecked, riskChecked, durable, head := 0, 0, 0, 0, 0;
      persistenceFailed := false;
      nextLive := firstSequence;
      sequenceExhausted := false;
      isOpen := true;
      sys := Begin(RingNow());
      BeginQuiet(slots[..], capacity, firstSequence);
    }

    /** Live publication: assigns the next live sequence. */
    method TryPublish(client: nat, command: Command) returns (result: Result)
      requires Valid()
      modifies this, slots
      ensures Valid() && isOpen == old(isOpen) && slots == old(slots)
      ensures result.status == (
                if !old(isOpen) then Closed
                else if old(persistenceFailed) then PersistenceFailed
                else if old(sequenceExhausted) then SequenceExhausted
                else if old(head - tail == slots.Length) then Full
                else Ok)
      ensures result
        == (if result.status == Ok then Result(Ok, old(nextLive), old(head) + 1) else Failure(result.status))
      ensures if result.status == Ok
        then IsPublication(old(sys), CommandEnvelope(old(nextLive), client, command), true, sys) else sys == old(sys)
    {
      hide IsPublication, Inv, SetSlot;
      if !isOpen {
        result := Failure(Closed);
      } else if persistenceFailed {
        result := Failure(PersistenceFailed);
      } else if sequenceExhausted {
        result := Failure(SequenceExhausted);
      } else {
        var sequence := nextLive;
        result := TryPublishEnvelope(CommandEnvelope(sequence, client, command), true);
        if result.status == Ok {
          if sequence == MAX_SEQUENCE {
            sequenceExhausted := true;
          } else {
            nextLive := sequence + 1;
          }
        }
      }
    }

    /** Replay: the command keeps its own sequence, and the live cursor stays. */
    method TryReplay(command: CommandEnvelope) returns (result: Result)
      requires Valid()
      modifies this, slots
      ensures Valid() && isOpen == old(isOpen) && slots == old(slots)
      ensures result.status == (
                if !old(isOpen) then Closed
                else if old(persistenceFailed) then PersistenceFailed
                else if command.sequence == 0 then InvalidSequence
                else if old(head - tail == slots.Length) then Full
                else Ok)
      ensures result
        == (if result.status == Ok then Result(Ok, command.sequence, old(head) + 1) else Failure(result.status))
      ensures if result.status == Ok then IsPublication(old(sys), command, false, sys) else sys == old(sys)
      ensures nextLive == old(nextLive) && sequenceExhausted == old(sequenceExhausted)
    {
      hide IsPublication, Inv, SetSlot;
      if !isOpen {
        result := Failure(Closed);
      } else if persistenceFailed {
        result := Failure(PersistenceFailed);
      } else if command.sequence == 0 {
        result := Failure(InvalidSequence);
      } else {
        result := TryPublishEnvelope(command, false);
      }
    }

    /** Sets the cursor of live publication; ring positions are not affected. */
    method RestoreLiveSequence(nextSequence: nat) returns (status: Status)
      requires Valid()
      modifies this
      ensures Valid() && isOpen == old(isOpen) && slots == old(slots)
      ensures status == if !old(isOpen) then Closed else if nextSequence == 0 then InvalidSequence else Ok
      ensures status == Ok ==>
        nextLive == nextSequence && !sequenceExhausted
          && RingNow() == old(RingNow()).(nextLive := nextSequence, exhausted := false)
      ensures sys.h == old(sys).h && (status != Ok ==> unchanged(this))
    {
      hide Inv, Stored, SetSlot;
      if !isOpen {
        status := Closed;
      } else if nextSequence == 0 {
        status := InvalidSequence;
      } else {
        StepKeeps(sys, RestoreCursor(nextSequence));
        sys := Do(sys, RestoreCursor(nextSequence));
        nextLive := nextSequence;
        sequenceExhausted := false;
        status := Ok;
      }
    }

    /** The invariant between the writes of a live publication and the move of its cursor. */
    ghost predicate PendingCursor(live: bool, given: nat)
      reads this, slots
    {
      isOpen && sys.ring.slots != [] && Inv(sys) && Quiet(sys) && sys.ring == Advanced(RingNow(), live, given)
    }

    /** Writes the slot at the head and publishes it. */
    method TryPublishEnvelope(command: CommandEnvelope, ghost live: bool) returns (result: Result)
      requires Valid() && isOpen && !persistenceFailed
      requires if live then !sequenceExhausted && command.sequence == nextLive else command.sequence != 0
      modifies this, slots
      ensures isOpen && slots == old(slots) && nextLive == old(nextLive) && sequenceExhausted == old(sequenceExhausted)
      ensures result.status == if old(head - tail == slots.Length) then Full else Ok
      ensures result == if result.status == Ok then Result(Ok, command.sequence, old(head) + 1) else Failure(Full)
      ensures result.status == Ok ==>
        IsPublication(old(sys), command, live, sys) && PendingCursor(live, command.sequence)
      ensures result.status != Ok ==> Valid() && sys == old(sys)
    {
      hide Inv;
      Frontiers(sys);
      if head - tail == slots.Length {
        result := Failure(Full);
      } else {
        ghost var before := sys;
        var i := head % slots.Length;
        slots[i] := slots[i].(command := command);
        slots[i] := slots[i].(risk := UNCHECKED);
        slots[i] := slots[i].(reserve := UNCHECKED);
        head := head + 1;
        sys := Publication(before, command, live);
        result := Result(Ok, command.sequence, head);
      }
    }

    /** A command of the pending batch, `offset` behind the durable frontier. */
    method CopyPendingForPersistence(offset: nat) returns (result: Result, command: CommandEnvelope)
      requires Valid()
      ensures result.status == (
                if !isOpen then Closed
                else if persistenceFailed then PersistenceFailed
                else if durable + offset >= head then Empty
                else Ok)
      ensures result.status == Ok ==>
        durable + offset < |sys.h.published| && command == sys.h.published[durable + offset]
        && result == Result(Ok, command.sequence, durable + offset)
    {
      hide Inv, Quiet;
      command := EMPTY_SLOT.command;
      if !isOpen {
        result := Failure(Closed);
      } else if persistenceFailed {
        result := Failure(PersistenceFailed);
      } else if durable + offset >= head {
        result := Failure(Empty);
      } else {
        Frontiers(sys);
        SlotHolds(sys, durable + offset);
        command := slots[(durable + offset) % slots.Length].command;
        result := Result(Ok, command.sequence, durable + offset);
      }
    }

    /** Moves the durable frontier over the next `count` commands. */
    method PublishDurable(count: nat) returns (result: Result)
      requires Valid()
      modifies this
      ensures Valid() && isOpen == old(isOpen) && slots == old(slots)
      ensures result.status == (
                if !old(isOpen) then Closed
                else if old(persistenceFailed) then PersistenceFailed
                else if count == 0 || count > old(head - durable) then InvalidCount
                else Ok)
      ensures if result.status == Ok then IsDurable(old(sys), count, sys) && durable == old(durable) + count
        else sys == old(sys) && unchanged(this)
      ensures result.status == Ok ==>
        0 < durable <= |sys.h.published| && result == Result(Ok, sys.h.published[durable - 1].sequence, durable)
    {
      hide Inv, IsDurable;
      if !isOpen {
        result := Failure(Closed);
      } else if persistenceFailed {
        result := Failure(PersistenceFailed);
      } else if count == 0 || count > head - durable {
        result := Failure(InvalidCount);
      } else {
        Frontiers(sys);
        SlotHolds(sys, durable + count - 1);
        var next := durable + count;
        var sequence := slots[(next - 1) % slots.Length].command.sequence;
        durable := next;
        sys := DurableCall(sys, count);
        result := Result(Ok, sequence, next);
      }
    }

    method FailPersistence()
      requires Valid()
      modifies this
      ensures Valid() && isOpen == old(isOpen) && slots == old(slots)
      ensures if isOpen then persistenceFailed && RingNow() == old(RingNow()).(failed := true) && sys.h == old(sys).h
        else unchanged(this)
    {
      hide Inv;
      if isOpen {
        StepKeeps(sys, CommandRing.FailPersistence);
        sys := sys.(ring := sys.ring.(failed := true));
        persistenceFailed := true;
      }
    }

    method TryReadForRisk() returns (result: Result, command: CommandEnvelope)
      requires Valid()
      ensures result.status == if !isOpen then Closed else if riskChecked == durable then Empty else Ok
      ensures result.status == Ok ==>
        riskChecked < |sys.h.published| && command == sys.h.published[riskChecked]
          && result == Result(Ok, command.sequence, riskChecked)
    {
      hide Inv, Quiet;
      command := EMPTY_SLOT.command;
      if !isOpen {
        result := Failure(Closed);
      } else if riskChecked == durable {
        result := Failure(Empty);
      } else {
        Frontiers(sys);
        SlotHolds(sys, riskChecked);
        command := slots[riskChecked % slots.Length].command;
        result := Result(Ok, command.sequence, riskChecked);
      }
    }

    /** Records the decision. The returned sequence is read from the slot after the frontier is
        stored; it is the command's own because nothing interrupts the call here. */
    method PublishRisk(check: Check) returns (result: Result)
      requires Valid()
      modifies this, slots
      ensures Valid() && isOpen == old(isOpen) && slots == old(slots)
      ensures result.status == (
                if !old(isOpen) then Closed
                else if check.decision == Pending then InvalidDecision
                else if old(riskChecked == durable) then Empty
                else Ok)
      ensures if result.status == Ok then IsRisk(old(sys), check, sys) && riskChecked == old(riskChecked) + 1
        else sys == old(sys)
      ensures result.status == Ok ==>
        0 < riskChecked <= |sys.h.published|
          && result == Result(Ok, sys.h.published[riskChecked - 1].sequence, riskChecked)
          && sys.h.riskReturned == old(sys).h.riskReturned + [result.sequence]
    {
      hide Inv, IsRisk;
      if !isOpen {
        result := Failure(Closed);
      } else if check.decision == Pending {
        result := Failure(InvalidDecision);
      } else if riskChecked == durable {
        result := Failure(Empty);
      } else {
        Frontiers(sys);
        SlotHolds(sys, riskChecked);
        ghost var before := sys;
        var i := riskChecked % slots.Length;
        slots[i] := slots[i].(risk := check);
        riskChecked := riskChecked + 1;
        sys := RiskCall(before, check);
        result := Result(Ok, slots[i].command.sequence, riskChecked);
      }
    }

    method TryReadForReserve() returns (result: Result, command: CommandEnvelope, risk: Check)
      requires Valid()
      ensures result.status == if !isOpen then Closed else if reserveChecked == riskChecked then Empty else Ok
      ensures result.status == Ok ==>
        && reserveChecked < |sys.h.published| && command == sys.h.published[reserveChecked]
        && reserveChecked < |sys.h.risks| && risk == sys.h.risks[reserveChecked]
        && result == Result(Ok, command.sequence, reserveChecked)
    {
      hide Inv, Quiet;
      command, risk := EMPTY_SLOT.command, UNCHECKED;
      if !isOpen {
        result := Failure(Closed);
      } else if reserveChecked == riskChecked {
        result := Failure(Empty);
      } else {
        Frontiers(sys);
        SlotHolds(sys, reserveChecked);
        var slot := slots[reserveChecked % slots.Length];
        command, risk := slot.command, slot.risk;
        result := Result(Ok, command.sequence, reserveChecked);
      }
    }

    /** Records the decision; for the returned sequence the same holds as for risk. */
    method PublishReserve(check: Check) returns (result: Result)
      requires Valid()
      modifies this, slots
      ensures Valid() && isOpen == old(isOpen) && slots == old(slots)
      ensures result.status == (
                if !old(isOpen) then Closed
                else if check.decision == Pending then InvalidDecision
                else if old(reserveChecked == riskChecked) then Empty
                else Ok)
      ensures if result.status == Ok then IsReserve(old(sys), check, sys) && reserveChecked == old(reserveChecked) + 1
        else sys == old(sys)
      ensures result.status == Ok ==>
        0 < reserveChecked <= |sys.h.published|
          && result == Result(Ok, sys.h.published[reserveChecked - 1].sequence, reserveChecked)
          && sys.h.reserveReturned == old(sys).h.reserveReturned + [result.sequence]
    {
      hide Inv, IsReserve;
      if !isOpen {
        result := Failure(Closed);
      } else if check.decision == Pending {
        result := Failure(InvalidDecision);
      } else if reserveChecked == riskChecked {
        result := Failure(Empty);
      } else {
        Frontiers(sys);
        SlotHolds(sys, reserveChecked);
        ghost var before := sys;
        var i := reserveChecked % slots.Length;
        slots[i] := slots[i].(reserve := check);
        reserveChecked := reserveChecked + 1;
        sys := ReserveCall(before, check);
        result := Result(Ok, slots[i].command.sequence, reserveChecked);
      }
    }

    /** Hands the oldest fully checked command to the matcher, with its own two results. */
    method TryConsume() returns (result: Result, slot: Slot)
      requires Valid()
      modifies this
      ensures Valid() && isOpen == old(isOpen) && slots == old(slots)
      ensures result.status == if !old(isOpen) then Closed else if old(tail == reserveChecked) then Empty else Ok
      ensures if result.status == Ok then IsConsumption(old(sys), slot, sys) && tail == old(tail) + 1
        else sys == old(sys) && unchanged(this)
      ensures result.status == Ok ==> result == Result(Ok, slot.command.sequence, tail)
    {
      hide Inv, IsConsumption;
      slot := EMPTY_SLOT;
      if !isOpen {
        result := Failure(Closed);
      } else if tail == reserveChecked {
        result := Failure(Empty);
      } else {
        Frontiers(sys);
        slot := slots[tail % slots.Length];
        tail := tail + 1;
        sys := ConsumeCall(sys);
        result := Result(Ok, slot.command.sequence, tail);
      }
    }
  }
}
