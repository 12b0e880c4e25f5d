/** A run in which a stage returns the sequence of another command. */
module LateReads {
  import opened MatcherTypes
  import opened CommandRing
  import opened CommandPipelines
  import opened Sequences

  function RiskUntilStored(check: Check): seq<Step> {
    [SeeDurable(1), WriteRisk(check), StoreRisk]
  }

  function WriteNext(b: CommandEnvelope): seq<Step> {
    [Admit(b, true), FindRoom(1), WriteCommand]
  }

  /** With one slot, from the opening of the pipeline on: `a` is published, made durable, and risk
      stores its frontier; before risk reads the slot again, reserve and the matcher are done with
      it, and the producer writes `b` there. */
  function TakeOverSteps(a: CommandEnvelope, b: CommandEnvelope, check: Check): seq<Step> {
    PublishSteps(a, true, 0) + DurableSteps(1, 1) + RiskUntilStored(check) + ReserveSteps(1, check) + ConsumeSteps(1)
    + WriteNext(b)
  }

  /** The only slot holds the command `a`, which the roles have brought as far as their frontiers say. */
  predicate At(s: System, a: CommandEnvelope, tail: nat, reserve: nat, risk: nat) {
    && |s.ring.slots| == 1 && s.ring.slots[0].command == a && s.h.published == [a] && a.sequence < MAX_SEQUENCE
    && s.ring == Ring(s.ring.slots, tail, reserve, risk, 1, 1, false, a.sequence + 1, false)
    && s.producer.Idle? && s.consumer.Listening?
  }

  /** `a` is published and durable. */
  lemma Durably(r: Ring, first: nat, a: CommandEnvelope)
    requires Opened(r, 1, first) && a.sequence == first < MAX_SEQUENCE
    ensures Schedule(Begin(r), PublishSteps(a, true, 0) + DurableSteps(1, 1))
    ensures var s := Execute(Begin(r), PublishSteps(a, true, 0) + DurableSteps(1, 1));
            At(s, a, 0, 0, 0) && Inv(s) && Quiet(s)
  {
    var s := Begin(r);
    BeginInv(r, 1, first);
    assert HasRoom(s, a, true) && Quiet(s);
    hide Inv, Schedule, Execute, Do, Enabled, HasRoom;
    PublishRuns(s, a, true);
    var s1 := Execute(s, PublishSteps(a, true, 0));
    DurableRuns(s1, 1);
    Then(s, PublishSteps(a, true, 0), DurableSteps(1, 1));
  }

  /** Risk stores its frontier, and still has to read the slot. */
  lemma RiskStores(s: System, a: CommandEnvelope, check: Check)
    requires At(s, a, 0, 0, 0) && Inv(s) && Quiet(s) && check.decision != Pending
    ensures Schedule(s, RiskUntilStored(check))
    ensures var s' := Execute(s, RiskUntilStored(check));
            At(s', a, 0, 0, 1) && s'.riskStage == Returning(0) && s'.reserveStage.Waiting? && Inv(s')
  {
    Frontiers(s);
    hide Inv, Schedule, Execute, Do, Enabled;
    SeesUpstream(s);
    WriteRiskIs(s, check);
    var s2 := Do(Do(s, SeeDurable(1)), WriteRisk(check));
    RiskStoreIs(s2, check);
    Chain3(s, SeeDurable(1), WriteRisk(check), StoreRisk);
    InvAfter(s, RiskUntilStored(check));
  }

  lemma RiskStoreIs(s: System, check: Check)
    requires s.ring.slots != [] && s.riskStage == Written(check)
    ensures Enabled(s, StoreRisk)
    ensures Do(s, StoreRisk) == s.(ring := s.ring.(risk := s.ring.risk + 1), riskStage := Returning(s.ring.risk),
                                   h := s.h.(risks := s.h.risks + [check]))
  {
  }

  /** Reserve checks the command meanwhile, and the matcher takes it. */
  lemma ReserveChecks(s: System, a: CommandEnvelope, check: Check)
    requires At(s, a, 0, 0, 1) && s.riskStage == Returning(0) && s.reserveStage.Waiting? && Inv(s)
    requires check.decision != Pending
    ensures Schedule(s, ReserveSteps(1, check))
    ensures var s' := Execute(s, ReserveSteps(1, check)); At(s', a, 0, 1, 1) && s'.riskStage == Returning(0) && Inv(s')
  {
    Frontiers(s);
    assert Enabled(s, SeeRisk(1));
    hide Inv, Schedule, Execute, Do, Enabled;
    WriteReserveIs(s, check);
    var s2 := Do(Do(s, SeeRisk(1)), WriteReserve(check));
    StoreReserveIs(s2, check);
    Chain4(s, SeeRisk(1), WriteReserve(check), StoreReserve, ReturnReserve);
    InvAfter(s, ReserveSteps(1, check));
  }

  lemma MatcherTakes(s: System, a: CommandEnvelope)
    requires At(s, a, 0, 1, 1) && s.riskStage == Returning(0) && Inv(s)
    ensures Schedule(s, ConsumeSteps(1))
    ensures var s' := Execute(s, ConsumeSteps(1)); At(s', a, 1, 1, 1) && s'.riskStage == Returning(0) && Inv(s')
  {
    Frontiers(s);
    assert Enabled(s, SeeReserve(1));
    hide Inv, Schedule, Execute, Do, Enabled;
    ConsumeState(s);
    InvAfter(s, ConsumeSteps(1));
  }

  /** The producer writes the next command into the only slot. */
  lemma ProducerTakesOver(s: System, a: CommandEnvelope, b: CommandEnvelope)
    requires At(s, a, 1, 1, 1) && s.riskStage == Returning(0) && Inv(s) && b.sequence == a.sequence + 1
    ensures Schedule(s, WriteNext(b))
    ensures var s' := Execute(s, WriteNext(b));
            && Inv(s') && s'.riskStage == Returning(0) && |s'.ring.slots| == 1 && s'.ring.slots[0].command == b
            && s'.h.published == [a] && s'.ring.head == 1 && s'.producer.CommandWritten?
  {
    Frontiers(s);
    var s1 := Do(s, Admit(b, true));
    var s2 := Do(s1, FindRoom(1));
    assert s2 == s.(producer := Room(b, true), seen := s.seen.(tail := 1));
    assert Enabled(s, Admit(b, true)) && Enabled(s1, FindRoom(1)) && Enabled(s2, WriteCommand);
    CommandGoesIn(s2, b);
    hide Inv, Schedule, Execute, Do, Enabled;
    Chain3(s, Admit(b, true), FindRoom(1), WriteCommand);
    InvAfter(s, WriteNext(b));
  }

  lemma CommandGoesIn(s: System, b: CommandEnvelope)
    requires |s.ring.slots| == 1 && s.producer == Room(b, true)
    ensures var s' := Do(s, WriteCommand);
            && |s'.ring.slots| == 1 && s'.ring.slots[0].command == b && s'.producer.CommandWritten?
            && s'.ring.head == s.ring.head && s'.h == s.h && s'.riskStage == s.riskStage
  {
  }

  /** What risk then finds and returns. */
  lemma RiskReturns(s: System, a: CommandEnvelope, b: CommandEnvelope)
    requires s.riskStage == Returning(0) && |s.ring.slots| == 1 && s.ring.slots[0].command == b
    requires s.ring.head == 1 && s.producer.CommandWritten?
    ensures ReadsLate(s, 0) && !Intact(s.ring, s.producer, 0) && SlotAt(s.ring.slots, 0).command == b
    ensures Enabled(s, ReturnRisk) && Do(s, ReturnRisk).h.riskReturned == s.h.riskReturned + [b.sequence]
  {
  }

  /** The schedule is one of the pipeline's, for any two live commands and any decision. At its end
      risk's read for `a` is still to come, and it finds `b`: the call returns a sequence that is
      not that of its own command. */
  lemma TakenOverBeforeRead(r: Ring, first: nat, a: CommandEnvelope, b: CommandEnvelope, check: Check)
    requires Opened(r, 1, first) && a.sequence == first < MAX_SEQUENCE && b.sequence == first + 1
    requires check.decision != Pending
    ensures Schedule(Begin(r), TakeOverSteps(a, b, check))
    ensures var s := Execute(Begin(r), TakeOverSteps(a, b, check));
            && Inv(s) && ReadsLate(s, 0) && s.h.published == [a] && !Intact(s.ring, s.producer, 0)
            && SlotAt(s.ring.slots, 0).command == b
            && Enabled(s, ReturnRisk) && Do(s, ReturnRisk).h.riskReturned == s.h.riskReturned + [first + 1]
  {
    hide Inv, Schedule, Execute, Do, Enabled, At, Quiet, SlotAt, Intact, ReadsLate;
    hide RiskUntilStored, ReserveSteps, ConsumeSteps, WriteNext, PublishSteps, DurableSteps;
    var s0 := Begin(r);
    var p1, p2, p3 := PublishSteps(a, true, 0) + DurableSteps(1, 1), RiskUntilStored(check), ReserveSteps(1, check);
    var p4, p5 := ConsumeSteps(1), WriteNext(b);
    OneSlot(r, 1, first);
    Durably(r, first, a);
    var s1 := Execute(s0, p1);
    RiskStores(s1, a, check);
    Then(s0, p1, p2);
    var s2 := Execute(s1, p2);
    ReserveChecks(s2, a, check);
    Then(s0, p1 + p2, p3);
    var s3 := Execute(s2, p3);
    MatcherTakes(s3, a);
    Then(s0, p1 + p2 + p3, p4);
    var s4 := Execute(s3, p4);
    ProducerTakesOver(s4, a, b);
    Then(s0, p1 + p2 + p3 + p4, p5);
    RiskReturns(Execute(s4, p5), a, b);
  }

  lemma OneSlot(r: Ring, capacity: nat, first: nat)
    requires Opened(r, capacity, first)
    ensures Begin(r).ring.slots != []
  {
  }
}
