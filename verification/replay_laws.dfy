/** Exact replay, and the replay episode as seen by the matcher and by persistence. */
module ReplayLaws {
  import opened BookTypes
  import opened MatcherTypes
  import R = ReferenceBooks
  import Q = BookQueues
  import BookSnapshots
  import opened Matching
  import opened MatcherSpec
  import opened MatcherLaws
  import opened ReplayPersistence
  import opened Sequences

  // ---------------------------------------------------------------- exact replay

  /** All that decides what a command other than a load says. */
  predicate SameCore(s: State, t: State) {
    s.config == t.config && s.book == t.book && s.lastOrderId == t.lastOrderId && s.nextEvent == t.nextEvent
      && s.reason == t.reason
  }

  lemma SameCoreStep(s: State, t: State, c: CommandEnvelope, reply: StoreReply)
    requires SameCore(s, t) && !c.command.LoadSnapshot?
    ensures Published(s, c, reply) == Published(t, c, reply)
    ensures SameCore(Step(s, c, reply), Step(t, c, reply))
  {
    hide AfterOrder, FillEvents, OrderFills, Ending, EndingReason, Envelopes;
    if c.command.NewLimit? {
      SameCoreLimit(s, t, c.command.order);
    }
  }

  lemma SameCoreLimit(s: State, t: State, o: OrderView)
    requires SameCore(s, t)
    ensures LimitEffects(s, o) == LimitEffects(t, o)
  {
    hide AfterOrder, FillEvents, OrderFills, Ending, EndingReason;
  }

  lemma {:induction false} SameCoreRun(s: State, t: State, inputs: seq<Input>)
    requires SameCore(s, t) && NoLoads(inputs)
    ensures Log(s, inputs) == Log(t, inputs) && SameCore(Run(s, inputs), Run(t, inputs))
    decreases |inputs|
  {
    hide Step, Published, SameCore;
    if inputs != [] {
      SameCoreStep(s, t, inputs[0].command, inputs[0].reply);
      SameCoreRun(Step(s, inputs[0].command, inputs[0].reply), Step(t, inputs[0].command, inputs[0].reply),
          inputs[1..]);
    }
  }

  function StepInput(s: State, input: Input): State {
    Step(s, input.command, input.reply)
  }

  predicate Saves(s: State, save: Input) {
    s.reason == NoFatal && save.command.command.SaveSnapshot? && save.reply.captured == SnapshotOk
  }

  /** A load whose image is the one `save` captured in `s`. */
  predicate LoadsSave(s: State, save: Input, load: Input) {
    && load.command.command.LoadSnapshot? && load.reply.loaded == SnapshotOk
    && load.command.command.saveSequence == save.command.sequence
    && load.reply.image == SavedImage(s, save.command.sequence, load.command.command.epoch)
  }

  /** The state after loading, whatever the book held before. */
  lemma AfterLoad(s: State, save: Input, t: State, load: Input)
    requires R.WF(s.book) && s.book.config == s.config && Saves(s, save)
    requires t.reason == NoFatal && t.config == s.config && t.book.config == s.config && LoadsSave(s, save, load)
    ensures var t' := StepInput(t, load);
            && t'.book == s.book && t'.lastOrderId == s.lastOrderId && t'.reason == NoFatal && t'.config == s.config
            && t'.nextEvent
              == (if t.mode == Replay then s.nextEvent + 1
                  else if t.mode == Restoring && t.liveResume != 0 then t.liveResume else t.nextEvent + 1)
            && t'.mode == (if t.mode == Restoring then Live else t.mode) && t'.liveResume == t.liveResume
  {
    hide Q.Snapshot, Q.Restore, R.WF;
    BookSnapshots.RestoreSnapshot(s.book, t.book);
  }

  /** Exact replay: whatever happened between, starting a replay from live mode and loading the
      image of `save` makes the commands that followed the save publish the very same event
      envelopes again. */
  lemma ExactReplay(s: State, save: Input, t: State, start: Input, load: Input, inputs: seq<Input>)
    requires R.WF(s.book) && s.book.config == s.config && Saves(s, save)
    requires t.reason == NoFatal && t.mode == Live && t.config == s.config && t.book.config == s.config
    requires start.command.command.StartReplay? && LoadsSave(s, save, load) && NoLoads(inputs)
    ensures Log(Run(t, [start, load]), inputs) == Log(Run(s, [save]), inputs)
    ensures SameCore(Run(Run(t, [start, load]), inputs), Run(Run(s, [save]), inputs))
  {
    hide R.WF, Run, Log, Q.Snapshot;
    var t1 := StepInput(t, start);
    AfterLoad(s, save, t1, load);
    RunOne(s, save);
    RunTwo(t, start, load);
    SameCoreRun(Run(t, [start, load]), Run(s, [save]), inputs);
  }

  lemma RunOne(s: State, a: Input)
    ensures Run(s, [a]) == StepInput(s, a)
  {
    assert Run(StepInput(s, a), []) == StepInput(s, a);
  }

  lemma RunTwo(s: State, a: Input, b: Input)
    ensures Run(s, [a, b]) == StepInput(StepInput(s, a), b)
  {
    hide Step;
    assert [a, b][1..] == [b];
    RunOne(StepInput(s, a), b);
  }

  lemma {:induction false} RunConcat(s: State, a: seq<Input>, b: seq<Input>)
    ensures Run(s, a + b) == Run(Run(s, a), b) && Log(s, a + b) == Log(s, a) + Log(Run(s, a), b)
    decreases |a|
  {
    hide Step, Published;
    if a == [] {
      assert a + b == b;
    } else {
      RunConcat(StepInput(s, a[0]), a[1..], b);
      assert (a + b)[1..] == a[1..] + b;
    }
  }

  /** The same for one whole run from an empty matcher: `before`, the save, `inputs`, `later`,
      then the replay of `inputs`. */
  lemma ExactReplayOfRun(config: Config, firstEvent: nat, before: seq<Input>, save: Input, inputs: seq<Input>,
                         later: seq<Input>, start: Input, load: Input)
    requires Honest(Start(config, firstEvent), {}, before + [save] + inputs + later) && NoLoads(inputs)
    requires var s := Run(Start(config, firstEvent), before);
             var t := Run(Start(config, firstEvent), before + [save] + inputs + later);
             && Saves(s, save) && LoadsSave(s, save, load) && start.command.command.StartReplay?
             && t.reason == NoFatal && t.mode == Live
    ensures var s := Run(Start(config, firstEvent), before);
            var t := Run(Start(config, firstEvent), before + [save] + inputs + later);
            Log(Run(t, [start, load]), inputs) == Log(Run(s, [save]), inputs)
  {
    hide Run, Log, Honest, R.WF, Uncrossed, Q.Snapshot;
    var s0 := Start(config, firstEvent);
    StartIsSound(config, firstEvent);
    RunKeepsSound(s0, {}, before + [save] + inputs + later);
    assert before + [save] + inputs + later == before + ([save] + inputs + later);
    HonestPrefix(s0, {}, before, [save] + inputs + later);
    RunKeepsSound(s0, {}, before);
    RunConfig(s0, before);
    RunConfig(s0, before + [save] + inputs + later);
    ExactReplay(Run(s0, before), save, Run(s0, before + [save] + inputs + later), start, load, inputs);
  }

  lemma {:induction false} HonestPrefix(s: State, saved: set<Image>, a: seq<Input>, b: seq<Input>)
    requires Honest(s, saved, a + b)
    ensures Honest(s, saved, a)
    decreases |a|
  {
    hide Step, SavedAfter, HonestReply;
    if a != [] {
      assert (a + b)[1..] == a[1..] + b;
      HonestPrefix(StepInput(s, a[0]), SavedAfter(s, saved, a[0]), a[1..], b);
    }
  }

  lemma {:induction false} RunConfig(s: State, inputs: seq<Input>)
    ensures Run(s, inputs).config == s.config
    decreases |inputs|
  {
    hide CommandEffects;
    if inputs != [] {
      RunConfig(StepInput(s, inputs[0]), inputs[1..]);
    }
  }

  // ---------------------------------------------------------------- the two modes together

  /** The matcher and persistence side by side, and the live command cursor. `open` says whether
      the pipeline is open. */
  datatype Tract = Tract(matcher: State, policy: Policy, cursor: nat)

  function TractStep(x: Tract, input: Input, open: bool): Tract {
    var (status, policy) := OnDurable(x.policy, input.command, open && x.policy.liveResume != 0);
    Tract(StepInput(x.matcher, input), policy,
          if Restores(x.policy, input.command) && status == ReplayOk then x.policy.liveResume else x.cursor)
  }

  /** What the matcher checks of a load: the store's answer, that the image is the one asked for,
      and that its orders can be restored. */
  ghost predicate LoadAccepted(s: State, saveSequence: nat, epoch: nat, reply: StoreReply) {
    && reply.loaded == SnapshotOk && ImageFits(s, saveSequence, epoch, reply.image)
    && Q.Loadable(s.book.config, reply.image.orders)
  }

  /** What the durable policy answers: another command than the load while restoring, and a start whose
      successor does not exist, are invalid; a restoring load fails only with the pipeline. Refusals
      change nothing. */
  lemma PolicyAnswers(p: Policy, c: CommandEnvelope, restored: bool)
    ensures var (status, p') := OnDurable(p, c, restored);
      && (status == InvalidTransition <==>
            || (p.mode == Restoring && !c.command.LoadSnapshot?)
            || (p.mode == Live && c.command.StartReplay? && c.sequence == MAX_SEQUENCE))
      && (status == PipelineFailed <==> p.mode == Restoring && c.command.LoadSnapshot? && !restored)
      && (status == ReplayOk || status == InvalidTransition || status == PipelineFailed)
      && (status != ReplayOk ==> p' == p)
      && (status == ReplayOk && p.mode == Live ==>
            p' == if c.command.StartReplay? then Policy(Replay, c.sequence + 1) else p)
      && (status == ReplayOk && p.mode == Replay ==>
            p' == if c.command.StopReplay? then Policy(Restoring, p.liveResume) else p)
      && (status == ReplayOk && p.mode == Restoring ==> p' == Policy(Live, p.liveResume))
  {
  }

  /** Exactly when the two modes part: a start whose successor sequence does not exist, or a
      restoring load that only one of the two accepts. */
  ghost predicate Parts(x: Tract, input: Input, open: bool) {
    var c := input.command;
    || (x.matcher.mode == Live && c.command.StartReplay? && c.sequence == MAX_SEQUENCE)
    || (x.matcher.mode == Restoring && c.command.LoadSnapshot?
        && LoadAccepted(x.matcher, c.command.saveSequence, c.command.epoch, input.reply)
           != (open && x.policy.liveResume != 0))
  }

  /** Modes that agree still agree after a command if and only if it is not one of those. */
  lemma ModesStayTogether(x: Tract, input: Input, open: bool)
    requires x.matcher.reason == NoFatal && x.matcher.mode == x.policy.mode
    ensures TractStep(x, input, open).matcher.mode == TractStep(x, input, open).policy.mode <==> !Parts(x, input, open)
  {
    hide Q.Restore, Q.Loadable, LimitEffects, R.WF;
    LimitKeepsMode(x.matcher, input);
    Q.RestoresExactly(x.matcher.book, input.reply.image.orders);
  }

  /** The input for which the first happens: from a new matcher and live persistence, a start with
      the largest sequence puts the matcher into replay and persistence refuses it. */
  lemma LargestStartParts(config: Config, firstEvent: nat, client: nat, reply: StoreReply)
    ensures var x := Tract(Start(config, firstEvent), Policy(Live, 0), 1);
            var x' := TractStep(x, Input(CommandEnvelope(MAX_SEQUENCE, client, StartReplay), reply), true);
            x'.matcher.mode == Replay && x'.policy.mode == Live
  {
  }

  lemma LimitKeepsMode(s: State, input: Input)
    ensures input.command.command.NewLimit? ==>
      var e := LimitEffects(s, input.command.command.order); !e.startReplay && e.nextMode == None && e.resumeAt == 0
  {
  }

  function TractRun(x: Tract, inputs: seq<Input>): Tract
    decreases |inputs|
  {
    if inputs == [] then x else TractRun(TractStep(x, inputs[0], true), inputs[1..])
  }

  // ---------------------------------------------------------------- a replay episode

  predicate NoStops(inputs: seq<Input>) {
    forall i :: 0 <= i < |inputs| ==> !inputs[i].command.command.StopReplay?
  }

  /** While replaying, whatever is replayed short of a stop, both modes stay in replay and both
      resume points and the live cursor stay as they were. */
  lemma {:induction false} ReplayKeepsResumePoints(x: Tract, inputs: seq<Input>)
    requires x.matcher.mode == x.policy.mode == Replay && NoStops(inputs)
    ensures var x' := TractRun(x, inputs);
            && x'.matcher.mode == x'.policy.mode == Replay && x'.matcher.liveResume == x.matcher.liveResume
            && x'.policy == x.policy && x'.cursor == x.cursor
            && x'.matcher == Run(x.matcher, inputs)
    decreases |inputs|
  {
    hide CommandEffects, Step;
    if inputs != [] {
      ReplayStepKeeps(x.matcher, inputs[0]);
      assert !inputs[0].command.command.StopReplay?;
      ReplayKeepsResumePoints(TractStep(x, inputs[0], true), inputs[1..]);
    }
  }

  lemma ReplayStepKeeps(s: State, input: Input)
    requires s.mode == Replay && !input.command.command.StopReplay?
    ensures StepInput(s, input).mode == Replay && StepInput(s, input).liveResume == s.liveResume
  {
    hide LimitEffects, Q.Restore;
    LimitKeepsMode(s, input);
  }

  /** A whole episode is transparent: a save, a start, any replayed commands, a stop and the
      load of the save. If the replayed commands did not kill the matcher, then its book, last
      id and event cursor are those right after the start, both modes are live again, and the
      live command cursor is the start's sequence plus one. */
  lemma EpisodeIsTransparent(x: Tract, save: Input, start: Input, inputs: seq<Input>, stop: Input, load: Input)
    requires R.WF(x.matcher.book) && x.matcher.book.config == x.matcher.config
    requires x.matcher.mode == x.policy.mode == Live && Saves(x.matcher, save)
    requires start.command.command.StartReplay? && start.command.sequence < MAX_SEQUENCE
    requires NoStops(inputs) && stop.command.command.StopReplay? && LoadsSave(x.matcher, save, load)
    requires Run(x.matcher, [save, start] + inputs).reason == NoFatal
    ensures var started := Run(x.matcher, [save, start]);
            var x' := TractRun(x, [save, start] + inputs + [stop, load]);
            && x'.matcher.book == started.book && x'.matcher.lastOrderId == started.lastOrderId
            && x'.matcher.nextEvent == started.nextEvent && x'.matcher.reason == NoFatal
            && x'.matcher.mode == x'.policy.mode == Live
            && x'.cursor == start.command.sequence + 1
  {
    hide R.WF, Run, TractRun, Q.Snapshot, Step, TractStep, OnDurable, LoadsSave;
    var s := x.matcher;
    EpisodeStart(x, save, start);
    var x2 := TractRun(x, [save, start]);
    ReplayKeepsResumePoints(x2, inputs);
    RunConcat(s, [save, start], inputs);
    BookConfigKept(s, [save, start] + inputs);
    var x3 := TractRun(x2, inputs);
    EpisodeEnd(s, save, x3, stop, load);
    TractConcat(x, [save, start], inputs);
    TractConcat(x, [save, start] + inputs, [stop, load]);
  }

  /** Throughout such an episode the two modes agree: after every one of its commands. */
  lemma EpisodeKeepsModes(x: Tract, save: Input, start: Input, inputs: seq<Input>, stop: Input, load: Input, k: nat)
    requires R.WF(x.matcher.book) && x.matcher.book.config == x.matcher.config
    requires x.matcher.mode == x.policy.mode == Live && Saves(x.matcher, save)
    requires start.command.command.StartReplay? && start.command.sequence < MAX_SEQUENCE
    requires NoStops(inputs) && stop.command.command.StopReplay? && LoadsSave(x.matcher, save, load)
    requires Run(x.matcher, [save, start] + inputs).reason == NoFatal
    requires k <= |inputs| + 4
    ensures var x' := TractRun(x, ([save, start] + inputs + [stop, load])[..k]);
            x'.matcher.mode == x'.policy.mode
            == (if k < 2 || k == |inputs| + 4 then Live else if k == |inputs| + 3 then Restoring else Replay)
  {
    hide R.WF, Run, TractRun, Q.Snapshot, Step, TractStep, OnDurable, LoadsSave, Saves;
    var all, head := [save, start] + inputs + [stop, load], [save, start];
    if k < 2 {
      EpisodeOpening(x, save, all, k);
    } else {
      EpisodeStart(x, save, start);
      var x2 := TractRun(x, head);
      if k <= |inputs| + 2 {
        var part := inputs[..k - 2];
        assert all[..k] == head + part;
        ReplayKeepsResumePoints(x2, part);
        TractConcat(x, head, part);
      } else if k == |inputs| + 3 {
        assert all[..k] == head + inputs + [stop];
        ReplayKeepsResumePoints(x2, inputs);
        RunConcat(x.matcher, head, inputs);
        TractConcat(x, head, inputs);
        TractConcat(x, head + inputs, [stop]);
        StopRestores(TractRun(x, head + inputs), stop);
      } else {
        assert all[..k] == all;
        EpisodeIsTransparent(x, save, start, inputs, stop, load);
      }
    }
  }

  lemma EpisodeOpening(x: Tract, save: Input, all: seq<Input>, k: nat)
    requires x.matcher.mode == x.policy.mode == Live && Saves(x.matcher, save)
    requires k < 2 && k <= |all| && (k == 1 ==> all[0] == save)
    ensures var x' := TractRun(x, all[..k]); x'.matcher.mode == x'.policy.mode == Live
  {
    hide Q.Snapshot;
    if k == 1 {
      assert all[..1] == [save];
      TractOne(x, save);
    }
  }

  lemma StopRestores(x: Tract, stop: Input)
    requires x.matcher.reason == NoFatal && x.matcher.mode == x.policy.mode == Replay
      && stop.command.command.StopReplay?
    ensures var x' := TractRun(x, [stop]); x'.matcher.mode == x'.policy.mode == Restoring
  {
    TractOne(x, stop);
  }

  lemma TractOne(x: Tract, a: Input)
    ensures TractRun(x, [a]) == TractStep(x, a, true)
  {
    hide TractStep;
    assert [a][1..] == [];
    assert TractRun(TractStep(x, a, true), []) == TractStep(x, a, true);
  }

  lemma EpisodeStart(x: Tract, save: Input, start: Input)
    requires x.matcher.mode == x.policy.mode == Live && Saves(x.matcher, save)
    requires start.command.command.StartReplay? && start.command.sequence < MAX_SEQUENCE
    ensures var s, x2 := x.matcher, TractRun(x, [save, start]);
            && x2.matcher == Run(s, [save, start])
            && x2.matcher == s.(nextEvent := s.nextEvent + 2, liveResume := s.nextEvent + 2, mode := Replay)
            && x2.policy == Policy(Replay, start.command.sequence + 1)
  {
    hide Run, TractRun, Q.Snapshot;
    RunTwo(x.matcher, save, start);
    TractTwo(x, save, start);
  }

  lemma EpisodeEnd(s: State, save: Input, x: Tract, stop: Input, load: Input)
    requires R.WF(s.book) && s.book.config == s.config && Saves(s, save) && LoadsSave(s, save, load)
    requires x.matcher.reason == NoFatal && x.matcher.config == s.config && x.matcher.book.config == s.config
    requires x.matcher.mode == x.policy.mode == Replay && x.matcher.liveResume > 0 && x.policy.liveResume > 0
    requires stop.command.command.StopReplay?
    ensures var x' := TractRun(x, [stop, load]);
            && x'.matcher.book == s.book && x'.matcher.lastOrderId == s.lastOrderId && x'.matcher.reason == NoFatal
            && x'.matcher.nextEvent == x.matcher.liveResume && x'.matcher.mode == x'.policy.mode == Live
            && x'.cursor == x.policy.liveResume
  {
    hide R.WF, TractRun, Q.Snapshot, Q.Restore;
    TractTwo(x, stop, load);
    AfterLoad(s, save, StepInput(x.matcher, stop), load);
  }

  /** The configuration of the book never changes, whatever images are loaded. */
  lemma {:induction false} BookConfigKept(s: State, inputs: seq<Input>)
    requires s.book.config == s.config
    ensures Run(s, inputs).config == s.config && Run(s, inputs).book.config == s.config
    decreases |inputs|
  {
    hide Step;
    if inputs != [] {
      StepKeepsConfig(s, inputs[0]);
      BookConfigKept(StepInput(s, inputs[0]), inputs[1..]);
    }
  }

  lemma StepKeepsConfig(s: State, input: Input)
    requires s.book.config == s.config
    ensures StepInput(s, input).config == s.config && StepInput(s, input).book.config == s.config
  {
    hide Q.RestoreFrom, OrderFills, FillEvents, Ending, EndingReason, ApplyFills;
    match input.command.command
    case NewLimit(o) => FillsKeepConfig(s.book, OrderFills(s.book, o));
    case LoadSnapshot(_, _) => RestoreKeepsConfig(R.Empty(s.book.config), input.reply.image.orders, 0);
    case _ =>
  }

  lemma {:induction false} FillsKeepConfig(b: R.Book, fills: seq<Fill>)
    ensures ApplyFills(b, fills).config == b.config
    decreases |fills|
  {
    if fills != [] {
      FillsKeepConfig(ApplyFill(b, fills[0]), fills[1..]);
    }
  }

  lemma {:induction false} RestoreKeepsConfig(b: R.Book, vs: seq<OrderView>, done: nat)
    ensures Q.RestoreFrom(b, vs, done).2.config == b.config
    decreases |vs|
  {
    if vs != [] {
      RestoreKeepsConfig(R.Rest(b, vs[0]), vs[1..], done + 1);
    }
  }

  lemma TractTwo(x: Tract, a: Input, b: Input)
    ensures TractRun(x, [a, b]) == TractStep(TractStep(x, a, true), b, true)
  {
    hide TractStep;
    assert [a, b][1..] == [b] && [b][1..] == [];
    var y := TractStep(x, a, true);
    assert TractRun(TractStep(y, b, true), []) == TractStep(y, b, true);
    assert TractRun(y, [b]) == TractStep(y, b, true);
  }

  lemma {:induction false} TractConcat(x: Tract, a: seq<Input>, b: seq<Input>)
    ensures TractRun(x, a + b) == TractRun(TractRun(x, a), b)
    decreases |a|
  {
    hide TractStep;
    if a == [] {
      assert a + b == b;
    } else {
      TractConcat(TractStep(x, a[0], true), a[1..], b);
      assert (a + b)[1..] == a[1..] + b;
    }
  }
}
