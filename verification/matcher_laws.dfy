/** Properties of every run of the matcher: what the state keeps, which failures can happen,
    and how the events of a command are framed. */
module MatcherLaws {
  import opened BookTypes
  import opened MatcherTypes
  import R = ReferenceBooks
  import Q = BookQueues
  import BookSnapshots
  import opened QueueEffects
  import opened Matching
  import opened MatcherSpec

  // ---------------------------------------------------------------- what every run keeps

  ghost predicate IdsUpTo(b: R.Book, last: OrderId) {
    forall id :: id in b.byId ==> id <= last
  }

  ghost predicate SoundBook(b: R.Book, config: Config, last: OrderId) {
    R.WF(b) && b.config == config && IdsUpTo(b, last) && Uncrossed(b)
  }

  /** The book is well formed and uncrossed, and no order in it is newer than the last id. */
  ghost predicate Sound(s: State) {
    SoundBook(s.book, s.config, s.lastOrderId)
  }

  /** An image that some sound matcher saved. */
  ghost predicate SoundImage(image: Image) {
    exists b: R.Book :: SoundBook(b, image.config, image.lastOrderId) && image.orders == Q.Snapshot(b)
  }

  /** The images the store may hand out: those saved before, under any epoch. */
  ghost predicate HonestReply(saved: set<Image>, input: Input) {
    input.command.command.LoadSnapshot? && input.reply.loaded == SnapshotOk ==> input.reply.image.(epoch := 0) in saved
  }

  function SavedAfter(s: State, saved: set<Image>, input: Input): set<Image> {
    if s.reason == NoFatal && input.command.command.SaveSnapshot? && input.reply.captured == SnapshotOk
    then saved + {SavedImage(s, input.command.sequence, 0)}
    else saved
  }

  ghost predicate Honest(s: State, saved: set<Image>, inputs: seq<Input>)
    decreases |inputs|
  {
    inputs != [] ==>
      && HonestReply(saved, inputs[0])
      && Honest(Step(s, inputs[0].command, inputs[0].reply), SavedAfter(s, saved, inputs[0]), inputs[1..])
  }

  ghost predicate SoundImages(saved: set<Image>) {
    forall image :: image in saved ==> SoundImage(image)
  }

  lemma StartIsSound(config: Config, firstEvent: nat)
    ensures Sound(Start(config, firstEvent))
  {
    var b := R.Empty(config);
    Q.FlatEmpty(b.bids, b.byId, false, 0, R.PRICE_LIMIT);
  }

  /** A loaded image that was saved is the book it was saved from. */
  lemma LoadedBook(s: State, image: Image) returns (b: R.Book)
    requires Sound(s) && SoundImage(image) && image.config == s.config
    ensures SoundBook(b, s.config, image.lastOrderId) && image.orders == Q.Snapshot(b)
    ensures Q.Restore(s.book, image.orders) == (RestoreOk, |b.byId|, b)
  {
    hide Q.Snapshot, R.WF, Uncrossed, Q.Restore;
    b :| SoundBook(b, image.config, image.lastOrderId) && image.orders == Q.Snapshot(b);
    BookSnapshots.RestoreSnapshot(b, s.book);
  }

  lemma LimitKeepsSound(s: State, o: OrderView)
    requires Sound(s)
    ensures var e := LimitEffects(s, o); SoundBook(e.book, s.config, e.lastOrderId)
  {
    hide R.WF, Uncrossed, AfterOrder, AfterMatching, FillEvents, OrderFills, Ending, EndingReason;
    AfterOrderWF(s.book, o);
    OrderKeepsUncrossed(s.book, o);
  }

  /** Every step of a matcher whose store is honest keeps the state sound. */
  lemma StepKeepsSound(s: State, saved: set<Image>, input: Input)
    requires Sound(s) && SoundImages(saved) && HonestReply(saved, input)
    ensures Sound(Step(s, input.command, input.reply))
    ensures SoundImages(SavedAfter(s, saved, input))
  {
    hide R.WF, Uncrossed, Q.Restore, LimitEffects, Q.Snapshot;
    if s.reason == NoFatal {
      match input.command.command
      case NewLimit(o) => LimitKeepsSound(s, o);
      case LoadSnapshot(saveSequence, epoch) =>
        if input.reply.loaded == SnapshotOk && ImageFits(s, saveSequence, epoch, input.reply.image) {
          var image := input.reply.image.(epoch := 0);
          assert SoundImage(image);
          var b := LoadedBook(s, image);
        }
      case SaveSnapshot =>
        assert SoundBook(s.book, s.config, s.lastOrderId);
      case _ =>
    }
  }

  /** So every state of such a run is sound: in particular its book never crosses. */
  lemma {:induction false} RunKeepsSound(s: State, saved: set<Image>, inputs: seq<Input>)
    requires Sound(s) && SoundImages(saved) && Honest(s, saved, inputs)
    ensures Sound(Run(s, inputs))
    decreases |inputs|
  {
    hide Sound, Step, SavedAfter, SoundImages, HonestReply;
    if inputs != [] {
      StepKeepsSound(s, saved, inputs[0]);
      RunKeepsSound(Step(s, inputs[0].command, inputs[0].reply), SavedAfter(s, saved, inputs[0]), inputs[1..]);
    }
  }

  // ---------------------------------------------------------------- which failures can happen

  /** Exactly which commands are fatal, and why. A partly executed order is the only one that
      can fail to rest fatally, and then because its limit price is out of range. */
  lemma FatalCauses(s: State, saved: set<Image>, input: Input)
    requires Sound(s) && SoundImages(saved) && HonestReply(saved, input)
    ensures var reason, c, reply := CommandEffects(s, input.command, input.reply).reason, input.command.command,
      input.reply;
      && (reason == NonMonotonicOrderId <==> c.NewLimit? && c.order.id <= s.lastOrderId)
      && (reason == BookInsertFailedAfterExecution <==>
            c.NewLimit? && c.order.id > s.lastOrderId && OrderFills(s.book, c.order) != []
            && Leftover(s.book, c.order) > 0 && !s.config.InRange(c.order.price))
      && (reason == SnapshotCaptureFailed <==> c.SaveSnapshot? && reply.captured != SnapshotOk)
      && (reason == SnapshotLoadUnavailable <==> c.LoadSnapshot? && reply.loaded == Unavailable)
      && (reason == SnapshotLoadInvalid <==>
            c.LoadSnapshot? && reply.loaded != Unavailable
            && (reply.loaded == SnapshotOk ==> !ImageFits(s, c.saveSequence, c.epoch, reply.image)))
      && reason != CommandProducedNoEvent && reason != BookEraseFailedAfterExecution
      && reason != BookUpdateFailedAfterExecution && reason != EventWriterFatal
  {
    hide R.WF, Uncrossed, Q.Restore, OrderFills, Leftover, AfterOrder, AfterMatching, FillEvents, RestStatus;
    hide Q.Snapshot;
    match input.command.command
    case NewLimit(o) =>
      if o.id > s.lastOrderId && o.remaining > 0 && OrderFills(s.book, o) != [] && Leftover(s.book, o) > 0 {
        PartlyExecutedRests(s.book, o);
      }
      ZeroFillsNothing(s.book, o);
    case LoadSnapshot(saveSequence, epoch) =>
      if input.reply.loaded == SnapshotOk && ImageFits(s, saveSequence, epoch, input.reply.image) {
        var image := input.reply.image.(epoch := 0);
        assert SoundImage(image);
        var b := LoadedBook(s, image);
      }
    case _ =>
  }

  /** The input for which resting after execution fails: a book with one bid, and an ask for more
      than its quantity at a price below the range. */
  lemma RestsOutOfRange(s: State, bid: OrderView, ask: OrderView)
    requires s.config.maxOrders > 0 && s.book == R.Rest(R.Empty(s.config), bid) && s.lastOrderId == bid.id
    requires bid.side == Bid && bid.remaining > 0 && s.config.InRange(bid.price)
    requires ask.side == Ask && ask.id > bid.id && ask.remaining > bid.remaining && ask.price < s.config.minPrice
    ensures Sound(s) && LimitEffects(s, ask).reason == BookInsertFailedAfterExecution
  {
    hide R.WF, R.Rest, Q.Flat, AfterOrder, AfterMatching, FillEvents, RestStatus;
    StartIsSound(s.config, 1);
    OneBid(s.config, bid);
    assert Fills([bid], Ask, ask.price, ask.remaining) == [Fill(bid, bid.remaining)];
    assert [Fill(bid, bid.remaining)][1..] == [] && Total([Fill(bid, bid.remaining)]) == bid.remaining;
    PartlyExecutedRests(s.book, ask);
  }

  lemma OneBid(config: Config, bid: OrderView)
    requires config.maxOrders > 0 && bid.side == Bid && bid.remaining > 0 && config.InRange(bid.price)
    ensures var b := R.Rest(R.Empty(config), bid);
            && R.WF(b) && b.config == config && b.byId == map[bid.id := bid]
            && Q.Queue(b, Bid) == [bid] && Q.Queue(b, Ask) == []
  {
    hide R.WF, Q.Flat;
    var e := R.Empty(config);
    R.EmptyWF(config);
    R.RestWF(e, bid);
    Q.FlatEmpty(e.bids, e.byId, false, 0, R.PRICE_LIMIT);
    Q.FlatEmpty(e.asks, e.byId, true, 0, R.PRICE_LIMIT);
    QueueAfterRest(e, bid);
  }

  lemma ZeroFillsNothing(b: R.Book, o: OrderView)
    ensures o.remaining == 0 ==> OrderFills(b, o) == []
  {
  }

  // ---------------------------------------------------------------- framing of events

  lemma {:induction false} FillEventsCount(o: OrderView, fills: seq<Fill>)
    ensures |FillEvents(o, fills)| == |fills| + FullCount(fills) <= 2 * |fills|
  {
    if fills != [] {
      FillEventsCount(o, fills[1..]);
    }
  }

  /** A command has at least one event, and a limit order at most two for each opposite
      resting order and two more. */
  lemma EventCount(s: State, c: CommandEnvelope, reply: StoreReply)
    requires R.WF(s.book)
    ensures var n := |CommandEffects(s, c, reply).events|;
      && n >= 1
      && (c.command.NewLimit? ==> n <= 2 * |Q.Queue(s.book, Opposite(c.command.order.side))| + 2)
      && (!c.command.NewLimit? ==> n == 1)
  {
    hide R.WF, Q.Restore, Q.Queue;
    if c.command.NewLimit? {
      FillEventsCount(c.command.order, OrderFills(s.book, c.command.order));
      MatchingConserves(s.book, c.command.order);
    }
  }

  /** `b` follows `a` in the event stream: it opens a new command after a final event, and
      otherwise continues the same command with the next index and sequence. */
  predicate Follows(a: EventEnvelope, b: EventEnvelope) {
    if a.isLast then b.index == 0
    else
      && b.client == a.client && b.commandSequence == a.commandSequence && b.index == a.index + 1
      && b.sequence == a.sequence + 1
  }

  /** A stream of whole commands. */
  ghost predicate Framed(log: seq<EventEnvelope>) {
    log != [] ==> log[0].index == 0 && log[|log| - 1].isLast && Linked(log)
  }

  ghost predicate Linked(log: seq<EventEnvelope>) {
    forall i :: 0 <= i < |log| - 1 ==> Follows(log[i], log[i + 1])
  }

  lemma FramedConcat(a: seq<EventEnvelope>, b: seq<EventEnvelope>)
    requires Framed(a) && Framed(b)
    ensures Framed(a + b)
  {
    var log := a + b;
    if a != [] && b != [] {
      forall i | 0 <= i < |log| - 1
        ensures Follows(log[i], log[i + 1])
      {
        assert i < |a| - 1 ==> Follows(a[i], a[i + 1]);
        assert i >= |a| ==> Follows(b[i - |a|], b[i - |a| + 1]);
      }
    } else {
      assert log == if a == [] then b else a;
    }
  }

  /** Every run's event stream consists of whole commands: indices from 0, consecutive event
      sequences within a command, and the final flag on exactly the last event of each. */
  lemma {:induction false} RunIsFramed(s: State, inputs: seq<Input>)
    ensures Framed(Log(s, inputs))
    decreases |inputs|
  {
    hide Step, CommandEffects;
    if inputs != [] {
      RunIsFramed(Step(s, inputs[0].command, inputs[0].reply), inputs[1..]);
      FramedConcat(Published(s, inputs[0].command, inputs[0].reply),
          Log(Step(s, inputs[0].command, inputs[0].reply), inputs[1..]));
    }
  }

  /** The sequences of a stream count up by one from `first`. */
  ghost predicate Consecutive(log: seq<EventEnvelope>, first: nat) {
    forall i :: 0 <= i < |log| ==> log[i].sequence == first + i
  }

  predicate NoLoads(inputs: seq<Input>) {
    forall i :: 0 <= i < |inputs| ==> !inputs[i].command.command.LoadSnapshot?
  }

  /** Without loads, the whole stream is consecutive from the cursor, and the cursor follows it. */
  lemma {:induction false} RunIsConsecutive(s: State, inputs: seq<Input>)
    requires NoLoads(inputs)
    ensures Consecutive(Log(s, inputs), s.nextEvent)
    ensures Run(s, inputs).nextEvent == s.nextEvent + |Log(s, inputs)|
    decreases |inputs|
  {
    hide Step, Published;
    if inputs != [] {
      var t := Step(s, inputs[0].command, inputs[0].reply);
      RunIsConsecutive(t, inputs[1..]);
      StepIsConsecutive(s, inputs[0].command, inputs[0].reply);
    }
  }

  lemma StepIsConsecutive(s: State, c: CommandEnvelope, reply: StoreReply)
    requires !c.command.LoadSnapshot?
    ensures Consecutive(Published(s, c, reply), s.nextEvent)
    ensures Step(s, c, reply).nextEvent == s.nextEvent + |Published(s, c, reply)|
  {
    hide AfterOrder, FillEvents, Ending, EndingReason, OrderFills;
  }

  /** A fatal matcher publishes nothing more. */
  lemma {:induction false} FatalIsFinal(s: State, inputs: seq<Input>)
    requires s.reason != NoFatal
    ensures Run(s, inputs) == s && Log(s, inputs) == []
    decreases |inputs|
  {
    if inputs != [] {
      FatalIsFinal(s, inputs[1..]);
    }
  }

  // ---------------------------------------------------------------- the run loop

  /** The inputs that were read. */
  function Inputs(feed: seq<Read>): seq<Input> {
    if feed == [] then []
    else (if feed[0].ReadOk? then [feed[0].input] else []) + Inputs(feed[1..])
  }

  /** Those of them that the run loop processes before it ends. */
  function Handled(s: State, feed: seq<Read>): seq<Input>
    decreases |feed|
  {
    if s.reason != NoFatal || !s.running || feed == [] then []
    else
      match feed[0]
      case ReadEmpty => Handled(s, feed[1..])
      case ReadFatal => []
      case ReadOk(input) => [input] + Handled(Step(s, input.command, input.reply), feed[1..])
  }

  /** Whether the loop ends because a read fails. */
  function ReaderFails(s: State, feed: seq<Read>): bool
    decreases |feed|
  {
    if s.reason != NoFatal || !s.running || feed == [] then false
    else
      match feed[0]
      case ReadEmpty => ReaderFails(s, feed[1..])
      case ReadFatal => true
      case ReadOk(input) => ReaderFails(Step(s, input.command, input.reply), feed[1..])
  }

  /** What the run loop publishes and where it ends are those of the run over the inputs it
      processes, which are the first of those it was given. */
  lemma {:induction false} ServeIsRun(s: State, feed: seq<Read>)
    ensures var ((s', log, status), ins) := (Serve(s, feed), Handled(s, feed));
      && ins <= Inputs(feed) && log == Log(s, ins)
      && s' == (if ReaderFails(s, feed) then Run(s, ins).(running := false, reason := CommandReaderFatal)
          else Run(s, ins))
      && (status == RunFatal <==> s'.reason != NoFatal)
      && (status == Stopped ==> !s'.running)
      && (status == StillRunning ==> s'.running && ins == Inputs(feed))
    decreases |feed|
  {
    hide Step, Published;
    if s.reason == NoFatal && s.running && feed != [] {
      match feed[0]
      case ReadEmpty => ServeIsRun(s, feed[1..]);
      case ReadFatal =>
      case ReadOk(input) =>
        ServeIsRun(Step(s, input.command, input.reply), feed[1..]);
        assert ([input] + Handled(Step(s, input.command, input.reply), feed[1..]))[1..]
          == Handled(Step(s, input.command, input.reply), feed[1..]);
    }
  }

  /** The run theorems hold of the run loop: its event stream is framed and, as long as the store
      is honest, it ends in a sound state. */
  lemma ServedRunIsSound(s: State, saved: set<Image>, feed: seq<Read>)
    requires Sound(s) && SoundImages(saved) && Honest(s, saved, Handled(s, feed))
    ensures Framed(Serve(s, feed).1) && Sound(Serve(s, feed).0)
    ensures NoLoads(Handled(s, feed)) ==> Consecutive(Serve(s, feed).1, s.nextEvent)
  {
    hide Sound, SoundImages, Honest, Framed, Serve, Run, Log, Handled, NoLoads, Consecutive;
    ServeIsRun(s, feed);
    RunIsFramed(s, Handled(s, feed));
    RunKeepsSound(s, saved, Handled(s, feed));
    EndKeepsSound(Run(s, Handled(s, feed)));
    if NoLoads(Handled(s, feed)) {
      RunIsConsecutive(s, Handled(s, feed));
    }
  }

  lemma EndKeepsSound(s: State)
    requires Sound(s)
    ensures Sound(s.(running := false, reason := CommandReaderFatal))
  {
    hide SoundBook;
  }
}
