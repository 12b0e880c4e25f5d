/** What the matcher does with one command when every event is accepted: the events, the new
    state and the status. `Matchers.Matcher.Process` is proved against it. */
module MatcherSpec {
  import opened BookTypes
  import opened MatcherTypes
  import R = ReferenceBooks
  import Q = BookQueues
  import opened Matching

  /** A fatal matcher has a reason. */
  datatype State = State(config: Config, book: R.Book, lastOrderId: OrderId, nextEvent: nat,
                         liveResume: nat, mode: Mode, running: bool, reason: FatalReason)

  /** One command before publication: what it says, and what it changes. The last three are
      the changes put off until the events are published. */
  datatype Effects = Effects(events: seq<Event>, book: R.Book, lastOrderId: OrderId, reason: FatalReason, stop: bool,
                             startReplay: bool, resumeAt: nat, nextMode: Option<Mode>)

  function Plain(s: State, events: seq<Event>): Effects {
    Effects(events, s.book, s.lastOrderId, NoFatal, false, false, 0, None)
  }

  function Failing(s: State, reason: FatalReason, offending: OrderId): Effects {
    Plain(s, [MatcherFatal(reason, offending, s.lastOrderId)]).(reason := reason)
  }

  // ---------------------------------------------------------------- limit orders

  /** The trade, and the end of the resting order if it was filled. */
  function OneFill(o: OrderView, f: Fill): seq<Event> {
    [Trade(o.id, f.maker.id, o.owner, f.maker.owner, f.maker.price, f.executed)]
      + (if f.Full() then [OrderDone(f.maker.id)] else [])
  }

  function FillEvents(o: OrderView, fills: seq<Fill>): seq<Event> {
    if fills == [] then [] else OneFill(o, fills[0]) + FillEvents(o, fills[1..])
  }

  lemma {:induction false} FillEventsConcat(o: OrderView, a: seq<Fill>, b: seq<Fill>)
    ensures FillEvents(o, a + b) == FillEvents(o, a) + FillEvents(o, b)
    decreases |a|
  {
    hide OneFill;
    if a == [] {
      assert a + b == b;
    } else {
      FillEventsConcat(o, a[1..], b);
      assert (a + b)[1..] == a[1..] + b;
      var x, y, z := OneFill(o, a[0]), FillEvents(o, a[1..]), FillEvents(o, b);
      assert x + (y + z) == (x + y) + z;
    }
  }

  /** The last event of an accepted order. */
  function Ending(b: R.Book, o: OrderView): Event {
    if Leftover(b, o) == 0 then OrderDone(o.id)
    else if RestStatus(b, o) == InsertOk then OrderRested(Residual(b, o))
    else if OrderFills(b, o) == [] then OrderRejected(o.id, RejectBookInsertFailed)
    else MatcherFatal(BookInsertFailedAfterExecution, o.id, o.id)
  }

  function EndingReason(b: R.Book, o: OrderView): FatalReason {
    if Ending(b, o).MatcherFatal? then BookInsertFailedAfterExecution else NoFatal
  }

  /** The events of an accepted order after the given fills. */
  function Opening(o: OrderView, fills: seq<Fill>): seq<Event> {
    [OrderAccepted(o.id)] + FillEvents(o, fills)
  }

  lemma OpeningEmpty(o: OrderView)
    ensures Opening(o, []) == [OrderAccepted(o.id)]
  {
  }

  lemma OpeningGrows(o: OrderView, done: seq<Fill>, f: Fill, rest: seq<Fill>)
    ensures Opening(o, done + [f]) == Opening(o, done) + OneFill(o, f)
    ensures Opening(o, done + [f]) <= Opening(o, done + [f] + rest)
  {
    hide OneFill;
    FillEventsConcat(o, done, [f]);
    FillEventsConcat(o, done + [f], rest);
    assert FillEvents(o, [f]) == OneFill(o, f) + FillEvents(o, [f][1..]) == OneFill(o, f);
  }

  function AcceptedEffects(b: R.Book, o: OrderView): Effects {
    Effects(Opening(o, OrderFills(b, o)) + [Ending(b, o)], AfterOrder(b, o), o.id, EndingReason(b, o), false, false, 0,
        None)
  }

  lemma Concluded(b: R.Book, o: OrderView)
    ensures Leftover(b, o) == 0 ==>
      Ending(b, o) == OrderDone(o.id) && EndingReason(b, o) == NoFatal && AfterOrder(b, o) == AfterMatching(b, o)
  {
    hide Leftover, AfterMatching, RestStatus;
  }

  function LimitEffects(s: State, o: OrderView): Effects {
    if o.id <= s.lastOrderId then Failing(s, NonMonotonicOrderId, o.id)
    else if o.remaining == 0 then Plain(s, [OrderRejected(o.id, RejectInvalidQuantity)]).(lastOrderId := o.id)
    else AcceptedEffects(s.book, o)
  }

  // ---------------------------------------------------------------- snapshots

  /** The image a save hands to the store; the store adds the epoch. */
  function SavedImage(s: State, sequence: nat, epoch: nat): Image {
    Image(sequence, epoch, s.lastOrderId, s.nextEvent + 1, s.config, Q.Snapshot(s.book))
  }

  function SaveEffects(s: State, reply: StoreReply): Effects {
    if reply.captured != SnapshotOk then Failing(s, SnapshotCaptureFailed, 0)
    else Plain(s, [SnapshotSaved])
  }

  predicate ImageFits(s: State, saveSequence: nat, epoch: nat, image: Image) {
    image.config == s.config && image.saveSequence == saveSequence && image.epoch == epoch
  }

  function LoadEffects(s: State, saveSequence: nat, epoch: nat, reply: StoreReply): Effects {
    if reply.loaded != SnapshotOk then
      Failing(s, if reply.loaded == Unavailable then SnapshotLoadUnavailable else SnapshotLoadInvalid, 0)
    else if !ImageFits(s, saveSequence, epoch, reply.image) then Failing(s, SnapshotLoadInvalid, 0)
    else AdoptEffects(s, saveSequence, epoch, reply.image)
  }

  /** The effects of loading an image that fits. */
  function AdoptEffects(s: State, saveSequence: nat, epoch: nat, image: Image): Effects {
    var (status, _, book) := Q.Restore(s.book, image.orders);
    if status != RestoreOk then Failing(s, SnapshotLoadInvalid, 0).(book := book)
    else
      Effects([SnapshotLoaded(saveSequence, epoch)], book, image.lastOrderId, NoFatal, false, false,
              if s.mode == Replay then image.nextEvent else if s.mode == Restoring then s.liveResume else 0,
              if s.mode == Restoring then Some(Live) else None)
  }

  // ---------------------------------------------------------------- one command

  function ControlEvent(command: Command): Event {
    if command.Shutdown? then ShutDown
    else if command.StartReplay? then ReplayStarted
    else if command.StopReplay? then ReplayStopped
    else OrderRejected(0, RejectUnknownCommand)
  }

  /** The commands that touch neither the book nor the snapshot store. */
  function ControlEffects(s: State, command: Command): Effects {
    Plain(s, [ControlEvent(command)]).(
      stop := command.Shutdown?,
      startReplay := command.StartReplay? && s.mode == Live,
      nextMode := if command.StopReplay? && s.mode == Replay then Some(Restoring) else None)
  }

  function CommandEffects(s: State, c: CommandEnvelope, reply: StoreReply): Effects {
    match c.command
    case NewLimit(o) => LimitEffects(s, o)
    case SaveSnapshot => SaveEffects(s, reply)
    case LoadSnapshot(saveSequence, epoch) => LoadEffects(s, saveSequence, epoch, reply)
    case _ => ControlEffects(s, c.command)
  }

  /** No command passes without an event, and only a shutdown stops. */
  lemma SomeEvent(s: State, c: CommandEnvelope, reply: StoreReply)
    ensures CommandEffects(s, c, reply).events != []
    ensures CommandEffects(s, c, reply).stop == c.command.Shutdown?
  {
    hide OrderFills, AfterOrder, Ending, EndingReason, FillEvents, Q.RestoreFrom, Q.Snapshot;
  }

  /** The state once the events are published and the put-off changes are made. */
  function Finished(s: State, e: Effects): State {
    var next := s.nextEvent + |e.events|;
    s.(book := e.book, lastOrderId := e.lastOrderId,
       nextEvent := if e.resumeAt != 0 then e.resumeAt else next,
       liveResume := if e.startReplay then next else s.liveResume,
       mode := if e.nextMode.Some? then e.nextMode.value else if e.startReplay then Replay else s.mode,
       running := s.running && e.reason == NoFatal && !e.stop,
       reason := e.reason)
  }

  function Step(s: State, c: CommandEnvelope, reply: StoreReply): State {
    if s.reason != NoFatal then s else Finished(s, CommandEffects(s, c, reply))
  }

  function StatusOf(s: State, c: CommandEnvelope, reply: StoreReply): ProcessStatus {
    if Step(s, c, reply).reason != NoFatal then Fatal
    else if CommandEffects(s, c, reply).stop then Stop
    else Continue
  }

  /** The envelopes of one command's events. */
  function Envelopes(first: nat, c: CommandEnvelope, events: seq<Event>): (es: seq<EventEnvelope>)
    ensures |es| == |events|
  {
    seq(|events|,
        i requires 0 <= i < |events| => EventEnvelope(first + i, c.client, c.sequence, i, i == |events| - 1, events[i]))
  }

  function Published(s: State, c: CommandEnvelope, reply: StoreReply): seq<EventEnvelope> {
    if s.reason != NoFatal then [] else Envelopes(s.nextEvent, c, CommandEffects(s, c, reply).events)
  }

  function Start(config: Config, firstEvent: nat): State {
    State(config, R.Empty(config), 0, firstEvent, 0, Live, true, NoFatal)
  }

  // ---------------------------------------------------------------- runs

  /** A command, and what the snapshot store answers to it. */
  datatype Input = Input(command: CommandEnvelope, reply: StoreReply)

  function Run(s: State, inputs: seq<Input>): State
    decreases |inputs|
  {
    if inputs == [] then s else Run(Step(s, inputs[0].command, inputs[0].reply), inputs[1..])
  }

  function Log(s: State, inputs: seq<Input>): seq<EventEnvelope>
    decreases |inputs|
  {
    if inputs == [] then []
    else
      Published(s, inputs[0].command, inputs[0].reply)
      + Log(Step(s, inputs[0].command, inputs[0].reply), inputs[1..])
  }

  /** What the command reader returns to the run loop. */
  datatype Read = ReadOk(input: Input) | ReadEmpty | ReadFatal

  /** The run loop over the reads it gets: the state, the event stream and how it ended. */
  function Serve(s: State, feed: seq<Read>): (State, seq<EventEnvelope>, RunStatus)
    decreases |feed|
  {
    if s.reason != NoFatal then (s, [], RunFatal)
    else if !s.running then (s, [], Stopped)
    else if feed == [] then (s, [], StillRunning)
    else
      match feed[0]
      case ReadEmpty => Serve(s, feed[1..])
      case ReadFatal => (s.(running := false, reason := CommandReaderFatal), [], RunFatal)
      case ReadOk(input) =>
        var (s', log, status) := Serve(Step(s, input.command, input.reply), feed[1..]);
        (s', Published(s, input.command, input.reply) + log, status)
  }

  /** Having published `log`, the loop stands at `s` with `rest` to read. */
  ghost predicate Served(s0: State, feed: seq<Read>, s: State, rest: seq<Read>, log: seq<EventEnvelope>) {
    Serve(s0, feed) == (Serve(s, rest).0, log + Serve(s, rest).1, Serve(s, rest).2)
  }

  lemma ServedBegin(s: State, feed: seq<Read>)
    ensures Served(s, feed, s, feed, [])
  {
    assert [] + Serve(s, feed).1 == Serve(s, feed).1;
  }

  lemma ServedInput(s0: State, feed: seq<Read>, s: State, rest: seq<Read>, log: seq<EventEnvelope>, input: Input)
    requires Served(s0, feed, s, rest, log) && s.reason == NoFatal && s.running && rest != []
      && rest[0] == ReadOk(input)
    ensures Served(s0, feed, Step(s, input.command, input.reply), rest[1..],
        log + Published(s, input.command, input.reply))
    ensures log + Published(s, input.command, input.reply) <= Serve(s0, feed).1
  {
    hide Step, Published;
    var es, more := Published(s, input.command, input.reply), Serve(Step(s, input.command, input.reply), rest[1..]).1;
    assert log + (es + more) == (log + es) + more;
  }

  lemma ServedOther(s0: State, feed: seq<Read>, s: State, rest: seq<Read>, log: seq<EventEnvelope>)
    requires Served(s0, feed, s, rest, log) && s.reason == NoFatal
    ensures s.running && rest != [] && rest[0] == ReadEmpty ==> Served(s0, feed, s, rest[1..], log)
    ensures s.running && rest != [] && rest[0] == ReadFatal ==>
      Serve(s0, feed) == (s.(running := false, reason := CommandReaderFatal), log, RunFatal)
    ensures !s.running ==> Serve(s0, feed) == (s, log, Stopped)
    ensures s.running && rest == [] ==> Serve(s0, feed) == (s, log, StillRunning)
  {
    assert log + [] == log;
  }

  lemma ServedFatal(s0: State, feed: seq<Read>, s: State, rest: seq<Read>, log: seq<EventEnvelope>)
    requires Served(s0, feed, s, rest, log) && s.reason != NoFatal
    ensures Serve(s0, feed) == (s, log, RunFatal)
  {
    assert log + [] == log;
  }
}
