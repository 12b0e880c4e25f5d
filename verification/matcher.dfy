/** The matcher itself: one command at a time over the order book, publishing events through a
    batch that always holds the newest one back so that it can be flagged as the last. */
module Matchers {
  import opened BookTypes
  import opened MatcherTypes
  import R = ReferenceBooks
  import Q = BookQueues
  import OrderBooks
  import opened Matching
  import opened MatcherSpec

  /** Stands for any event writer: it accepts or refuses each attempt as `accepts` says. */
  class EventWriter {
    const accepts: nat -> bool
    var attempts: nat
    var log: seq<EventEnvelope>

    constructor (accepts: nat -> bool)
      ensures this.accepts == accepts && attempts == 0 && log == []
    {
      this.accepts := accepts;
      attempts := 0;
      log := [];
    }

    method Publish(e: EventEnvelope) returns (ok: bool)
      modifies this
      ensures ok == accepts(old(attempts)) && attempts == old(attempts) + 1
      ensures log == if ok then old(log) + [e] else old(log)
    {
      ok := accepts(attempts);
      attempts := attempts + 1;
      if ok {
        log := log + [e];
      }
    }
  }

  /** The attempts `lo .. hi` are all accepted. */
  ghost predicate AllAccepted(accepts: nat -> bool, lo: nat, hi: nat) {
    forall n :: lo <= n < hi ==> accepts(n)
  }

  /** Envelopes that are not the last of their command. */
  function OpenEnvelopes(first: nat, c: CommandEnvelope, events: seq<Event>): seq<EventEnvelope> {
    seq(|events|, i requires 0 <= i < |events| => EventEnvelope(first + i, c.client, c.sequence, i, false, events[i]))
  }

  lemma OpenSnoc(first: nat, c: CommandEnvelope, events: seq<Event>, e: Event)
    ensures OpenEnvelopes(first, c, events + [e])
      == OpenEnvelopes(first, c, events) + [EventEnvelope(first + |events|, c.client, c.sequence, |events|, false, e)]
    ensures Envelopes(first, c, events + [e])
      == OpenEnvelopes(first, c, events) + [EventEnvelope(first + |events|, c.client, c.sequence, |events|, true, e)]
  {
  }

  /** The first `k` envelopes of a command, short of the last, are not flagged. */
  lemma OpenIsPrefix(first: nat, c: CommandEnvelope, events: seq<Event>, all: seq<Event>, k: nat)
    requires k < |all| && k <= |events| && events <= all
    ensures OpenEnvelopes(first, c, events[..k]) == Envelopes(first, c, all)[..k]
  {
  }

  class CommandEventBatch {
    const matcher: Matcher
    const c: CommandEnvelope
    var pending: Event
    var hasPending: bool
    var pendingIndex: nat
    var nextIndex: nat
    var failed: bool
    ghost const first: nat
    ghost const base: seq<EventEnvelope>
    ghost const baseAttempts: nat
    ghost var added: seq<Event>
    ghost var accepted: nat

    /** The log has grown by the accepted events, none of them flagged as last. */
    ghost predicate Logged()
      reads this, matcher`nextEventSequence, matcher.writer
    {
      && accepted <= |added| && nextIndex == |added|
      && matcher.nextEventSequence == first + accepted
      && matcher.writer.log == base + OpenEnvelopes(first, c, added[..accepted])
      && AllAccepted(matcher.writer.accepts, baseAttempts, baseAttempts + accepted)
    }

    /** Nothing refused so far: all but the newest event are accepted, and that one is held back. */
    ghost predicate Open()
      reads this, matcher`nextEventSequence, matcher.writer
    {
      && Logged() && !failed && matcher.writer.attempts == baseAttempts + accepted
      && hasPending == (added != [])
      && (hasPending ==> accepted == |added| - 1 && pendingIndex == accepted && pending == added[accepted])
    }

    /** The writer refused an event; the matcher is fatal. */
    ghost predicate Broken()
      reads this, matcher`nextEventSequence, matcher`fatal, matcher`fatalReason, matcher`running, matcher.writer
    {
      && Logged() && failed && accepted < |added| && !matcher.writer.accepts(baseAttempts + accepted)
      && matcher.fatal && matcher.fatalReason == EventWriterFatal && !matcher.running
    }

    constructor (matcher: Matcher, c: CommandEnvelope)
      ensures this.matcher == matcher && this.c == c && Open() && added == []
      ensures first == matcher.nextEventSequence && base == matcher.writer.log
        && baseAttempts == matcher.writer.attempts
    {
      this.matcher := matcher;
      this.c := c;
      pending := ShutDown;
      hasPending := false;
      pendingIndex, nextIndex := 0, 0;
      failed := false;
      first := matcher.nextEventSequence;
      base := matcher.writer.log;
      baseAttempts := matcher.writer.attempts;
      added := [];
      accepted := 0;
    }

    method Add(payload: Event) returns (ok: bool)
      requires Open()
      modifies this, matcher`nextEventSequence, matcher`fatal, matcher`running, matcher`fatalReason, matcher.writer
      ensures if ok then Open() && added == old(added) + [payload] else Broken() && added == old(added)
      ensures if ok then !failed else failed && matcher.fatal
      ensures ok ==>
        matcher.fatal == old(matcher.fatal) && matcher.running == old(matcher.running)
          && matcher.fatalReason == old(matcher.fatalReason)
    {
      if hasPending {
        ok := PublishPending(false);
        if !ok {
          return;
        }
      }
      pending := payload;
      pendingIndex := nextIndex;
      nextIndex := nextIndex + 1;
      hasPending := true;
      ok := true;
      added := added + [payload];
    }

    method Finish() returns (ok: bool)
      requires Open() && hasPending
      modifies this, matcher`nextEventSequence, matcher`fatal, matcher`running, matcher`fatalReason, matcher.writer
      ensures added == old(added)
      ensures if ok then
          && !failed && accepted == |added| && matcher.nextEventSequence == first + |added|
          && matcher.writer.log == base + Envelopes(first, c, added)
          && AllAccepted(matcher.writer.accepts, baseAttempts, baseAttempts + |added|)
          && matcher.writer.attempts == baseAttempts + |added|
          && matcher.fatal == old(matcher.fatal) && matcher.running == old(matcher.running)
          && matcher.fatalReason == old(matcher.fatalReason)
        else Broken()
    {
      ok := PublishPending(true);
    }

    /** What of a command's events `all` the log holds: everything with the final flag, or what
        came before the refused one. */
    ghost predicate Settled(all: seq<Event>)
      reads this, matcher.writer
    {
      && accepted <= |all| && matcher.writer.log == base + Envelopes(first, c, all)[..accepted]
      && AllAccepted(matcher.writer.accepts, baseAttempts, baseAttempts + accepted)
      && (if accepted == |all| then matcher.writer.attempts == baseAttempts + accepted
          else !matcher.writer.accepts(baseAttempts + accepted))
    }

    /** Publishes the event held back as the last, unless the writer has refused one already. */
    method Complete(ghost all: seq<Event>) returns (ok: bool)
      requires all != [] && added <= all && if failed then Broken() else Open() && added == all
      modifies this, matcher`nextEventSequence, matcher`fatal, matcher`running, matcher`fatalReason, matcher.writer
      ensures Settled(all) && ok == (accepted == |all|) && (old(failed) ==> !ok)
      ensures if ok then
                matcher.nextEventSequence == first + |all| && matcher.fatal == old(matcher.fatal)
                && matcher.running == old(matcher.running) && matcher.fatalReason == old(matcher.fatalReason)
              else matcher.fatal && matcher.fatalReason == EventWriterFatal
    {
      hide OpenEnvelopes;
      ok := false;
      if !failed {
        if !hasPending {
          assert false;
        }
        ok := Finish();
      }
      if ok {
        assert Envelopes(first, c, all)[..accepted] == Envelopes(first, c, all);
      } else {
        OpenIsPrefix(first, c, added, all, accepted);
      }
    }

    /** Publishes the event held back. */
    method PublishPending(isLast: bool) returns (ok: bool)
      requires Open() && hasPending
      modifies this, matcher`nextEventSequence, matcher`fatal, matcher`running, matcher`fatalReason, matcher.writer
      ensures added == old(added) && nextIndex == old(nextIndex)
      ensures !ok ==> Broken()
      ensures ok ==>
        && !failed && !hasPending && accepted == |added| && matcher.writer.attempts == baseAttempts + accepted
        && matcher.nextEventSequence == first + accepted
        && matcher.writer.log == base + (if isLast then Envelopes(first, c, added) else OpenEnvelopes(first, c, added))
        && (AllAccepted(matcher.writer.accepts, baseAttempts, baseAttempts + accepted))
        && matcher.fatal == old(matcher.fatal) && matcher.running == old(matcher.running)
        && matcher.fatalReason == old(matcher.fatalReason)
    {
      hide OpenEnvelopes, Envelopes;
      var envelope := EventEnvelope(matcher.nextEventSequence, c.client, c.sequence, pendingIndex, isLast, pending);
      assert added[..accepted] + [pending] == added;
      OpenSnoc(first, c, added[..accepted], pending);
      ok := matcher.PublishEvent(envelope);
      if !ok {
        failed := true;
        return;
      }
      hasPending := false;
      accepted := accepted + 1;
    }
  }

  class Matcher {
    const config: Config
    const book: OrderBooks.OrderBook
    const writer: EventWriter
    var lastOrderId: OrderId
    var nextEventSequence: nat
    var liveResumeEventSequence: nat
    var deferredEventSequence: nat
    var mode: Mode
    var deferredMode: Option<Mode>
    var deferredStartReplay: bool
    var running: bool
    var fatal: bool
    var fatalReason: FatalReason

    constructor (config: Config, hash: OrderId -> nat, writer: EventWriter, firstEventSequence: nat)
      requires config.maxOrders <= MAX_CAPACITY
      ensures Valid() && Now() == Start(config, firstEventSequence) && this.writer == writer && fresh(book.Repr())
    {
      hide OrderBooks.OrderBook.Valid;
      this.config := config;
      this.writer := writer;
      book := new OrderBooks.OrderBook(config, hash);
      lastOrderId := 0;
      nextEventSequence := firstEventSequence;
      liveResumeEventSequence, deferredEventSequence := 0, 0;
      mode, deferredMode, deferredStartReplay := Live, None, false;
      running, fatal, fatalReason := true, false, NoFatal;
    }

    /** Between commands nothing is put off, unless the matcher is fatal. */
    ghost predicate Valid()
      reads this, book, book.Repr()
    {
      && book.Valid() && book.config == config && this !in book.Repr() && writer !in book.Repr()
      && (fatal <==> fatalReason != NoFatal)
      && (!fatal ==> NothingDeferred())
    }

    ghost predicate NothingDeferred()
      reads this
    {
      deferredEventSequence == 0 && deferredMode == None && !deferredStartReplay
    }

    ghost function Now(): State
      reads this, book
    {
      State(config, book.model, lastOrderId, nextEventSequence, liveResumeEventSequence, mode, running, fatalReason)
    }

    method PublishEvent(envelope: EventEnvelope) returns (ok: bool)
      modifies `nextEventSequence, `fatal, `running, `fatalReason, writer
      ensures ok == writer.accepts(old(writer.attempts)) && writer.attempts == old(writer.attempts) + 1
      ensures writer.log == if ok then old(writer.log) + [envelope] else old(writer.log)
      ensures if ok
              then nextEventSequence == old(nextEventSequence) + 1 && fatal == old(fatal) && running == old(running)
                && fatalReason == old(fatalReason)
              else nextEventSequence == old(nextEventSequence) && fatal && !running && fatalReason == EventWriterFatal
    {
      ok := writer.Publish(envelope);
      if !ok {
        TransitionToFatalState(EventWriterFatal);
      } else {
        nextEventSequence := nextEventSequence + 1;
      }
    }

    method TransitionToFatalState(reason: FatalReason)
      modifies `fatal, `running, `fatalReason
      ensures fatal && !running && fatalReason == reason
    {
      fatal := true;
      running := false;
      fatalReason := reason;
    }

    method ApplyDeferredReplayTransition()
      modifies `liveResumeEventSequence, `mode, `deferredStartReplay, `nextEventSequence, `deferredEventSequence,
        `deferredMode
      ensures NothingDeferred()
      ensures liveResumeEventSequence == if old(deferredStartReplay) then old(nextEventSequence)
        else old(liveResumeEventSequence)
      ensures nextEventSequence == if old(deferredEventSequence) != 0 then old(deferredEventSequence)
        else old(nextEventSequence)
      ensures mode == if old(deferredMode).Some? then old(deferredMode).value
        else if old(deferredStartReplay) then Replay else old(mode)
    {
      if deferredStartReplay {
        liveResumeEventSequence := nextEventSequence;
        mode := Replay;
        deferredStartReplay := false;
      }
      if deferredEventSequence != 0 {
        nextEventSequence := deferredEventSequence;
        deferredEventSequence := 0;
      }
      if deferredMode.Some? {
        mode := deferredMode.value;
        deferredMode := None;
      }
    }

    /** The fields after a command's handler are those of `e`, before publication is finished. */
    ghost predicate Handled(s: State, e: Effects, events: CommandEventBatch)
      reads this, book, events
    {
      && events.added == e.events
      && book.model == e.book && lastOrderId == e.lastOrderId && fatalReason == e.reason
      && fatal == (e.reason != NoFatal) && running == (s.running && e.reason == NoFatal && !e.stop)
      && deferredStartReplay == e.startReplay && deferredEventSequence == e.resumeAt && deferredMode == e.nextMode
      && mode == s.mode && liveResumeEventSequence == s.liveResume
    }

    method EnterFatalProcess(reason: FatalReason, offending: OrderId, last: OrderId, events: CommandEventBatch)
        returns (status: ProcessStatus)
      requires events.matcher == this && events.Open() && reason != EventWriterFatal
      modifies events, `nextEventSequence, `fatal, `running, `fatalReason, writer
      ensures status == Fatal && fatal && !running
      ensures if events.failed then events.Broken() && events.added == old(events.added)
              else
                && events.Open() && events.added == old(events.added) + [MatcherFatal(reason, offending, last)]
                && fatalReason == reason
    {
      if reason != EventWriterFatal {
        var added := events.Add(MatcherFatal(reason, offending, last));
        if !added {
          return Fatal;
        }
      }
      TransitionToFatalState(reason);
      return Fatal;
    }

    /** What a handler may assume, and what it leaves: either the writer has refused an event and
        the batch holds a prefix of the command's events, or everything is as `e` says. */
    ghost predicate Ready(events: CommandEventBatch)
      reads this, book, book.Repr(), events, writer
    {
      Valid() && !fatal && events.matcher == this && !events.failed && events.Open() && events.added == []
        && events !in book.Repr()
    }

    ghost predicate Result(s: State, e: Effects, events: CommandEventBatch)
      reads this, book, book.Repr(), events, writer
    {
      && events.matcher == this && book.Valid() && book.config == config && events.added <= e.events
      && events !in book.Repr() && this !in book.Repr() && writer !in book.Repr()
      && if events.failed then events.Broken() else events.Open() && Handled(s, e, events)
    }

    /** The store's answer to the capture is `reply.captured`; `view` is what it was given. */
    method ProcessSaveSnapshot(commandSequence: nat, reply: StoreReply, events: CommandEventBatch)
      returns (status: ProcessStatus, ghost view: Image)
      requires Ready(events)
      modifies events, `nextEventSequence, `fatal, `running, `fatalReason, writer
      ensures Result(old(Now()), SaveEffects(old(Now()), reply), events)
      ensures status == (if fatal then Fatal else Continue)
      ensures view.(epoch := 0) == SavedImage(old(Now()), commandSequence, 0)
    {
      hide OrderBooks.OrderBook.Valid, CommandEventBatch.Open, CommandEventBatch.Broken, Q.Snapshot;
      view := SavedImage(Now(), commandSequence, 0);
      if reply.captured != SnapshotOk {
        status := EnterFatalProcess(SnapshotCaptureFailed, 0, lastOrderId, events);
      } else {
        var added := events.Add(SnapshotSaved);
        status := if added then Continue else Fatal;
      }
    }

    method ProcessLoadSnapshot(saveSequence: nat, epoch: nat, reply: StoreReply, events: CommandEventBatch)
        returns (status: ProcessStatus)
      requires Ready(events)
      modifies events, this, writer, book.Repr()
      ensures Result(old(Now()), LoadEffects(old(Now()), saveSequence, epoch, reply), events)
      ensures status == (if fatal then Fatal else Continue)
    {
      hide OrderBooks.OrderBook.Valid, CommandEventBatch.Open, CommandEventBatch.Broken, AdoptEffects, Q.Snapshot;
      hide Q.Flat;
      var image := reply.image;
      var reason :=
        if reply.loaded == Unavailable then SnapshotLoadUnavailable
        else if reply.loaded != SnapshotOk then SnapshotLoadInvalid
        else if image.config != config || image.saveSequence != saveSequence || image.epoch != epoch
          then SnapshotLoadInvalid
        else NoFatal;
      if reason != NoFatal {
        status := EnterFatalProcess(reason, 0, lastOrderId, events);
      } else {
        status := LoadFitting(saveSequence, epoch, image, events);
      }
    }

    method LoadFitting(saveSequence: nat, epoch: nat, image: Image, events: CommandEventBatch)
        returns (status: ProcessStatus)
      requires Ready(events)
      modifies events, this, writer, book.Repr()
      ensures Result(old(Now()), AdoptEffects(old(Now()), saveSequence, epoch, image), events)
      ensures status == (if fatal then Fatal else Continue)
    {
      hide OrderBooks.OrderBook.Valid, CommandEventBatch.Open, CommandEventBatch.Broken, Q.Restore, Q.Snapshot, Q.Flat;
      var restored := AdoptImage(image);
      if !restored {
        status := EnterFatalProcess(SnapshotLoadInvalid, 0, lastOrderId, events);
      } else {
        var added := events.Add(SnapshotLoaded(saveSequence, epoch));
        status := if added then Continue else Fatal;
      }
    }

    /** Replaces the book by the image, and puts off the change of the event cursor. */
    method AdoptImage(image: Image) returns (restored: bool)
      requires Valid() && !fatal
      modifies book.Repr(), `lastOrderId, `deferredEventSequence, `deferredMode
      ensures book.Valid()
      ensures restored == (Q.Restore(old(book.model), image.orders).0 == RestoreOk)
        && book.model == Q.Restore(old(book.model), image.orders).2
      ensures lastOrderId == if restored then image.lastOrderId else old(lastOrderId)
      ensures deferredEventSequence == (
                if !restored then 0 else if mode == Replay then image.nextEvent
                else if mode == Restoring then liveResumeEventSequence else 0)
      ensures deferredMode == if restored && mode == Restoring then Some(Live) else None
    {
      hide OrderBooks.OrderBook.Valid, Q.Restore, Q.Flat;
      var status, count := book.Restore(image.orders);
      restored := status == RestoreOk;
      if restored {
        lastOrderId := image.lastOrderId;
        if mode == Replay {
          deferredEventSequence := image.nextEvent;
        } else if mode == Restoring {
          deferredEventSequence := liveResumeEventSequence;
          deferredMode := Some(Live);
        }
      }
    }

    /** In the middle of a limit order, nothing refused so far. */
    ghost predicate Working(events: CommandEventBatch)
      reads this, book, book.Repr(), events, writer
    {
      Valid() && !fatal && events.matcher == this && !events.failed && events.Open() && events !in book.Repr()
    }

    /** The writer refused an event of the order whose events are `all`. */
    ghost predicate Refused(events: CommandEventBatch, all: seq<Event>)
      reads this, book, book.Repr(), events, writer
    {
      events.matcher == this && book.Valid() && book.config == config && events.added <= all && events.failed
        && events.Broken() && fatal
    }

    /** Executes against the best resting order. */
    method Execute(incoming: OrderView, resting: OrderView, remaining: Quantity, events: CommandEventBatch)
        returns (ok: bool, left: Quantity)
      requires Working(events) && remaining > 0 && resting.remaining > 0
      requires R.EraseResultOf(book.model, resting.id) == Erased(resting)
      modifies events, `nextEventSequence, `fatal, `running, `fatalReason, writer, book.Repr()
      ensures var f := Fill(resting, Min(remaining, resting.remaining));
              if ok then
                && Working(events) && events.added == old(events.added) + OneFill(incoming, f)
                && book.model == ApplyFill(old(book.model), f) && left == remaining - f.executed
                && running == old(running)
              else Refused(events, old(events.added) + OneFill(incoming, f))
    {
      hide OrderBooks.OrderBook.Valid, CommandEventBatch.Open, CommandEventBatch.Broken;
      var executed := Min(remaining, resting.remaining);
      ok := events.Add(Trade(incoming.id, resting.id, incoming.owner, resting.owner, resting.price, executed));
      left := remaining - executed;
      if !ok {
        return;
      }
      var restingRemaining := resting.remaining - executed;
      if restingRemaining == 0 {
        var erased := book.Erase(resting.id);
        if !erased.Erased? {
          assert false;
        }
        ok := events.Add(OrderDone(resting.id));
      } else {
        var changed := book.SetRemaining(resting.id, restingRemaining);
        if !changed.SetOk? {
          assert false;
        }
      }
    }

    lemma BestPositive(b0: R.Book, o: OrderView, done: seq<Fill>, b: R.Book, remaining: Quantity)
      requires MatchState(b0, o, done, b, remaining)
      ensures var best := R.Best(b, Opposite(o.side)); best.Some? ==> best.value.remaining > 0
    {
      hide R.WF, Q.Queue, R.Best;
      Q.BestIsFirst(b, Opposite(o.side));
    }

    /** Matches until the order is used up or nothing more crosses. */
    method Match(incoming: OrderView, events: CommandEventBatch) returns (ok: bool, remaining: Quantity)
      requires Working(events) && R.WF(book.model) && events.added == Opening(incoming, [])
      modifies events, `nextEventSequence, `fatal, `running, `fatalReason, writer, book.Repr()
      ensures var b0 := old(book.model);
              if ok then
                && Working(events) && events.added == Opening(incoming, OrderFills(b0, incoming))
                && book.model == AfterMatching(b0, incoming) && remaining == Leftover(b0, incoming)
                && running == old(running)
              else Refused(events, Opening(incoming, OrderFills(b0, incoming)))
    {
      hide OrderBooks.OrderBook.Valid, CommandEventBatch.Open, CommandEventBatch.Broken, MatchState, R.WF, OneFill;
      hide Opening,
           OrderFills, AfterMatching, Leftover, ApplyFill, R.Best, Q.Queue, Q.Flat;
      ghost var b0 := book.model;
      ghost var done: seq<Fill> := [];
      ok := true;
      remaining := incoming.remaining;
      MatchBegin(b0, incoming);
      while remaining != 0
        invariant Working(events) && running == old(running)
        invariant MatchState(b0, incoming, done, book.model, remaining)
        invariant events.added == Opening(incoming, done)
        decreases remaining
      {
        var best := book.Best(Opposite(incoming.side));
        if best == None || !Crosses(incoming.side, incoming.price, best.value.price) {
          break;
        }
        var resting := best.value;
        BestPositive(b0, incoming, done, book.model, remaining);
        MatchStep(b0, incoming, done, book.model, remaining, resting);
        ghost var f := Fill(resting, Min(remaining, resting.remaining));
        ghost var rest := Fills(Q.Queue(ApplyFill(book.model, f), Opposite(incoming.side)), incoming.side,
            incoming.price, remaining - f.executed);
        OpeningGrows(incoming, done, f, rest);
        ok, remaining := Execute(incoming, resting, remaining, events);
        if !ok {
          return;
        }
        done := done + [f];
      }
      MatchEnd(b0, incoming, done, book.model, remaining);
    }

    method ProcessNewLimit(incoming: OrderView, events: CommandEventBatch) returns (status: ProcessStatus)
      requires Ready(events) && R.WF(book.model)
      modifies events, this, writer, book.Repr()
      ensures Result(old(Now()), LimitEffects(old(Now()), incoming), events)
      ensures status == (if fatal then Fatal else Continue)
    {
      hide OrderBooks.OrderBook.Valid, CommandEventBatch.Open, CommandEventBatch.Broken, AcceptedEffects, R.WF;
      if incoming.id <= lastOrderId {
        status := EnterFatalProcess(NonMonotonicOrderId, incoming.id, lastOrderId, events);
      } else {
        lastOrderId := incoming.id;
        if incoming.remaining == 0 {
          var added := events.Add(OrderRejected(incoming.id, RejectInvalidQuantity));
          status := if added then Continue else Fatal;
        } else {
          status := ProcessAccepted(incoming, events);
        }
      }
    }

    method ProcessAccepted(incoming: OrderView, events: CommandEventBatch) returns (status: ProcessStatus)
      requires Ready(events) && R.WF(book.model) && lastOrderId == incoming.id && incoming.remaining > 0
      modifies events, `nextEventSequence, `fatal, `running, `fatalReason, writer, book.Repr()
      ensures Result(old(Now()), AcceptedEffects(old(book.model), incoming), events)
      ensures status == (if fatal then Fatal else Continue)
    {
      hide OrderBooks.OrderBook.Valid, CommandEventBatch.Open, CommandEventBatch.Broken, R.WF,
           OrderFills, AfterMatching, Leftover, AfterOrder, Ending, EndingReason, FillEvents;
      ghost var b0 := book.model;
      OpeningEmpty(incoming);
      NothingFilled(b0, incoming);
      var ok := events.Add(OrderAccepted(incoming.id));
      if ok {
        var remaining;
        ok, remaining := Match(incoming, events);
        if ok {
          if remaining == 0 {
            ok := events.Add(OrderDone(incoming.id));
            Concluded(b0, incoming);
          } else {
            RestRemaining(incoming, remaining, events, b0);
          }
        }
      }
      status := if fatal then Fatal else Continue;
    }

    /** Tries to rest what is left of an order, and says how that went. */
    method RestRemaining(incoming: OrderView, remaining: Quantity, events: CommandEventBatch, ghost b0: R.Book)
      requires Working(events) && book.model == AfterMatching(b0, incoming) && 0 < remaining == Leftover(b0, incoming)
      requires lastOrderId == incoming.id && (remaining == incoming.remaining <==> OrderFills(b0, incoming) == [])
      modifies events, `nextEventSequence, `fatal, `running, `fatalReason, writer, book.Repr()
      ensures if events.failed then Refused(events, old(events.added) + [Ending(b0, incoming)])
              else
                && events.matcher == this && book.Valid() && book.config == config && events.Open()
                && events.added == old(events.added) + [Ending(b0, incoming)]
                && book.model == AfterOrder(b0, incoming) && fatalReason == EndingReason(b0, incoming)
                && fatal == (fatalReason != NoFatal) && running == (old(running) && fatalReason == NoFatal)
    {
      hide OrderBooks.OrderBook.Valid, CommandEventBatch.Open, CommandEventBatch.Broken, R.WF, OrderFills;
      hide AfterMatching, Leftover,
           R.Insert, R.InsertStatusOf;
      var inserted := book.Insert(incoming.(remaining := remaining));
      var ok: bool;
      if inserted == InsertOk {
        ok := events.Add(OrderRested(incoming.(remaining := remaining)));
      } else if remaining == incoming.remaining {
        ok := events.Add(OrderRejected(incoming.id, RejectBookInsertFailed));
      } else {
        var status := EnterFatalProcess(BookInsertFailedAfterExecution, incoming.id, lastOrderId, events);
      }
    }

    /** Says what the command says, with the newest event still held back. */
    method Dispatch(c: CommandEnvelope, reply: StoreReply, events: CommandEventBatch) returns (status: ProcessStatus)
      requires Ready(events)
      modifies events, this, writer, book.Repr()
      ensures Result(old(Now()), CommandEffects(old(Now()), c, reply), events)
      ensures status == (if fatal then Fatal else if c.command.Shutdown? then Stop else Continue)
    {
      hide OrderBooks.OrderBook.Valid, CommandEventBatch.Open, CommandEventBatch.Broken, R.WF, LimitEffects;
      hide SaveEffects, LoadEffects, Q.Snapshot;
      book.ConfigOf();
      status := Continue;
      match c.command
      case NewLimit(incoming) =>
        status := ProcessNewLimit(incoming, events);
      case SaveSnapshot =>
        ghost var view;
        status, view := ProcessSaveSnapshot(c.sequence, reply, events);
      case LoadSnapshot(saveSequence, epoch) =>
        status := ProcessLoadSnapshot(saveSequence, epoch, reply, events);
      case _ =>
        status := ProcessControl(c.command, events);
    }

    /** The commands that touch neither the book nor the snapshot store. */
    method ProcessControl(command: Command, events: CommandEventBatch) returns (status: ProcessStatus)
      requires Ready(events) && !command.NewLimit? && !command.SaveSnapshot? && !command.LoadSnapshot?
      modifies events, this, writer
      ensures Result(old(Now()), ControlEffects(old(Now()), command), events)
      ensures status == (if fatal then Fatal else if command.Shutdown? then Stop else Continue)
    {
      hide OrderBooks.OrderBook.Valid, CommandEventBatch.Open, CommandEventBatch.Broken, Q.Snapshot;
      var added := events.Add(ControlEvent(command));
      if added {
        if command.Shutdown? {
          running := false;
        } else if command.StartReplay? {
          if mode == Live {
            deferredStartReplay := true;
          }
        } else if command.StopReplay? {
          if mode == Replay {
            deferredMode := Some(Restoring);
          }
        }
      }
      status := if fatal then Fatal else if command.Shutdown? then Stop else Continue;
    }

    /** Publishes the event held back, and makes the changes put off. */
    method Conclude(events: CommandEventBatch, ghost s: State, ghost e: Effects) returns (ok: bool)
      requires Result(s, e, events) && e.events != []
      modifies events, this, writer
      ensures book.Valid() && book.model == old(book.model)
      ensures events.Settled(e.events) && ok == (events.accepted == |e.events|) && (old(events.failed) ==> !ok)
      ensures if ok
        then NothingDeferred() && fatal == (fatalReason != NoFatal)
          && Now() == Finished(s.(nextEvent := events.first, config := config), e)
              else fatal && fatalReason == EventWriterFatal
    {
      hide OrderBooks.OrderBook.Valid, CommandEventBatch.Open, CommandEventBatch.Broken, CommandEventBatch.Settled;
      var refused := events.failed;
      ok := events.Complete(e.events);
      if ok || refused {
        ApplyDeferredReplayTransition();
      }
    }

    /** Processes one command. If the writer accepts every event of the command, the log grows by
        exactly the published envelopes and the state is the next one. If it refuses one, the log
        grows by the envelopes before that one, and the matcher is fatal for good. */
    method Process(c: CommandEnvelope, reply: StoreReply) returns (status: ProcessStatus, ghost accepted: nat)
      requires Valid()
      modifies this, writer, book.Repr()
      ensures Valid()
      ensures old(fatal) ==> status == Fatal && Now() == old(Now()) && writer.log == old(writer.log)
      ensures !old(fatal) ==>
        var s, es := old(Now()), Published(old(Now()), c, reply);
        && accepted <= |es| && writer.log == old(writer.log) + es[..accepted]
        && AllAccepted(writer.accepts, old(writer.attempts), old(writer.attempts) + accepted)
        && if accepted == |es|
          then Now() == Step(s, c, reply) && status == StatusOf(s, c, reply)
            && writer.attempts == old(writer.attempts) + accepted
           else !writer.accepts(old(writer.attempts) + accepted) && status == Fatal && fatalReason == EventWriterFatal
    {
      hide OrderBooks.OrderBook.Valid, CommandEffects, CommandEventBatch.Broken;
      if fatal {
        accepted := 0;
        status := Fatal;
      } else {
        var events := new CommandEventBatch(this, c);
        ghost var e := CommandEffects(Now(), c, reply);
        status := Dispatch(c, reply, events);
        SomeEvent(old(Now()), c, reply);
        var ok := Conclude(events, old(Now()), e);
        accepted := events.accepted;
        if !ok {
          status := Fatal;
        }
      }
    }

    /** The run loop has ended with `status` after publishing `published`: either all that
        `Serve` says, or what came before the event the writer refused. */
    ghost predicate Ended(s0: State, feed: seq<Read>, published: seq<EventEnvelope>, status: RunStatus)
      reads this, book
    {
      var (s, log, ideal) := Serve(s0, feed);
      && published <= log
      && if published == log then Now() == s && status == ideal
        else status == RunFatal && fatalReason == EventWriterFatal
    }

    /** The run loop. While the writer accepts everything, the state, the event stream and the
        result are those of `Serve`; whatever it accepts, the log grows by a prefix of that stream. */
    method Run(feed: seq<Read>) returns (status: RunStatus, ghost published: seq<EventEnvelope>)
      requires Valid()
      modifies this, writer, book.Repr()
      ensures Valid()
      ensures writer.log == old(writer.log) + published && Ended(old(Now()), feed, published, status)
    {
      hide OrderBooks.OrderBook.Valid, Step, Serve, Served;
      ghost var s0 := Now();
      published := [];
      ServedBegin(s0, feed);
      if fatal {
        ServedFatal(s0, feed, s0, feed, []);
        return RunFatal, [];
      }
      var i := 0;
      while running && i < |feed|
        invariant Valid() && !fatal && i <= |feed|
        invariant writer.log == old(writer.log) + published && Served(s0, feed, Now(), feed[i..], published)
        decreases |feed| - i
      {
        assert feed[i..][0] == feed[i] && feed[i..][1..] == feed[i + 1..];
        ServedOther(s0, feed, Now(), feed[i..], published);
        if feed[i].ReadFatal? {
          TransitionToFatalState(CommandReaderFatal);
          return RunFatal, published;
        } else if feed[i].ReadOk? {
          var processed;
          processed, published := ProcessRead(feed[i].input, s0, feed, feed[i..], published);
          if processed == Fatal {
            return RunFatal, published;
          }
          if processed == Stop {
            return Stopped, published;
          }
        }
        i := i + 1;
      }
      ServedOther(s0, feed, Now(), feed[i..], published);
      status := if running then StillRunning else Stopped;
    }

    /** One command of the run loop. */
    method ProcessRead(input: Input, ghost s0: State, ghost feed: seq<Read>, ghost rest: seq<Read>,
                       ghost before: seq<EventEnvelope>)
      returns (processed: ProcessStatus, ghost published: seq<EventEnvelope>)
      requires Valid() && !fatal && running && rest != [] && rest[0] == ReadOk(input)
        && Served(s0, feed, Now(), rest, before)
      modifies this, writer, book.Repr()
      ensures Valid() && before <= published && writer.log == old(writer.log) + published[|before|..]
      ensures match processed
              case Fatal => Ended(s0, feed, published, RunFatal)
              case Stop => !fatal && Ended(s0, feed, published, Stopped)
              case Continue => !fatal && Served(s0, feed, Now(), rest[1..], published)
    {
      hide OrderBooks.OrderBook.Valid, CommandEffects, Published, Served, Serve;
      ghost var s := Now();
      ghost var es := Published(s, input.command, input.reply);
      ServedInput(s0, feed, s, rest, before, input);
      ghost var k;
      processed, k := Process(input.command, input.reply);
      published := before + es[..k];
      if k < |es| {
        assert published <= before + es;
      } else {
        assert es[..k] == es;
        if processed == Fatal {
          ServedFatal(s0, feed, Now(), rest[1..], published);
        } else {
          ServedOther(s0, feed, Now(), rest[1..], published);
        }
      }
    }
  }
}
