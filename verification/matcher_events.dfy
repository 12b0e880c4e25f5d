/** What the published events of a command say, in terms of the book the command met. */
module MatcherEvents {
  import opened BookTypes
  import opened MatcherTypes
  import R = ReferenceBooks
  import Q = BookQueues
  import opened QueueEffects
  import opened Matching
  import opened MatcherSpec
  import opened MatcherLaws

  // ---------------------------------------------------------------- trades

  function Trades(es: seq<Event>): seq<Event> {
    if es == [] then [] else (if es[0].Trade? then [es[0]] else []) + Trades(es[1..])
  }

  function Traded(ts: seq<Event>): nat {
    if ts == [] then 0 else (if ts[0].Trade? then ts[0].quantity else 0) + Traded(ts[1..])
  }

  /** `t` reports a trade of the incoming order with this resting order, at the latter's price. */
  predicate TradeOf(o: OrderView, maker: OrderView, t: Event) {
    && t.Trade? && t.taker == o.id && t.takerOwner == o.owner
    && t.maker == maker.id && t.makerOwner == maker.owner && t.price == maker.price
    && 0 < t.quantity <= maker.remaining && (if o.side == Bid then o.price >= maker.price else o.price <= maker.price)
  }

  /** The trades are with the first orders of the queue, one each, and only the last of them may
      leave something of its order. */
  ghost predicate TradesWith(q: seq<OrderView>, o: OrderView, ts: seq<Event>) {
    && |ts| <= |q| && (forall i :: 0 <= i < |ts| ==> TradeOf(o, q[i], ts[i]))
    && (forall i :: 0 <= i < |ts| - 1 ==> ts[i].quantity == q[i].remaining)
  }

  /** Event `j` is a trade or the end of a resting order, which stands right behind exactly those
      trades that leave nothing of their order. */
  ghost predicate DoneAt(q: seq<OrderView>, m: seq<Event>, j: nat)
    requires j < |m|
  {
    match m[j]
    case OrderDone(_) => j > 0 && m[j - 1].Trade?
    case Trade(_, _, _, _, _, quantity) => EndsHere(q, m, j, |Trades(m[..j])|, quantity)
    case _ => false
  }

  ghost predicate EndsHere(q: seq<OrderView>, m: seq<Event>, j: nat, i: nat, quantity: nat) {
    && i < |q|
    && (quantity == q[i].remaining <==> j + 1 < |m| && m[j + 1].OrderDone?)
    && (quantity == q[i].remaining ==> j + 1 < |m| && m[j + 1] == OrderDone(q[i].id))
  }

  /** The last event of an accepted order of which `left` is left. */
  function LastEvent(b: R.Book, o: OrderView, left: Quantity, traded: bool): Event {
    if left == 0 then OrderDone(o.id)
    else if b.config.InRange(o.price) && (traded || |b.byId| < b.config.maxOrders) then
      OrderRested(OrderView(o.id, o.owner, o.side, o.price, left))
    else if !traded then OrderRejected(o.id, RejectBookInsertFailed)
    else MatcherFatal(BookInsertFailedAfterExecution, o.id, o.id)
  }

  /** The events of an accepted order: accepted; its trades, for all that crosses as far as its
      quantity goes; and what became of the rest. */
  ghost predicate Reports(b: R.Book, o: OrderView, es: seq<Event>) {
    var q := Q.Queue(b, Opposite(o.side));
    && |es| >= 2 && es[0] == OrderAccepted(o.id)
    && var m := es[1..|es| - 1];
       var ts := Trades(m);
       && TradesWith(q, o, ts)
       && Traded(ts) == Min(o.remaining, CrossingQuantity(q, o.side, o.price)) <= o.remaining
       && (forall j :: 0 <= j < |m| ==> DoneAt(q, m, j))
       && es[|es| - 1] == LastEvent(b, o, o.remaining - Traded(ts), ts != [])
  }

  // ---------------------------------------------------------------- the middle part

  lemma {:induction false} TradesConcat(a: seq<Event>, b: seq<Event>)
    ensures Trades(a + b) == Trades(a) + Trades(b)
    decreases |a|
  {
    if a == [] {
      assert a + b == b;
    } else {
      TradesConcat(a[1..], b);
      assert (a + b)[1..] == a[1..] + b;
    }
  }

  ghost predicate FillsOf(q: seq<OrderView>, fs: seq<Fill>) {
    |fs| <= |q| && forall i :: 0 <= i < |fs| ==> fs[i].maker == q[i] && 0 < fs[i].executed <= q[i].remaining
  }

  lemma OneFillTrades(o: OrderView, f: Fill)
    ensures Trades(OneFill(o, f)) ==
            [Trade(o.id, f.maker.id, o.owner, f.maker.owner, f.maker.price, f.executed)]
  {
    var t := Trade(o.id, f.maker.id, o.owner, f.maker.owner, f.maker.price, f.executed);
    assert OneFill(o, f)[0] == t && (OneFill(o, f)[1..] == [] || OneFill(o, f)[1..] == [OrderDone(f.maker.id)]);
    assert Trades([OrderDone(f.maker.id)]) == [] by {
      assert [OrderDone(f.maker.id)][1..] == [];
    }
  }

  lemma {:induction false} TradesOfFills(o: OrderView, q: seq<OrderView>, fs: seq<Fill>)
    requires FillsOf(q, fs)
    ensures var ts := Trades(FillEvents(o, fs));
      && |ts| == |fs| && Traded(ts) == Total(fs)
      && forall i :: 0 <= i < |fs| ==> ts[i] == Trade(o.id, q[i].id, o.owner, q[i].owner, q[i].price, fs[i].executed)
    decreases |fs|
  {
    hide OneFill;
    if fs != [] {
      TradesOfFills(o, q[1..], fs[1..]);
      TradesConcat(OneFill(o, fs[0]), FillEvents(o, fs[1..]));
      OneFillTrades(o, fs[0]);
      var t, rest := Trades(OneFill(o, fs[0]))[0], Trades(FillEvents(o, fs[1..]));
      assert ([t] + rest)[1..] == rest;
    }
  }

  /** What holds at a position of the rest holds behind one more fill. */
  lemma DoneBehind(q: seq<OrderView>, first: seq<Event>, rest: seq<Event>, j: nat)
    requires q != [] && |Trades(first)| == 1 && j < |rest| && DoneAt(q[1..], rest, j)
    ensures DoneAt(q, first + rest, |first| + j)
  {
    var m, k := first + rest, |first| + j;
    assert m[k] == rest[j] && m[..k] == first + rest[..j];
    TradesConcat(first, rest[..j]);
    assert j + 1 < |rest| ==> m[k + 1] == rest[j + 1];
    assert j > 0 ==> m[k - 1] == rest[j - 1];
  }

  lemma DoneInFirst(o: OrderView, q: seq<OrderView>, f: Fill, rest: seq<Event>, j: nat)
    requires q != [] && f.maker == q[0] && j < |OneFill(o, f)| && (rest != [] ==> rest[0].Trade?)
    ensures DoneAt(q, OneFill(o, f) + rest, j)
  {
    var m := OneFill(o, f) + rest;
    assert m[..0] == [];
  }

  lemma StartsWithTrade(o: OrderView, fs: seq<Fill>)
    ensures FillEvents(o, fs) != [] ==> FillEvents(o, fs)[0].Trade?
  {
  }

  lemma {:induction false} DonesOfFills(o: OrderView, q: seq<OrderView>, fs: seq<Fill>)
    requires FillsOf(q, fs)
    ensures var m := FillEvents(o, fs); forall j :: 0 <= j < |m| ==> DoneAt(q, m, j)
    decreases |fs|
  {
    hide OneFill, DoneAt;
    if fs != [] {
      var first, rest := OneFill(o, fs[0]), FillEvents(o, fs[1..]);
      DonesOfFills(o, q[1..], fs[1..]);
      StartsWithTrade(o, fs[1..]);
      OneFillTrades(o, fs[0]);
      forall j | 0 <= j < |first + rest|
        ensures DoneAt(q, first + rest, j)
      {
        if j < |first| {
          DoneInFirst(o, q, fs[0], rest, j);
        } else {
          DoneBehind(q, first, rest, j - |first|);
        }
      }
    }
  }

  // ---------------------------------------------------------------- an accepted order

  lemma NothingApplied(b: R.Book, o: OrderView)
    requires OrderFills(b, o) == []
    ensures AfterMatching(b, o) == b && Leftover(b, o) == o.remaining
  {
    hide OrderFills;
  }

  /** The last event in terms of what was left and whether it could rest. */
  lemma EndingIs(b: R.Book, o: OrderView)
    requires R.WF(b) && o.id !in b.byId && o.remaining > 0
    ensures Ending(b, o) == LastEvent(b, o, Leftover(b, o), OrderFills(b, o) != [])
  {
    hide Q.Queue, R.WF, OrderFills, Leftover, AfterMatching;
    if Leftover(b, o) > 0 {
      if OrderFills(b, o) != [] {
        PartlyExecutedRests(b, o);
      } else {
        NothingApplied(b, o);
      }
    }
  }

  lemma MiddleReports(b: R.Book, o: OrderView)
    requires R.WF(b)
    ensures var q, m := Q.Queue(b, Opposite(o.side)), FillEvents(o, OrderFills(b, o));
      && TradesWith(q, o, Trades(m)) && |Trades(m)| == |OrderFills(b, o)|
      && Traded(Trades(m)) == Min(o.remaining, CrossingQuantity(q, o.side, o.price)) == o.remaining - Leftover(b, o)
      && forall j :: 0 <= j < |m| ==> DoneAt(q, m, j)
  {
    hide Q.Queue, R.WF, OrderFills, Leftover, FillEvents, CrossingQuantity, DoneAt, Total, Traded;
    var q, fs := Q.Queue(b, Opposite(o.side)), OrderFills(b, o);
    MatchingConserves(b, o);
    TradesOfFills(o, q, fs);
    DonesOfFills(o, q, fs);
  }

  /** What an accepted order publishes, whatever the book: the report is complete and exact. */
  lemma AcceptedReports(s: State, o: OrderView)
    requires R.WF(s.book) && o.id !in s.book.byId && o.id > s.lastOrderId && o.remaining > 0
    ensures Reports(s.book, o, LimitEffects(s, o).events)
  {
    hide Q.Queue, R.WF, OrderFills, Leftover, FillEvents, Ending, EndingReason, AfterOrder, LastEvent;
    hide TradesWith, DoneAt, Traded, Trades, CrossingQuantity;
    var m := FillEvents(o, OrderFills(s.book, o));
    MiddleReports(s.book, o);
    EndingIs(s.book, o);
    var es := ([OrderAccepted(o.id)] + m) + [Ending(s.book, o)];
    assert LimitEffects(s, o).events == es && es[1..|es| - 1] == m && es[|es| - 1] == Ending(s.book, o);
  }

  // ---------------------------------------------------------------- the book behind an accepted order

  /** The queue once these trades are made with its first orders. */
  function LeftBehind(q: seq<OrderView>, ts: seq<Event>): seq<OrderView>
    requires |ts| <= |q| && forall i :: 0 <= i < |ts| ==> ts[i].Trade? && ts[i].quantity <= q[i].remaining
    decreases |ts|
  {
    if ts == [] then q
    else if ts[0].quantity == q[0].remaining then LeftBehind(q[1..], ts[1..])
    else [q[0].(remaining := q[0].remaining - ts[0].quantity)] + LeftBehind(q[1..], ts[1..])
  }

  lemma {:induction false} BehindFills(o: OrderView, q: seq<OrderView>, fs: seq<Fill>, ts: seq<Event>)
    requires FillsOf(q, fs) && |ts| == |fs| && (forall i :: 0 <= i < |fs| - 1 ==> fs[i].executed == q[i].remaining)
    requires forall i :: 0 <= i < |ts| ==> ts[i].Trade? && ts[i].quantity == fs[i].executed
    ensures LeftBehind(q, ts) == QueueAfter(q, fs)
    decreases |fs|
  {
    if |fs| > 1 {
      assert fs[0].executed == q[0].remaining;
      BehindFills(o, q[1..], fs[1..], ts[1..]);
      assert fs[1..][|fs[1..]| - 1] == fs[|fs| - 1] && q[1..][|fs[1..]|..] == q[|fs|..];
    } else if |fs| == 1 {
      assert ts[1..] == [] && q[1..] == q[|fs|..];
    }
  }

  /** What an accepted order does to the two queues: the other side loses what its trades took; its
      own side gains the rest exactly when the last event says so. The last id is the order's. */
  lemma AcceptedChanges(s: State, o: OrderView)
    requires R.WF(s.book) && o.id !in s.book.byId && o.id > s.lastOrderId && o.remaining > 0
    ensures var e := LimitEffects(s, o);
      var m, last := e.events[1..|e.events| - 1], e.events[|e.events| - 1];
      && e.lastOrderId == o.id && e.reason == (if last.MatcherFatal? then BookInsertFailedAfterExecution else NoFatal)
      && TradesWith(Q.Queue(s.book, Opposite(o.side)), o, Trades(m))
      && Q.Queue(e.book, Opposite(o.side)) == LeftBehind(Q.Queue(s.book, Opposite(o.side)), Trades(m))
      && (if last.OrderRested? then
            exists before, after ::
              InsertedBetween(Q.Queue(s.book, o.side), Q.Queue(e.book, o.side), last.rested, before, after)
          else Q.Queue(e.book, o.side) == Q.Queue(s.book, o.side))
  {
    hide Q.Queue, R.WF, OrderFills, Leftover, FillEvents, ApplyFills, RestStatus;
    hide TradesWith, DoneAt, Traded, Trades, CrossingQuantity, QueueAfter, LeftBehind, InsertedBetween;
    var b, q, fs := s.book, Q.Queue(s.book, Opposite(o.side)), OrderFills(s.book, o);
    var m := FillEvents(o, fs);
    var es := ([OrderAccepted(o.id)] + m) + [Ending(b, o)];
    assert LimitEffects(s, o).events == es && es[1..|es| - 1] == m && es[|es| - 1] == Ending(b, o);
    MiddleReports(b, o);
    QueuesBehind(b, o);
    RestBehind(b, o);
  }

  lemma QueuesBehind(b: R.Book, o: OrderView)
    requires R.WF(b)
    ensures var q, m := Q.Queue(b, Opposite(o.side)), FillEvents(o, OrderFills(b, o));
      && TradesWith(q, o, Trades(m)) && Q.Queue(AfterMatching(b, o), Opposite(o.side)) == LeftBehind(q, Trades(m))
      && Q.Queue(AfterMatching(b, o), o.side) == Q.Queue(b, o.side) && R.WF(AfterMatching(b, o))
  {
    hide Q.Queue, R.WF, OrderFills, Leftover, FillEvents, CrossingQuantity, DoneAt, Total, Traded, QueueAfter;
    hide LeftBehind;
    var q, fs := Q.Queue(b, Opposite(o.side)), OrderFills(b, o);
    MiddleReports(b, o);
    MatchingConserves(b, o);
    TradesOfFills(o, q, fs);
    BehindFills(o, q, fs, Trades(FillEvents(o, fs)));
    QueuesAfterMatching(b, o);
    FillsApply(b, o);
  }

  lemma FillsApply(b: R.Book, o: OrderView)
    requires R.WF(b)
    ensures |OrderFills(b, o)| <= |Q.Queue(b, Opposite(o.side))|
    ensures Q.Queue(AfterMatching(b, o), Opposite(o.side)) == QueueAfter(Q.Queue(b, Opposite(o.side)), OrderFills(b, o))
  {
    hide Q.Queue, R.WF, QueueAfter, ApplyFills;
    ApplyFillsQueues(b, o.side, o.price, o.remaining);
  }

  lemma RestBehind(b: R.Book, o: OrderView)
    requires R.WF(AfterMatching(b, o)) && Q.Queue(AfterMatching(b, o), o.side) == Q.Queue(b, o.side)
    ensures Q.Queue(AfterOrder(b, o), Opposite(o.side)) == Q.Queue(AfterMatching(b, o), Opposite(o.side))
    ensures var last := Ending(b, o);
      if last.OrderRested? then
        exists before, after ::
          InsertedBetween(Q.Queue(b, o.side), Q.Queue(AfterOrder(b, o), o.side), last.rested, before, after)
      else Q.Queue(AfterOrder(b, o), o.side) == Q.Queue(b, o.side)
  {
    hide Q.Queue, R.WF, OrderFills, Leftover, AfterMatching, InsertedBetween, R.Rest;
    if Leftover(b, o) > 0 && RestStatus(b, o) == InsertOk {
      QueueAfterRest(AfterMatching(b, o), Residual(b, o));
    }
  }

  // ---------------------------------------------------------------- every other command

  /** A command that is not an accepted order has one event and leaves the queues alone, unless it
      loads an image. */
  lemma OtherEvents(s: State, c: CommandEnvelope, reply: StoreReply)
    ensures var e := CommandEffects(s, c, reply);
      match c.command
      case NewLimit(o) =>
        && (o.id <= s.lastOrderId ==>
              e.events == [MatcherFatal(NonMonotonicOrderId, o.id, s.lastOrderId)] && e.lastOrderId == s.lastOrderId
              && e.book == s.book)
        && (o.id > s.lastOrderId && o.remaining == 0 ==>
              e.events == [OrderRejected(o.id, RejectInvalidQuantity)] && e.lastOrderId == o.id && e.book == s.book)
        && (o.id > s.lastOrderId ==> e.lastOrderId == o.id)
      case SaveSnapshot =>
        && e.events
          == [if reply.captured == SnapshotOk then SnapshotSaved
              else MatcherFatal(SnapshotCaptureFailed, 0, s.lastOrderId)]
        && e.book == s.book && e.lastOrderId == s.lastOrderId
      case LoadSnapshot(saveSequence, epoch) =>
        && e.events
          == [if e.reason == NoFatal then SnapshotLoaded(saveSequence, epoch)
              else MatcherFatal(e.reason, 0, s.lastOrderId)]
        && e.lastOrderId == (if e.reason == NoFatal then reply.image.lastOrderId else s.lastOrderId)
      case Shutdown => e.events == [ShutDown] && e.book == s.book && e.lastOrderId == s.lastOrderId
      case StartReplay => e.events == [ReplayStarted] && e.book == s.book && e.lastOrderId == s.lastOrderId
      case StopReplay => e.events == [ReplayStopped] && e.book == s.book && e.lastOrderId == s.lastOrderId
      case _ =>
        && e.events == [OrderRejected(0, RejectUnknownCommand)]
        && e.book == s.book && e.lastOrderId == s.lastOrderId
  {
    hide OrderFills, AfterOrder, Ending, EndingReason, FillEvents, Q.Restore, Q.Snapshot;
  }

  /** Exactly when a load is accepted, by what the store hands out. */
  lemma LoadIsAccepted(s: State, c: CommandEnvelope, reply: StoreReply)
    requires c.command.LoadSnapshot?
    ensures CommandEffects(s, c, reply).reason == NoFatal
      <==> && reply.loaded == SnapshotOk && reply.image.config == s.config
           && reply.image.saveSequence == c.command.saveSequence && reply.image.epoch == c.command.epoch
           && Q.Loadable(s.book.config, reply.image.orders)
  {
    hide Q.Restore, Q.Loadable;
    Q.RestoresExactly(s.book, reply.image.orders);
  }

  /** The answer to the run loop: fatal with a reason, stop at a shutdown, and otherwise continue. */
  lemma StatusIs(s: State, c: CommandEnvelope, reply: StoreReply)
    requires s.reason == NoFatal
    ensures StatusOf(s, c, reply) == Fatal <==> CommandEffects(s, c, reply).reason != NoFatal
    ensures StatusOf(s, c, reply) == Stop <==> c.command.Shutdown?
    ensures Step(s, c, reply).running
      <==> s.running && !c.command.Shutdown? && CommandEffects(s, c, reply).reason == NoFatal
  {
    hide OrderFills, AfterOrder, Ending, EndingReason, FillEvents, Q.Restore, Q.Snapshot, LimitEffects;
    LimitNeverStops(s, c);
  }

  lemma LimitNeverStops(s: State, c: CommandEnvelope)
    ensures c.command.NewLimit? ==> !LimitEffects(s, c.command.order).stop
  {
  }

  // ---------------------------------------------------------------- the published log

  function Payloads(es: seq<EventEnvelope>): (events: seq<Event>)
    ensures |events| == |es|
  {
    seq(|es|, i requires 0 <= i < |es| => es[i].payload)
  }

  /** Every published envelope carries the client and sequence of its command, its own place, and the
      next event sequence. */
  lemma EnvelopesSay(s: State, c: CommandEnvelope, reply: StoreReply)
    requires s.reason == NoFatal
    ensures var es := Published(s, c, reply);
      && Payloads(es) == CommandEffects(s, c, reply).events
      && forall i :: 0 <= i < |es| ==>
           && es[i].client == c.client && es[i].commandSequence == c.sequence && es[i].index == i
           && es[i].isLast == (i == |es| - 1) && es[i].sequence == s.nextEvent + i
  {
    hide CommandEffects;
  }

  /** The published log of an accepted order is its report. */
  lemma PublishedReports(s: State, c: CommandEnvelope, reply: StoreReply)
    requires Sound(s) && s.reason == NoFatal && c.command.NewLimit?
    requires c.command.order.id > s.lastOrderId && c.command.order.remaining > 0
    ensures Reports(s.book, c.command.order, Payloads(Published(s, c, reply)))
  {
    assert R.WF(s.book) && c.command.order.id !in s.book.byId;
    hide Reports, LimitEffects, R.WF, Uncrossed, Published;
    EnvelopesSay(s, c, reply);
    AcceptedReports(s, c.command.order);
  }
}
