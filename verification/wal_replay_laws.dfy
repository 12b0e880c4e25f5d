/** What replaying from recorded logs amounts to: the source delivers the recorded commands, each
    once and in order, and the comparator accepts exactly the recorded events. */
module WalReplayLaws {
  import BookTypes
  import opened MatcherTypes
  import opened ByteWords
  import opened WalFormat
  import opened WalLog
  import opened WalScan
  import opened WalScanLaws
  import Recovery = WalRecovery
  import Codec = Codecs
  import CodecLayout
  import P = CommandPipelines
  import opened ReplayPersistence
  import opened WalReplay
  import M = MatcherSpec
  import Sound = MatcherLaws
  import R = ReferenceBooks
  import Laws = ReplayLaws
  import opened Sequences

  // ---------------------------------------------------------------- reading a well-formed log

  /** The reader before record `k` of a log. */
  function CursorAt(c: Config, k: nat): Cursor
    requires c.alignment > 0
  {
    var next := c.firstSequence + k;
    Cursor(if next > MAX_SEQUENCE then MAX_SEQUENCE else next, RecordsOffset(c) + Span(c, k), next > MAX_SEQUENCE,
        NoError)
  }

  /** Record by record, and then the end. */
  lemma ReadRecord(c: Config, payloads: seq<seq<Byte>>, k: nat)
    requires c.alignment > 0 && Writable(c, payloads) && k <= |payloads|
    ensures ReadOne(c, LogBytes(c, payloads), CursorAt(c, k)) ==
            if k < |payloads| then (Record(payloads[k]), CursorAt(c, k + 1)) else (EndOfLog, CursorAt(c, k))
  {
    hide LogBytes, RecordsOffset, Span, Stride, ReadAt;
    if k < |payloads| {
      Recovery.RecordReadsBack(c, payloads, k);
      SpanStep(c, k);
    } else {
      Recovery.LogSize(c, payloads, k);
      assert payloads[..k] == payloads;
      ReadEnd(c, LogBytes(c, payloads), CursorAt(c, k).offset, CursorAt(c, k).next, CursorAt(c, k).exhausted);
    }
  }

  /** Opening stands at the wanted record if the log has all those before it, and only then. */
  lemma {:induction false} SkipReaches(c: Config, payloads: seq<seq<Byte>>, k: nat, first: nat)
    requires c.alignment > 0 && Writable(c, payloads) && k <= |payloads| && c.firstSequence + k <= first < U64
    ensures var n := first - c.firstSequence;
            SkipTo(c, LogBytes(c, payloads), CursorAt(c, k), first) ==
            if n <= |payloads| then (true, CursorAt(c, n)) else (false, CursorAt(c, |payloads|))
    decreases first - k
  {
    hide LogBytes, RecordsOffset, Span, ReadOne;
    ReadRecord(c, payloads, k);
    if c.firstSequence + k < first && k < |payloads| {
      SkipReaches(c, payloads, k + 1, first);
    }
  }

  lemma StartsAtFirst(c: Config)
    requires c.alignment > 0 && c.firstSequence < U64
    ensures StartCursor(c) == CursorAt(c, 0)
  {
    hide RecordsOffset;
  }

  // ---------------------------------------------------------------- the source

  /** The payloads are the canonical encodings of these commands. */
  ghost predicate RecordsCommands(payloads: seq<seq<Byte>>, commands: seq<Codec.CommandPayload>) {
    && |payloads| == |commands|
    && forall i ::
      0 <= i < |commands| ==>
        Codec.EncodableCommand(commands[i]) && Codec.EncodeCommandV2(commands[i]) == (Codec.Ok, payloads[i])
  }

  /** The commands with their recorded sequences. */
  function Envelopes(c: Config, commands: seq<Codec.CommandPayload>): (e: seq<CommandEnvelope>)
    ensures |e| == |commands|
  {
    seq(|commands|,
        i requires 0 <= i < |commands| => CommandEnvelope(c.firstSequence + i, commands[i].client, commands[i].message))
  }

  /** How many commands of the log lie in the range that ends at `last`. */
  function Limit(c: Config, commands: seq<Codec.CommandPayload>, last: nat): nat {
    if last + 1 < c.firstSequence then 0
    else if last + 1 - c.firstSequence < |commands| then last + 1 - c.firstSequence
    else |commands|
  }

  /** The source whose next command to deliver is number `k`. */
  ghost predicate Stands(c: Config, commands: seq<Codec.CommandPayload>, last: nat, k: nat, s: Source)
    requires c.alignment > 0
  {
    && s.isOpen && s.last == last && k <= Limit(c, commands, last) && c.firstSequence <= last
    && s.complete == (c.firstSequence + k == last + 1)
    && (s.complete ==> s.pending == BookTypes.None)
    && (!s.complete ==>
          || (s.pending == BookTypes.None && s.cursor == CursorAt(c, k))
          || (k < |commands| && s.pending == BookTypes.Some(Envelopes(c, commands)[k])
              && s.cursor == CursorAt(c, k + 1)))
  }

  function Accepted(answers: seq<P.Status>): nat {
    if answers == [] then 0 else (if answers[0] == P.Ok then 1 else 0) + Accepted(answers[1..])
  }

  /** Fetching takes the next recorded command, once. */
  lemma FetchNext(c: Config, payloads: seq<seq<Byte>>, commands: seq<Codec.CommandPayload>, last: nat, k: nat,
                  s: Source)
    requires c.alignment > 0 && Writable(c, payloads) && RecordsCommands(payloads, commands)
      && Stands(c, commands, last, k, s)
    ensures var r := Fetch(c, LogBytes(c, payloads), s);
            if k < Limit(c, commands, last) then
              r.0 == ReplayOk
                && r.2 == s.(pending := BookTypes.Some(Envelopes(c, commands)[k]), cursor := CursorAt(c, k + 1))
            else r.0 == (if s.complete then Complete else WalReadFailed) && r.2 == s
  {
    hide LogBytes, ReadOne, CursorAt, Writable, Codec.DecodeCommandV2, Codec.EncodeCommandV2, Codec.EncodableCommand;
    ReadRecord(c, payloads, k);
    NextIs(c, payloads, k);
    if k < |commands| {
      Codec.CommandRoundTrip(commands[k]);
    }
  }

  lemma NextIs(c: Config, payloads: seq<seq<Byte>>, k: nat)
    requires c.alignment > 0 && Writable(c, payloads)
    ensures k < |payloads| ==> CursorAt(c, k).next == c.firstSequence + k
  {
  }

  /** One call, whatever the pipeline answers: a refused command stays pending and an accepted one
      is gone. */
  lemma DeliverNext(c: Config, payloads: seq<seq<Byte>>, commands: seq<Codec.CommandPayload>, last: nat, k: nat,
                    s: Source, answer: P.Status)
    requires c.alignment > 0 && Writable(c, payloads) && RecordsCommands(payloads, commands)
      && Stands(c, commands, last, k, s)
    ensures var (log, more) := (LogBytes(c, payloads), k < Limit(c, commands, last));
            && Handed(c, log, s, answer) == (if more && answer == P.Ok then [Envelopes(c, commands)[k]] else [])
            && Stands(c, commands, last, if more && answer == P.Ok then k + 1 else k, PublishNext(c, log, s, answer).2)
            && PublishNext(c, log, s, answer).0 == (
                 if s.complete then Complete else if !more then WalReadFailed
                 else if answer == P.Ok then ReplayOk else if answer == P.Full then Backpressure else PipelineFailed)
            && (more ==> PublishNext(c, log, s, answer).1 == c.firstSequence + k)
  {
    hide LogBytes, Fetch, CursorAt, Writable, RecordsCommands;
    FetchNext(c, payloads, commands, last, k, s);
  }

  /** For every sequence of answers, the pipeline accepts the recorded commands of the range in
      order, each exactly once, as many as it said yes to. */
  lemma {:induction false} DeliversInOrder(c: Config, payloads: seq<seq<Byte>>, commands: seq<Codec.CommandPayload>,
                                           last: nat, k: nat, s: Source, answers: seq<P.Status>)
    requires c.alignment > 0 && Writable(c, payloads) && RecordsCommands(payloads, commands)
      && Stands(c, commands, last, k, s)
    ensures var limit := Limit(c, commands, last);
            var end := if k + Accepted(answers) < limit then k + Accepted(answers) else limit;
            && Delivered(c, LogBytes(c, payloads), s, answers) == Envelopes(c, commands)[k..end]
            && Stands(c, commands, last, end, AfterAnswers(c, LogBytes(c, payloads), s, answers))
    decreases |answers|
  {
    hide LogBytes, Handed, PublishNext, Stands, Writable, RecordsCommands, Envelopes;
    LimitInside(c, commands, last, k, s);
    if answers != [] {
      var more := k < Limit(c, commands, last) && answers[0] == P.Ok;
      DeliverNext(c, payloads, commands, last, k, s, answers[0]);
      DeliversInOrder(c, payloads, commands, last, if more then k + 1 else k,
          PublishNext(c, LogBytes(c, payloads), s, answers[0]).2, answers[1..]);
      if more {
        OneThenMore(Envelopes(c, commands), k, Limit(c, commands, last), Accepted(answers[1..]));
      }
    }
  }

  lemma OneThenMore(e: seq<CommandEnvelope>, k: nat, limit: nat, more: nat)
    requires k < limit <= |e|
    ensures var end := if k + 1 + more < limit then k + 1 + more else limit;
            [e[k]] + e[k + 1..end] == e[k..end]
  {
  }

  lemma LimitInside(c: Config, commands: seq<Codec.CommandPayload>, last: nat, k: nat, s: Source)
    requires c.alignment > 0 && Stands(c, commands, last, k, s)
    ensures k <= Limit(c, commands, last) <= |commands|
  {
  }

  /** A well-formed log opens, and reaches the record `first` if it has all those before it. */
  lemma OpensAt(c: Config, payloads: seq<seq<Byte>>, first: nat)
    requires c.alignment > 0 && Writable(c, payloads) && c.firstSequence <= first < U64
    ensures OpenError(c, LogBytes(c, payloads)) == NoError
    ensures var n := first - c.firstSequence;
            SkipTo(c, LogBytes(c, payloads), StartCursor(c), first) ==
            if n <= |payloads| then (true, CursorAt(c, n)) else (false, CursorAt(c, |payloads|))
  {
    hide LogBytes, CursorAt, OpenError, SkipTo, StartCursor;
    Recovery.LogParts(c, payloads);
    OpenWhole(c, LogBytes(c, payloads));
    StartsAtFirst(c);
    SkipReaches(c, payloads, 0, first);
  }

  /** A new source opened on a well-formed command log stands at the record `first`, or the log
      ends before it. */
  lemma OpenedSource(c: Config, payloads: seq<seq<Byte>>, commands: seq<Codec.CommandPayload>, first: nat, last: nat)
    requires c.alignment > 0 && Writable(c, payloads) && RecordsCommands(payloads, commands)
    requires ValidSource(c, first, last) && first < U64
    ensures var (status, s) := OpenSource(c, LogBytes(c, payloads), NEW_SOURCE, first, last);
            && status == (if first - c.firstSequence <= |commands| then ReplayOk else WalReadFailed)
            && (status == ReplayOk ==> Stands(c, commands, last, first - c.firstSequence, s))
  {
    hide LogBytes, CursorAt, OpenError, SkipTo, StartCursor;
    OpensAt(c, payloads, first);
  }

  /** Replay from opening on: whatever the pipeline answers, it is handed the recorded commands
      `first .. last`, in order and each exactly once, one for every time it accepts. */
  lemma ReplayDelivers(c: Config, payloads: seq<seq<Byte>>, commands: seq<Codec.CommandPayload>, first: nat, last: nat,
                       answers: seq<P.Status>)
    requires c.alignment > 0 && Writable(c, payloads) && RecordsCommands(payloads, commands)
    requires ValidSource(c, first, last) && first < U64 && first - c.firstSequence <= |commands|
    ensures var (status, s) := OpenSource(c, LogBytes(c, payloads), NEW_SOURCE, first, last);
            var (k, limit) := (first - c.firstSequence, Limit(c, commands, last));
            var end := if k + Accepted(answers) < limit then k + Accepted(answers) else limit;
            && status == ReplayOk && k <= limit
            && Delivered(c, LogBytes(c, payloads), s, answers) == Envelopes(c, commands)[k..end]
            && AfterAnswers(c, LogBytes(c, payloads), s, answers).complete == (c.firstSequence + end == last + 1)
  {
    hide LogBytes, OpenSource, Delivered, AfterAnswers, Writable, RecordsCommands, Envelopes, CursorAt;
    OpenedSource(c, payloads, commands, first, last);
    var s := OpenSource(c, LogBytes(c, payloads), NEW_SOURCE, first, last).1;
    DeliversInOrder(c, payloads, commands, last, first - c.firstSequence, s, answers);
  }

  ghost predicate IsCommand(payload: seq<Byte>) {
    exists p :: Codec.EncodableCommand(p) && Codec.EncodeCommandV2(p) == (Codec.Ok, payload)
  }

  /** What a source before record `k` of any log answers when nothing is pending. A record that is no
      command is reported and passed over: nothing is handed on, and the next call reads the record
      behind it. The record behind the last one asked for is read before the source is complete. */
  lemma FetchAnswers(c: Config, payloads: seq<seq<Byte>>, k: nat, s: Source, answer: P.Status)
    requires c.alignment > 0 && Writable(c, payloads) && k <= |payloads|
    requires s.isOpen && !s.complete && s.pending == BookTypes.None && s.cursor == CursorAt(c, k)
    ensures var log := LogBytes(c, payloads); var (status, sequence, s') := PublishNext(c, log, s, answer);
      if k == |payloads| then status == WalReadFailed && s' == s && sequence == s.cursor.next
      else if c.firstSequence + k > s.last then status == Complete && s'.complete && sequence == s.last
      else
        && sequence == c.firstSequence + k && s'.cursor == CursorAt(c, k + 1)
        && (status == DecodeFailed <==> !IsCommand(payloads[k]))
        && (status == DecodeFailed ==> s'.pending == BookTypes.None && !s'.complete && Handed(c, log, s, answer) == [])
        && (status != DecodeFailed ==>
              status == if answer == P.Ok then ReplayOk else if answer == P.Full then Backpressure else PipelineFailed)
  {
    hide LogBytes, ReadOne, CursorAt, Writable, Codec.DecodeCommandV2, Codec.EncodeCommandV2, Codec.EncodableCommand;
    ReadRecord(c, payloads, k);
    NextIs(c, payloads, k);
    if k < |payloads| {
      CodecLayout.CommandAccepted(payloads[k]);
    }
  }

  /** What opening answers to bad arguments, a second opening and a bad log, in this order. */
  lemma OpenAnswers(c: Config, bytes: seq<Byte>, s: Source, first: nat, last: nat)
    requires first < U64
    ensures var (status, s') := OpenSource(c, bytes, s, first, last);
      && (status == ReplayStatus.InvalidConfig
          <==> || first == 0 || last < first || first < c.firstSequence || c.schema != 2 || c.payloadSize != 48
               || c.kind != 1)
      && (status == WalOpenFailed
          <==> && status != ReplayStatus.InvalidConfig
               && (s.isOpen || !ValidConfig(c, 1) || OpenError(c, bytes) != NoError))
      && (status in {ReplayStatus.InvalidConfig, WalOpenFailed} ==> s' == s)
      && (status in {ReplayOk, WalReadFailed} ==> s'.isOpen && s'.last == last)
  {
    hide OpenError, SkipTo, StartCursor, ValidConfig;
  }

  // ---------------------------------------------------------------- the comparator

  /** The events are the records `k ..` of the log, up to the sequence `last`. */
  ghost predicate Recorded(c: Config, payloads: seq<seq<Byte>>, last: nat, k: nat, events: seq<EventEnvelope>) {
    && last < c.firstSequence + |payloads| && c.firstSequence + k + |events| == last + 1
    && forall i :: 0 <= i < |events| ==> IsRecord(c, payloads, k + i, events[i])
  }

  ghost predicate IsRecord(c: Config, payloads: seq<seq<Byte>>, k: nat, e: EventEnvelope) {
    k < |payloads| && e.sequence == c.firstSequence + k && Codec.EncodeEventV2(PayloadOf(e)) == (Codec.Ok, payloads[k])
  }

  /** The comparator before record `k`. */
  predicate Awaits(c: Config, last: nat, k: nat, s: Comparison)
    requires c.alignment > 0
  {
    s.isOpen && s.status == ReplayOk && s.last == last && s.next == c.firstSequence + k && s.cursor == CursorAt(c, k)
  }

  predicate Broken(s: Comparison) {
    s.status != ReplayOk && s.status != Complete
  }

  lemma {:induction false} BrokenForGood(c: Config, bytes: seq<Byte>, s: Comparison, events: seq<EventEnvelope>)
    requires c.alignment > 0 && Broken(s)
    ensures Broken(CompareAll(c, bytes, s, events)) && Verdict(c, bytes, s, events) != Complete
    decreases |events|
  {
    hide ReadOne;
    if events != [] {
      BrokenForGood(c, bytes, Compare(c, bytes, s, events[0]).1, events[1..]);
    }
  }

  /** One event is accepted exactly when it is the next record. */
  lemma CompareOne(c: Config, payloads: seq<seq<Byte>>, last: nat, k: nat, s: Comparison, e: EventEnvelope)
    requires c.alignment > 0 && Writable(c, payloads) && k <= |payloads| && last < MAX_SEQUENCE && Awaits(c, last, k, s)
    requires Codec.EncodableEvent(PayloadOf(e))
    ensures var (ok, s') := Compare(c, LogBytes(c, payloads), s, e);
            && ok == (c.firstSequence + k <= last && IsRecord(c, payloads, k, e))
            && (if ok then Awaits(c, last, k + 1, s') else Broken(s'))
            && s'.sequence == e.sequence
            && s'.status == (if ok then ReplayOk else if c.firstSequence + k > last then UnexpectedEvent
                             else if k == |payloads| then ExpectedEventMissing else EventMismatch)
  {
    hide LogBytes, ReadOne, CursorAt, Writable, Codec.DecodeEventV2, Codec.EncodeEventV2, Codec.EncodableEvent;
    hide PayloadOf;
    ReadRecord(c, payloads, k);
    NextIs(c, payloads, k);
    Codec.EventRoundTrip(PayloadOf(e));
  }

  /** Ending a comparison that awaits record `k`. */
  lemma FinishAnswers(c: Config, last: nat, k: nat, s: Comparison)
    requires c.alignment > 0 && Awaits(c, last, k, s)
    ensures Finish(s).status == (if c.firstSequence + k == last + 1 then Complete else ExpectedEventMissing)
    ensures c.firstSequence + k != last + 1 ==> Finish(s).sequence == c.firstSequence + k
  {
  }

  /** The comparator is exact: a stream of events passes if and only if it is the recorded one,
      event for event, from the first to the last sequence asked for. */
  lemma {:induction false} ComparatorIsExact(c: Config, payloads: seq<seq<Byte>>, last: nat, k: nat, s: Comparison,
                                             events: seq<EventEnvelope>)
    requires c.alignment > 0 && Writable(c, payloads) && k <= |payloads| && last < MAX_SEQUENCE
      && c.firstSequence + k <= last + 1
    requires Awaits(c, last, k, s) && forall i :: 0 <= i < |events| ==> Codec.EncodableEvent(PayloadOf(events[i]))
    ensures Verdict(c, LogBytes(c, payloads), s, events) == Complete <==> Recorded(c, payloads, last, k, events)
    decreases |events|
  {
    hide LogBytes, Compare, IsRecord, Writable, Codec.EncodableEvent, PayloadOf, CursorAt;
    if events != [] {
      var e, rest := events[0], events[1..];
      var (ok, s') := Compare(c, LogBytes(c, payloads), s, e);
      CompareOne(c, payloads, last, k, s, e);
      if ok {
        RecordIsThere(c, payloads, k, e);
        ComparatorIsExact(c, payloads, last, k + 1, s', rest);
        RecordedStep(c, payloads, last, k, events);
      } else {
        BrokenForGood(c, LogBytes(c, payloads), s', rest);
      }
    }
  }

  lemma RecordIsThere(c: Config, payloads: seq<seq<Byte>>, k: nat, e: EventEnvelope)
    requires IsRecord(c, payloads, k, e)
    ensures k < |payloads|
  {
  }

  lemma RecordedStep(c: Config, payloads: seq<seq<Byte>>, last: nat, k: nat, events: seq<EventEnvelope>)
    requires events != [] && IsRecord(c, payloads, k, events[0])
    ensures Recorded(c, payloads, last, k, events) <==> Recorded(c, payloads, last, k + 1, events[1..])
  {
    hide IsRecord;
    var rest := events[1..];
    if Recorded(c, payloads, last, k + 1, rest) {
      forall i | 0 <= i < |events|
        ensures IsRecord(c, payloads, k + i, events[i])
      {
        if i > 0 {
          assert IsRecord(c, payloads, k + 1 + (i - 1), rest[i - 1]);
        }
      }
    }
    if Recorded(c, payloads, last, k, events) {
      forall i | 0 <= i < |rest|
        ensures IsRecord(c, payloads, k + 1 + i, rest[i])
      {
        assert IsRecord(c, payloads, k + (i + 1), events[i + 1]);
      }
    }
  }

  /** A new comparator opened on a well-formed event log awaits the record `first`, or the log
      ends before it. */
  lemma OpenedComparison(c: Config, payloads: seq<seq<Byte>>, first: nat, last: nat)
    requires c.alignment > 0 && Writable(c, payloads) && ValidComparator(c, first, last) && last < U64
    ensures var (status, s) := OpenComparison(c, LogBytes(c, payloads), NEW_COMPARISON, false, first, last);
            && status == (if first - c.firstSequence <= |payloads| then ReplayOk else WalReadFailed)
            && (status == ReplayOk ==> Awaits(c, last, first - c.firstSequence, s))
  {
    hide LogBytes, CursorAt, OpenError, SkipTo, StartCursor;
    OpensAt(c, payloads, first);
  }

  /** From opening on: a stream of events passes if and only if it is the recorded one from
      `first` to `last`, event for event. */
  lemma VerdictIsExact(c: Config, payloads: seq<seq<Byte>>, first: nat, last: nat, events: seq<EventEnvelope>)
    requires c.alignment > 0 && Writable(c, payloads) && ValidComparator(c, first, last) && last < U64
    requires first - c.firstSequence <= |payloads|
    requires forall i :: 0 <= i < |events| ==> Codec.EncodableEvent(PayloadOf(events[i]))
    ensures var (status, s) := OpenComparison(c, LogBytes(c, payloads), NEW_COMPARISON, false, first, last);
            && status == ReplayOk
            && (Verdict(c, LogBytes(c, payloads), s, events) == Complete
                <==> Recorded(c, payloads, last, first - c.firstSequence, events))
  {
    hide LogBytes, OpenComparison, Verdict, Recorded, Writable, Awaits, Codec.EncodableEvent, PayloadOf;
    OpenedComparison(c, payloads, first, last);
    var s := OpenComparison(c, LogBytes(c, payloads), NEW_COMPARISON, false, first, last).1;
    ComparatorIsExact(c, payloads, last, first - c.firstSequence, s, events);
  }

  // ---------------------------------------------------------------- replay and comparison together

  /** End to end: when the event log recorded what the commands after a save published, replaying
      them from the saved image passes the comparison. */
  lemma ReplayPassesComparison(s: M.State, save: M.Input, t: M.State, start: M.Input, load: M.Input,
                               inputs: seq<M.Input>, c: Config, payloads: seq<seq<Byte>>, first: nat, last: nat)
    requires R.WF(s.book) && s.book.config == s.config && Laws.Saves(s, save)
    requires t.reason == NoFatal && t.mode == Live && t.config == s.config && t.book.config == s.config
    requires start.command.command.StartReplay? && Laws.LoadsSave(s, save, load) && Sound.NoLoads(inputs)
    requires c.alignment > 0 && Writable(c, payloads) && ValidComparator(c, first, last) && last < U64
    requires first - c.firstSequence <= |payloads|
    requires var log := M.Log(M.Run(s, [save]), inputs);
             && Recorded(c, payloads, last, first - c.firstSequence, log)
             && forall i :: 0 <= i < |log| ==> Codec.EncodableEvent(PayloadOf(log[i]))
    ensures var comparison := OpenComparison(c, LogBytes(c, payloads), NEW_COMPARISON, false, first, last).1;
            Verdict(c, LogBytes(c, payloads), comparison, M.Log(M.Run(t, [start, load]), inputs)) == Complete
  {
    hide R.WF, M.Run, M.Log, Laws.Saves, Laws.LoadsSave, Sound.NoLoads, Writable, LogBytes, Recorded, OpenComparison;
    hide Verdict;
    hide Codec.EncodableEvent, PayloadOf;
    Laws.ExactReplay(s, save, t, start, load, inputs);
    VerdictIsExact(c, payloads, first, last, M.Log(M.Run(s, [save]), inputs));
  }
}
