/** Replaying a recorded command log into the pipeline, and comparing the events of a replay with
    a recorded event log, as functions of the bytes of the logs. */
module WalReplay {
  import BookTypes
  import opened MatcherTypes
  import opened ByteWords
  import opened WalFormat
  import opened WalLog
  import opened WalScan
  import Codec = Codecs
  import P = CommandPipelines
  import opened ReplayPersistence
  import opened Sequences

  const SCHEMA: nat := 2
  const COMMAND_STREAM: nat := 1
  const EVENT_STREAM: nat := 2

  // ---------------------------------------------------------------- where a reader stands

  datatype Cursor = Cursor(next: nat, offset: nat, exhausted: bool, failure: ReadError)

  function StartCursor(c: Config): Cursor
    requires c.alignment > 0
  {
    Cursor(c.firstSequence, RecordsOffset(c), false, NoError)
  }

  function ReadOne(c: Config, bytes: seq<Byte>, at: Cursor): (ReadOutcome, Cursor)
    requires c.alignment > 0
  {
    if at.failure != NoError then (Failed(at.failure), at)
    else
      var outcome := ReadAt(c, bytes, at.offset, at.next, at.exhausted);
      match outcome
      case Record(_) =>
        (outcome,
            Cursor(if at.next == MAX_SEQUENCE then at.next else at.next + 1, at.offset + Stride(c),
                at.next == MAX_SEQUENCE, NoError))
      case EndOfLog => (outcome, at)
      case Failed(error) => (outcome, at.(failure := error))
  }

  /** Reads up to the record with the sequence `first`; `false` when that cannot be reached. */
  function SkipTo(c: Config, bytes: seq<Byte>, at: Cursor, first: nat): (bool, Cursor)
    requires c.alignment > 0 && first < U64
    decreases first - at.next
  {
    if at.next >= first then (true, at)
    else
      var (outcome, at') := ReadOne(c, bytes, at);
      if outcome.Record? then SkipTo(c, bytes, at', first) else (false, at')
  }

  // ---------------------------------------------------------------- the command source

  datatype Source = Source(isOpen: bool, cursor: Cursor, pending: BookTypes.Option<CommandEnvelope>, complete: bool,
                           last: nat)

  predicate ValidSource(c: Config, first: nat, last: nat) {
    first != 0 && last >= first && first >= c.firstSequence && c.schema == SCHEMA && c.payloadSize == Codec.COMMAND_SIZE
      && c.kind == COMMAND_STREAM
  }

  const CLOSED := Cursor(0, 0, false, NoError)

  const NEW_SOURCE := Source(false, CLOSED, BookTypes.None, false, 0)

  /** Opens the log at the record `first`. */
  function OpenSource(c: Config, bytes: seq<Byte>, s: Source, first: nat, last: nat): (ReplayStatus, Source)
    requires first < U64
  {
    if !ValidSource(c, first, last) then (ReplayStatus.InvalidConfig, s)
    else if s.isOpen || !ValidConfig(c, 1) || OpenError(c, bytes) != NoError then (WalOpenFailed, s)
    else
      var (reached, cursor) := SkipTo(c, bytes, StartCursor(c), first);
      (if reached then ReplayOk else WalReadFailed, s.(isOpen := true, cursor := cursor, last := last))
  }

  /** The next command to hand out is taken from the log unless one is pending already. */
  function Fetch(c: Config, bytes: seq<Byte>, s: Source): (r: (ReplayStatus, nat, Source))
    requires c.alignment > 0
    ensures r.0 == ReplayOk ==> r.2.pending.Some?
  {
    if s.complete then (Complete, s.last, s)
    else if s.pending.Some? then (ReplayOk, s.pending.value.sequence, s)
    else if !s.isOpen then (WalReadFailed, s.cursor.next, s)
    else
      var (outcome, cursor) := ReadOne(c, bytes, s.cursor);
      var s' := s.(cursor := cursor);
      if !outcome.Record? then (WalReadFailed, cursor.next, s')
      else if s.cursor.next > s.last then (Complete, s.last, s'.(complete := true))
      else
        match Codec.DecodeCommandV2(outcome.payload)
        case Refused(_) => (DecodeFailed, s.cursor.next, s')
        case Decoded(p) =>
          (ReplayOk, s.cursor.next, s'.(pending := BookTypes.Some(CommandEnvelope(s.cursor.next, p.client, p.message))))
  }

  /** A pending command after the pipeline's answer to it. */
  function Offer(s: Source, answer: P.Status): (ReplayStatus, nat, Source)
    requires s.pending.Some?
  {
    var sequence := s.pending.value.sequence;
    if answer == P.Full then (Backpressure, sequence, s)
    else if answer != P.Ok then (PipelineFailed, sequence, s)
    else (ReplayOk, sequence, s.(pending := BookTypes.None, complete := s.complete || sequence == s.last))
  }

  function PublishNext(c: Config, bytes: seq<Byte>, s: Source, answer: P.Status): (ReplayStatus, nat, Source)
    requires c.alignment > 0
  {
    var fetched := Fetch(c, bytes, s);
    if fetched.0 != ReplayOk then fetched else Offer(fetched.2, answer)
  }

  /** What the pipeline accepts in that call. */
  function Handed(c: Config, bytes: seq<Byte>, s: Source, answer: P.Status): seq<CommandEnvelope>
    requires c.alignment > 0
  {
    var fetched := Fetch(c, bytes, s);
    if fetched.0 == ReplayOk && answer == P.Ok then [fetched.2.pending.value] else []
  }

  /** What the pipeline has accepted after calls with the given answers. */
  function Delivered(c: Config, bytes: seq<Byte>, s: Source, answers: seq<P.Status>): seq<CommandEnvelope>
    requires c.alignment > 0
    decreases |answers|
  {
    if answers == [] then []
    else Handed(c, bytes, s, answers[0]) + Delivered(c, bytes, PublishNext(c, bytes, s, answers[0]).2, answers[1..])
  }

  function AfterAnswers(c: Config, bytes: seq<Byte>, s: Source, answers: seq<P.Status>): Source
    requires c.alignment > 0
    decreases |answers|
  {
    if answers == [] then s else AfterAnswers(c, bytes, PublishNext(c, bytes, s, answers[0]).2, answers[1..])
  }

  // ---------------------------------------------------------------- the event comparator

  datatype Comparison = Comparison(isOpen: bool, status: ReplayStatus, sequence: nat, next: nat, last: nat,
                                   cursor: Cursor)

  predicate ValidComparator(c: Config, first: nat, last: nat) {
    && first != 0 && last >= first && last != MAX_SEQUENCE && first >= c.firstSequence
    && c.schema == SCHEMA && c.payloadSize == Codec.EVENT_SIZE && c.kind == EVENT_STREAM
  }

  /** `readerOpen` says whether the reader had been opened before. */
  function OpenComparison(c: Config, bytes: seq<Byte>, s: Comparison, readerOpen: bool, first: nat,
                          last: nat): (ReplayStatus, Comparison)
    requires first < U64
  {
    if !ValidComparator(c, first, last) then (ReplayStatus.InvalidConfig, s)
    else if readerOpen || !ValidConfig(c, 1) || OpenError(c, bytes) != NoError then (WalOpenFailed, s)
    else
      var (reached, cursor) := SkipTo(c, bytes, StartCursor(c), first);
      if reached then (ReplayOk, Comparison(true, ReplayOk, 0, first, last, cursor))
      else (WalReadFailed, s.(cursor := cursor, last := last))
  }

  const NEW_COMPARISON := Comparison(false, ReplayStatus.InvalidConfig, 0, 0, 0, CLOSED)

  function PayloadOf(e: EventEnvelope): Codec.EventPayload {
    Codec.EventPayload(e.client, e.commandSequence, e.index, e.isLast, e.payload)
  }

  /** The record carries exactly this event. */
  predicate SameEvent(payload: seq<Byte>, sequence: nat, e: EventEnvelope) {
    Codec.DecodeEventV2(payload).Decoded? && sequence == e.sequence
      && Codec.EncodeEventV2(PayloadOf(e)) == (Codec.Ok, payload)
  }

  /** Whether the event is accepted; anything but the next recorded event is refused for good. */
  function Compare(c: Config, bytes: seq<Byte>, s: Comparison, e: EventEnvelope): (bool, Comparison)
    requires c.alignment > 0
  {
    if !s.isOpen || s.status != ReplayOk || s.next > s.last
      then (false, s.(status := UnexpectedEvent, sequence := e.sequence))
    else
      var (outcome, cursor) := ReadOne(c, bytes, s.cursor);
      var s' := s.(cursor := cursor, sequence := e.sequence);
      if !outcome.Record? then (false, s'.(status := ExpectedEventMissing))
      else if !SameEvent(outcome.payload, s.cursor.next, e) then (false, s'.(status := EventMismatch))
      else (true, s'.(next := s.next + 1))
  }

  function Finish(s: Comparison): Comparison {
    if !s.isOpen || s.status != ReplayOk then s
    else if s.next != s.last + 1 then s.(status := ExpectedEventMissing, sequence := s.next)
    else s.(status := Complete)
  }

  function CompareAll(c: Config, bytes: seq<Byte>, s: Comparison, events: seq<EventEnvelope>): Comparison
    requires c.alignment > 0
    decreases |events|
  {
    if events == [] then s else CompareAll(c, bytes, Compare(c, bytes, s, events[0]).1, events[1..])
  }

  /** The verdict on a stream of events. */
  function Verdict(c: Config, bytes: seq<Byte>, s: Comparison, events: seq<EventEnvelope>): ReplayStatus
    requires c.alignment > 0
  {
    Finish(CompareAll(c, bytes, s, events)).status
  }
}
