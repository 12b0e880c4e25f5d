/** The replay source and the event comparator, call by call, over a validating reader. */
module WalReplayIo {
  import BookTypes
  import opened MatcherTypes
  import opened ByteWords
  import opened WalFormat
  import opened WalLog
  import opened WalScan
  import opened WalIo
  import Codec = Codecs
  import CodecIo
  import P = CommandPipelines
  import Ring = CommandRing
  import opened ReplayPersistence
  import opened WalReplay

  ghost function CursorOf(reader: WalReader): Cursor
    reads reader
  {
    Cursor(reader.nextSequence, reader.nextOffset, reader.sequenceExhausted, reader.failure)
  }

  /** The configuration a reader reads by; before it is open, nothing is read. */
  ghost function ReadsAs(reader: WalReader): (c: Config)
    reads reader
    ensures reader.isOpen && reader.config.alignment > 0 ==> c == reader.config
    ensures c.alignment > 0
  {
    if reader.isOpen && reader.config.alignment > 0 then reader.config else Config(1, 8, SCHEMA, 0, 0, 0, 1, 0)
  }

  method ReadFrom(reader: WalReader) returns (outcome: ReadOutcome, sequence: nat)
    requires reader.Ready() && reader.config.alignment > 0
    modifies reader
    ensures reader.Ready() && reader.config == old(reader.config)
    ensures (outcome, CursorOf(reader)) == ReadOne(reader.config, reader.file.bytes, old(CursorOf(reader)))
    ensures outcome.Record? ==> sequence == old(reader.nextSequence)
  {
    hide ReadAt, ValidConfig, Stride;
    var status;
    status, outcome, sequence := reader.ReadNext(reader.config.payloadSize);
  }

  /** Opens the reader and passes over the records before `first`. */
  method OpenAt(reader: WalReader, expected: Config, first: nat) returns (status: ReplayStatus)
    requires first < U64
    modifies reader
    ensures status == WalOpenFailed
      <==> old(reader.isOpen) || !ValidConfig(expected, 1) || OpenError(expected, reader.file.bytes) != NoError
    ensures status == WalOpenFailed ==>
      reader.isOpen == old(reader.isOpen) && reader.config == old(reader.config)
        && CursorOf(reader) == old(CursorOf(reader))
      && (reader.isOpen ==> unchanged(reader))
    ensures status != WalOpenFailed ==>
      && reader.Ready() && reader.config == expected && expected.alignment > 0
      && (status == ReplayOk, CursorOf(reader)) == SkipTo(expected, reader.file.bytes, StartCursor(expected), first)
      && (status == ReplayOk || status == WalReadFailed)
  {
    hide ReadOne, ReadAt, ValidConfig, OpenError, RecordsOffset;
    var opening, _ := reader.Open(expected);
    if opening != ReaderOpened {
      return WalOpenFailed;
    }
    ghost var c, bytes := reader.config, reader.file.bytes;
    while reader.nextSequence < first
      invariant reader.Ready() && reader.config == c && c.alignment > 0
      invariant SkipTo(c, bytes, CursorOf(reader), first) == SkipTo(c, bytes, StartCursor(c), first)
      decreases first - reader.nextSequence
    {
      ghost var before := CursorOf(reader);
      var outcome, _ := ReadFrom(reader);
      Advances(c, bytes, before, first);
      if !outcome.Record? {
        return WalReadFailed;
      }
    }
    return ReplayOk;
  }

  /** Each record passed over brings the reader closer. */
  lemma Advances(c: Config, bytes: seq<Byte>, at: Cursor, first: nat)
    requires c.alignment > 0 && at.next < first < U64
    ensures ReadOne(c, bytes, at).0.Record? ==> ReadOne(c, bytes, at).1.next == at.next + 1
    ensures SkipTo(c, bytes, at, first)
      == (if ReadOne(c, bytes, at).0.Record? then SkipTo(c, bytes, ReadOne(c, bytes, at).1, first)
          else (false, ReadOne(c, bytes, at).1))
  {
    hide ReadAt, Stride;
  }

  // ---------------------------------------------------------------- the command source

  /** What the pipeline answers to the replay of a command with this sequence. */
  ghost function AnswerTo(pipeline: P.CommandPipeline, sequence: nat): P.Status
    reads pipeline
  {
    if !pipeline.isOpen then P.Closed
    else if pipeline.persistenceFailed then P.PersistenceFailed
    else if sequence == 0 then P.InvalidSequence
    else if pipeline.head - pipeline.tail == pipeline.slots.Length then P.Full
    else P.Ok
  }

  class WalFileReplaySource {
    const reader: WalReader
    var pending: BookTypes.Option<CommandEnvelope>
    var firstSequence: nat
    var lastSequence: nat
    var complete: bool

    ghost predicate Valid()
      reads this, reader, reader.file
    {
      reader.isOpen ==> reader.Ready() && reader.config.alignment > 0
    }

    ghost function Now(): Source
      reads this, reader
    {
      Source(reader.isOpen, CursorOf(reader), pending, complete, lastSequence)
    }

    constructor (file: LogFile)
      ensures Valid() && Now() == NEW_SOURCE && fresh(reader) && reader.file == file
    {
      reader := new WalReader(file);
      pending := BookTypes.None;
      firstSequence, lastSequence := 0, 0;
      complete := false;
    }

    method Open(expected: Config, first: nat, last: nat) returns (status: ReplayStatus)
      requires Valid() && first < U64 && last < U64
      modifies this, reader
      ensures Valid() && (status, Now()) == OpenSource(expected, reader.file.bytes, old(Now()), first, last)
      ensures status == ReplayOk ==> ReadsAs(reader) == expected
    {
      hide ValidConfig, OpenError, SkipTo;
      if !ValidSource(expected, first, last) {
        return ReplayStatus.InvalidConfig;
      }
      status := OpenAt(reader, expected, first);
      if status != WalOpenFailed {
        firstSequence, lastSequence := first, last;
      }
    }

    /** Takes the next command from the log, unless one is waiting. */
    method FetchNext() returns (status: ReplayStatus, sequence: nat)
      requires Valid()
      modifies this, reader
      ensures Valid() && reader.config == old(reader.config) && reader.isOpen == old(reader.isOpen)
      ensures (status, sequence, Now()) == Fetch(ReadsAs(reader), reader.file.bytes, old(Now()))
      ensures status in {ReplayOk, ReplayStatus.Complete, WalReadFailed, DecodeFailed}
      ensures status == ReplayOk ==> pending.Some? && !complete && sequence == pending.value.sequence
    {
      hide ReadOne, ValidConfig, Codec.DecodeCommandV2;
      if complete {
        return ReplayStatus.Complete, lastSequence;
      }
      if pending.Some? {
        return ReplayOk, pending.value.sequence;
      }
      if !reader.isOpen {
        return WalReadFailed, reader.nextSequence;
      }
      var outcome, read := ReadFrom(reader);
      if !outcome.Record? {
        return WalReadFailed, reader.nextSequence;
      }
      if read > lastSequence {
        complete := true;
        return ReplayStatus.Complete, lastSequence;
      }
      var decoded := CodecIo.DecodeCommand(true, outcome.payload);
      if decoded.Refused? {
        return DecodeFailed, read;
      }
      pending := BookTypes.Some(CommandEnvelope(read, decoded.payload.client, decoded.payload.message));
      return ReplayOk, read;
    }

    /** Hands the next recorded command to the pipeline; one that finds no room is kept. */
    method PublishNextCommand(pipeline: P.CommandPipeline)
        returns (status: ReplayStatus, sequence: nat, ghost answer: P.Status)
      requires Valid() && pipeline.Valid()
      modifies this, reader, pipeline, pipeline.slots
      ensures Valid() && pipeline.Valid() && reader.config == old(reader.config)
      ensures (status, sequence, Now()) == PublishNext(ReadsAs(reader), reader.file.bytes, old(Now()), answer)
      ensures pipeline.sys.h.published
        == old(pipeline.sys.h.published) + Handed(ReadsAs(reader), reader.file.bytes, old(Now()), answer)
      ensures status in {ReplayOk, Backpressure, PipelineFailed} ==>
        answer == old(AnswerTo(pipeline, sequence))
      ensures pipeline.nextLive == old(pipeline.nextLive)
        && pipeline.sequenceExhausted == old(pipeline.sequenceExhausted)
    {
      hide Fetch, ValidConfig, Ring.Inv, P.Quiet;
      answer := P.Ok;
      status, sequence := FetchNext();
      if status != ReplayOk {
        return;
      }
      var result := pipeline.TryReplay(pending.value);
      answer := result.status;
      if result.status == P.Full {
        return Backpressure, pending.value.sequence, answer;
      }
      if result.status != P.Ok {
        return PipelineFailed, pending.value.sequence, answer;
      }
      sequence := pending.value.sequence;
      pending := BookTypes.None;
      if sequence == lastSequence {
        complete := true;
      }
      return ReplayOk, sequence, answer;
    }
  }

  // ---------------------------------------------------------------- the event comparator

  class EventWalComparator {
    const reader: WalReader
    var firstSequence: nat
    var lastSequence: nat
    var nextSequence: nat
    var status: ReplayStatus
    var sequence: nat
    var isOpen: bool

    ghost predicate Valid()
      reads this, reader, reader.file
    {
      (isOpen ==> reader.isOpen) && (reader.isOpen ==> reader.Ready() && reader.config.alignment > 0)
    }

    ghost function Now(): Comparison
      reads this, reader
    {
      Comparison(isOpen, status, sequence, nextSequence, lastSequence, CursorOf(reader))
    }

    constructor (file: LogFile)
      ensures Valid() && Now() == NEW_COMPARISON && !reader.isOpen && fresh(reader) && reader.file == file
    {
      reader := new WalReader(file);
      firstSequence, lastSequence, nextSequence, sequence := 0, 0, 0, 0;
      status := ReplayStatus.InvalidConfig;
      isOpen := false;
    }

    method Open(expected: Config, first: nat, last: nat) returns (result: ReplayStatus)
      requires Valid() && first < U64 && last < U64
      modifies this, reader
      ensures Valid()
      ensures (result, Now())
        == OpenComparison(expected, reader.file.bytes, old(Now()), old(reader.isOpen), first, last)
      ensures result == ReplayOk ==> ReadsAs(reader) == expected
    {
      hide ValidConfig, OpenError, SkipTo;
      if !ValidComparator(expected, first, last) {
        return ReplayStatus.InvalidConfig;
      }
      result := OpenAt(reader, expected, first);
      if result != WalOpenFailed {
        firstSequence, lastSequence := first, last;
      }
      if result == ReplayOk {
        nextSequence := firstSequence;
        status, sequence := ReplayOk, 0;
        isOpen := true;
      }
    }

    /** The matcher's event writer during a comparison: `true` is Ok, `false` is Fatal. */
    method Publish(event: EventEnvelope) returns (ok: bool)
      requires Valid()
      modifies this, reader
      ensures Valid() && reader.config == old(reader.config)
      ensures (ok, Now()) == Compare(ReadsAs(reader), reader.file.bytes, old(Now()), event)
    {
      hide ReadOne, ValidConfig, Codec.DecodeEventV2, Codec.EncodeEventV2;
      if !isOpen || status != ReplayOk || nextSequence > lastSequence {
        status, sequence := UnexpectedEvent, event.sequence;
        return false;
      }
      var outcome, read := ReadFrom(reader);
      sequence := event.sequence;
      if !outcome.Record? {
        status := ExpectedEventMissing;
        return false;
      }
      var expected := CodecIo.DecodeEvent(true, outcome.payload);
      var encoded, actual := CodecIo.EncodeEvent(true, PayloadOf(event), Codec.EVENT_SIZE);
      if expected.Refused? || encoded != Codec.Ok || read != event.sequence || actual != outcome.payload {
        status := EventMismatch;
        return false;
      }
      nextSequence := nextSequence + 1;
      return true;
    }

    method FinishComparison() returns (verdict: ReplayStatus)
      requires Valid()
      modifies this
      ensures Valid() && Now() == Finish(old(Now())) && verdict == status
    {
      if !isOpen || status != ReplayOk {
        return status;
      }
      if nextSequence != lastSequence + 1 {
        status, sequence := ExpectedEventMissing, nextSequence;
      } else {
        status := ReplayStatus.Complete;
      }
      return status;
    }
  }
}
