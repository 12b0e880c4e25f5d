/** The payloads byte for byte, and what the decoders refuse. */
module CodecLayout {
  import opened BookTypes
  import opened MatcherTypes
  import opened ByteWords
  import opened WalFormat
  import opened Pieces
  import opened Codecs

  // ---------------------------------------------------------------- commands

  function Tag(b: bool): nat {
    if b then 1 else 0
  }

  /** The fields of a command in their order and widths, with the padding. */
  function CommandPieces(p: CommandPayload): seq<seq<Byte>> {
    match p.message
    case NewLimit(o) =>
      [LE(p.client, 8), LE(1, 1), LE(0, 7), LE(o.id, 8), LE(o.owner, 8), LE(Tag(o.side == Ask), 1), LE(0, 3),
       LE(o.price, 4), LE(o.remaining, 4), LE(0, 4)]
    case SaveSnapshot => [LE(p.client, 8), LE(2, 1), LE(0, 39)]
    case LoadSnapshot(sequence, epoch) =>
      [LE(p.client, 8), LE(3, 1), LE(0, 7), LE(sequence, 8), LE(epoch, 8), LE(0, 16)]
    case Shutdown => [LE(p.client, 8), LE(4, 1), LE(0, 39)]
    case StartReplay => [LE(p.client, 8), LE(5, 1), LE(0, 39)]
    case StopReplay => [LE(p.client, 8), LE(6, 1), LE(0, 39)]
    case _ => []
  }

  /** Every command that can be encoded is these bytes; the others are refused by their type. */
  lemma CommandLayout(p: CommandPayload)
    ensures EncodeCommandV2(p) ==
            if p.message.NoCommand? || p.message.Unrecognized? then (InvalidType, [])
            else (Ok, Flatten(CommandPieces(p)))
    ensures EncodeCommandV1(p) ==
            if p.message.StartReplay? || p.message.StopReplay? then (InvalidType, []) else EncodeCommandV2(p)
  {
    hide Pack, LE, Flatten, CommandPieces, CommandRow, CommandFields;
    CommandIsFlat(p);
  }

  lemma CommandIsFlat(p: CommandPayload)
    ensures !p.message.NoCommand? && !p.message.Unrecognized? ==>
      Pack(CommandRow(p.message).widths, CommandFields(p)) == Flatten(CommandPieces(p))
  {
    hide Pack, LE, Flatten;
    if !p.message.NoCommand? && !p.message.Unrecognized? {
      PackIsFlat(CommandRow(p.message).widths, CommandFields(p), CommandPieces(p));
    }
  }

  predicate KnownCommand(code: nat, v2: bool) {
    1 <= code <= 4 || (v2 && 5 <= code <= 6)
  }

  /** What a command decoder refuses, and why; it accepts exactly what some command encodes to. */
  lemma CommandRefusals(bytes: seq<Byte>, v2: bool)
    ensures var decoded := if v2 then DecodeCommandV2(bytes) else DecodeCommandV1(bytes);
      && (decoded == Refused(InvalidSize) <==> |bytes| != COMMAND_SIZE)
      && (|bytes| == COMMAND_SIZE ==>
            && (decoded == Refused(InvalidType) <==> !KnownCommand(ReadField(bytes, 8, 1), v2))
            && (decoded == Refused(InvalidField) <==> ReadField(bytes, 8, 1) == 1 && ReadField(bytes, 32, 1) > 1))
      && (decoded.Decoded? || decoded.status != Ok)
  {
    hide ReadField, Pack, CommandRow, CommandFields;
  }

  lemma CommandAccepted(bytes: seq<Byte>)
    ensures DecodeCommandV1(bytes).Decoded? <==> exists p :: EncodableCommand(p) && EncodeCommandV1(p) == (Ok, bytes)
    ensures DecodeCommandV2(bytes).Decoded? <==> exists p :: EncodableCommand(p) && EncodeCommandV2(p) == (Ok, bytes)
  {
    hide DecodeCommandV1, DecodeCommandV2, EncodeCommandV1, EncodeCommandV2, EncodableCommand;
    CommandCanonical(bytes);
    forall p | EncodableCommand(p)
      ensures EncodeCommandV1(p) == (Ok, bytes) ==> DecodeCommandV1(bytes).Decoded?
      ensures EncodeCommandV2(p) == (Ok, bytes) ==> DecodeCommandV2(bytes).Decoded?
    {
      CommandRoundTrip(p);
    }
  }

  // ---------------------------------------------------------------- events

  /** The numbers of the enumerations. */
  lemma EnumerationCodes()
    ensures RejectCode(NoReject) == 0 && RejectCode(RejectInvalidQuantity) == 1
      && RejectCode(RejectBookInsertFailed) == 2
    ensures RejectCode(RejectUnknownCommand) == 3
    ensures FatalCode(NoFatal) == 0 && FatalCode(CommandReaderFatal) == 1 && FatalCode(EventWriterFatal) == 2
    ensures FatalCode(CommandProducedNoEvent) == 3 && FatalCode(NonMonotonicOrderId) == 4
    ensures FatalCode(BookEraseFailedAfterExecution) == 5 && FatalCode(BookUpdateFailedAfterExecution) == 6
    ensures FatalCode(BookInsertFailedAfterExecution) == 7 && FatalCode(SnapshotCaptureFailed) == 8
    ensures FatalCode(SnapshotLoadUnavailable) == 9 && FatalCode(SnapshotLoadInvalid) == 10
  {
  }

  function TypeOf(e: Event): nat {
    match e
    case OrderAccepted(_) => 1
    case OrderRejected(_, _) => 2
    case Trade(_, _, _, _, _, _) => 3
    case OrderRested(_) => 4
    case OrderDone(_) => 5
    case SnapshotSaved => 6
    case SnapshotLoaded(_, _) => 7
    case ShutDown => 8
    case MatcherFatal(_, _, _) => 9
    case ReplayStarted => 10
    case ReplayStopped => 11
  }

  function HeadPieces(p: EventPayload): seq<seq<Byte>> {
    [LE(p.client, 8), LE(p.commandSequence, 8), LE(p.index, 4), LE(Tag(p.isLast), 1), LE(TypeOf(p.message), 1),
     LE(0, 2)]
  }

  function BodyPieces(e: Event): seq<seq<Byte>> {
    match e
    case OrderAccepted(id) => [LE(id, 8), LE(0, 32)]
    case OrderRejected(id, reason) => [LE(id, 8), LE(RejectCode(reason), 1), LE(0, 31)]
    case Trade(taker, maker, takerOwner, makerOwner, price, quantity) =>
      [LE(taker, 8), LE(maker, 8), LE(takerOwner, 8), LE(makerOwner, 8), LE(price, 4), LE(quantity, 4)]
    case OrderRested(o) =>
      [LE(o.id, 8), LE(o.owner, 8), LE(Tag(o.side == Ask), 1), LE(0, 3), LE(o.price, 4), LE(o.remaining, 4), LE(0, 12)]
    case OrderDone(id) => [LE(id, 8), LE(0, 32)]
    case SnapshotLoaded(sequence, epoch) => [LE(sequence, 8), LE(epoch, 8), LE(0, 24)]
    case MatcherFatal(reason, offending, last) =>
      [LE(FatalCode(reason), 1), LE(0, 7), LE(offending, 8), LE(last, 8), LE(0, 16)]
    case _ => [LE(0, 40)]
  }

  /** Every event is these bytes; version 1 refuses the two replay events. */
  lemma EventLayout(p: EventPayload)
    ensures EncodeEventV2(p) == (Ok, Flatten(HeadPieces(p) + BodyPieces(p.message)))
    ensures EncodeEventV1(p) ==
            if p.message.ReplayStarted? || p.message.ReplayStopped? then (InvalidType, []) else EncodeEventV2(p)
  {
    hide Pack, LE, Flatten, BodyPieces, HeadPieces;
    FlattenConcat(HeadPieces(p), BodyPieces(p.message));
    HeadIsFlat(p);
    BodyIsFlat(p.message);
  }

  lemma HeadIsFlat(p: EventPayload)
    ensures Pack(HeadRow().widths, HeadFields(p)) == Flatten(HeadPieces(p))
  {
    hide Pack, LE, Flatten;
    PackIsFlat(HeadRow().widths, HeadFields(p), HeadPieces(p));
  }

  lemma BodyIsFlat(e: Event)
    ensures Pack(EventRow(e).widths, BodyFields(e)) == Flatten(BodyPieces(e))
  {
    hide Pack, LE, Flatten;
    PackIsFlat(EventRow(e).widths, BodyFields(e), BodyPieces(e));
  }

  predicate KnownEvent(code: nat, v2: bool) {
    1 <= code <= 9 || (v2 && 10 <= code <= 11)
  }

  /** An enumeration in the body is out of range. */
  predicate BodyOutOfRange(bytes: seq<Byte>)
    requires |bytes| == EVENT_SIZE
  {
    var code := ReadField(bytes, 21, 1);
    || (code == 2 && ReadField(bytes, 32, 1) > 3) || (code == 4 && ReadField(bytes, 40, 1) > 1)
    || (code == 9 && ReadField(bytes, 24, 1) > 10)
  }

  lemma MessageRefusals(bytes: seq<Byte>)
    requires |bytes| == EVENT_SIZE
    ensures var code := ReadField(bytes, 21, 1); var message := ReadEvent(bytes, code);
      && (message == Refused(InvalidType) <==> !(1 <= code <= 9))
      && (message == Refused(InvalidField) <==> BodyOutOfRange(bytes))
      && (message.Refused? ==> message.status == InvalidType || message.status == InvalidField)
      && (message.Decoded? ==> !message.payload.ReplayStarted? && !message.payload.ReplayStopped?)
  {
    hide ReadField, RejectOf, FatalOf;
  }

  /** What an event decoder refuses, and why: the size, then the final flag, then the type, then the
      enumerations of the body. */
  ghost predicate EventRefused(bytes: seq<Byte>, v2: bool, decoded: Decoded<EventPayload>) {
    && (decoded == Refused(InvalidSize) <==> |bytes| != EVENT_SIZE)
    && (|bytes| == EVENT_SIZE ==>
          var flag, known := ReadField(bytes, 20, 1), KnownEvent(ReadField(bytes, 21, 1), v2);
          && (decoded == Refused(InvalidType) <==> flag <= 1 && !known)
          && (decoded == Refused(InvalidField) <==> flag > 1 || (known && BodyOutOfRange(bytes))))
    && (decoded.Decoded? || decoded.status != Ok)
  }

  lemma EventRefusals(bytes: seq<Byte>)
    ensures EventRefused(bytes, false, DecodeEventV1(bytes)) && EventRefused(bytes, true, DecodeEventV2(bytes))
  {
    hide ReadField, ReadEvent, EventBytes;
    if |bytes| == EVENT_SIZE {
      MessageRefusals(bytes);
    }
  }

  lemma EventAccepted(bytes: seq<Byte>)
    ensures DecodeEventV1(bytes).Decoded? <==> exists p :: EncodableEvent(p) && EncodeEventV1(p) == (Ok, bytes)
    ensures DecodeEventV2(bytes).Decoded? <==> exists p :: EncodableEvent(p) && EncodeEventV2(p) == (Ok, bytes)
  {
    hide DecodeEventV1, DecodeEventV2, EncodeEventV1, EncodeEventV2, EncodableEvent;
    EventCanonical(bytes);
    forall p | EncodableEvent(p)
      ensures EncodeEventV1(p) == (Ok, bytes) ==> DecodeEventV1(bytes).Decoded?
      ensures EncodeEventV2(p) == (Ok, bytes) ==> DecodeEventV2(bytes).Decoded?
    {
      EventRoundTrip(p);
    }
  }
}
