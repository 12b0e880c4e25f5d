/** The canonical payload codecs of commands and events, versions 1 and 2: rows of
    little-endian fields, padding being fields of zero. */
module Codecs {
  import opened BookTypes
  import opened MatcherTypes
  import opened ByteWords
  import opened WalFormat
  import opened WalLog

  datatype CodecStatus = Ok | InvalidSize | InvalidType | InvalidField | NonCanonicalBytes

  datatype CommandPayload = CommandPayload(client: nat, message: Command)

  datatype EventPayload = EventPayload(client: nat, commandSequence: nat, index: nat, isLast: bool, message: Event)

  const COMMAND_SIZE: nat := 48
  const EVENT_SIZE: nat := 64

  // ---------------------------------------------------------------- rows of fields

  /** A row of fields with the offset of each, and the size at the end. */
  datatype Row = Row(widths: seq<nat>, offsets: seq<nat>)

  ghost predicate RowOk(row: Row, size: nat) {
    && |row.offsets| == |row.widths| + 1 && row.offsets[0] == 0 && row.offsets[|row.widths|] == size
    && forall k :: 0 <= k < |row.widths| ==> row.offsets[k + 1] == row.offsets[k] + row.widths[k]
  }

  lemma {:induction false} OffsetIs(row: Row, size: nat, k: nat)
    requires RowOk(row, size) && k <= |row.widths|
    ensures Total(row.widths[..k]) == row.offsets[k] && (k == |row.widths| ==> Total(row.widths) == size)
    decreases k
  {
    hide Total;
    if k > 0 {
      OffsetIs(row, size, k - 1);
      assert row.widths[..k] == row.widths[..k - 1] + [row.widths[k - 1]];
      TotalConcat(row.widths[..k - 1], [row.widths[k - 1]]);
      TotalOf1([row.widths[k - 1]]);
      assert row.offsets[k - 1 + 1] == row.offsets[k - 1] + row.widths[k - 1];
    } else {
      TotalOfNone();
    }
    if k == |row.widths| {
      assert row.widths[..k] == row.widths;
    }
  }

  lemma TotalOfNone()
    ensures Total([]) == 0
  {
  }

  /** The number in the `n` bytes at `at`. */
  function ReadField(bytes: seq<Byte>, at: nat, n: nat): nat
    requires at + n <= |bytes|
  {
    Number(bytes[at..at + n])
  }

  /** Field `k` of a packed row is read back at its offset. */
  lemma FieldAt(row: Row, size: nat, fields: seq<nat>, k: nat, at: nat, n: nat)
    requires RowOk(row, size) && Fits(row.widths, fields) && Field(row, k, at, n)
    ensures k < |fields| && at + n <= size && |Pack(row.widths, fields)| == size
    ensures ReadField(Pack(row.widths, fields), at, n) == fields[k]
  {
    hide Pack, Total, Number, RowOk;
    assert fields[k] < Pow256(row.widths[k]);
    OffsetIs(row, size, |row.widths|);
    OffsetIs(row, size, k);
    PackAround(row.widths, fields, k);
    Middle(Pack(row.widths[..k], fields[..k]), LE(fields[k], n), Pack(row.widths[k + 1..], fields[k + 1..]));
    NumberOfLE(fields[k], n);
  }

  lemma PackAround(w: seq<nat>, f: seq<nat>, k: nat)
    requires |w| == |f| && k < |w|
    ensures Pack(w, f) == Pack(w[..k], f[..k]) + (LE(f[k], w[k]) + Pack(w[k + 1..], f[k + 1..]))
  {
    hide Pack;
    assert w == w[..k] + ([w[k]] + w[k + 1..]) && f == f[..k] + ([f[k]] + f[k + 1..]);
    PackConcat(w[..k], f[..k], [w[k]] + w[k + 1..], [f[k]] + f[k + 1..]);
    PackConcat([w[k]], [f[k]], w[k + 1..], f[k + 1..]);
    PackOne(w[k], f[k]);
  }

  lemma Middle(before: seq<Byte>, here: seq<Byte>, rest: seq<Byte>)
    ensures (before + (here + rest))[|before|..|before| + |here|] == here
  {
  }

  // ---------------------------------------------------------------- commands

  function LimitRow(): Row {
    Row([8, 1, 7, 8, 8, 1, 3, 4, 4, 4], [0, 8, 9, 16, 24, 32, 33, 36, 40, 44, 48])
  }

  function LoadRow(): Row {
    Row([8, 1, 7, 8, 8, 16], [0, 8, 9, 16, 24, 32, 48])
  }

  function BareRow(): Row {
    Row([8, 1, 39], [0, 8, 9, 48])
  }

  /** Field `k` of a row is the `n` bytes at `at`. */
  ghost predicate Field(row: Row, k: nat, at: nat, n: nat) {
    k < |row.widths| && k < |row.offsets| && row.offsets[k] == at && row.widths[k] == n
  }

  lemma CommandRows()
    ensures RowOk(LimitRow(), COMMAND_SIZE) && RowOk(LoadRow(), COMMAND_SIZE) && RowOk(BareRow(), COMMAND_SIZE)
    ensures Field(LimitRow(), 3, 16, 8) && Field(LimitRow(), 4, 24, 8) && Field(LimitRow(), 5, 32, 1)
    ensures Field(LimitRow(), 7, 36, 4) && Field(LimitRow(), 8, 40, 4)
    ensures Field(LoadRow(), 3, 16, 8) && Field(LoadRow(), 4, 24, 8)
  {
  }

  lemma CommandRowStart(c: Command)
    ensures RowOk(CommandRow(c), COMMAND_SIZE) && Field(CommandRow(c), 0, 0, 8) && Field(CommandRow(c), 1, 8, 1)
  {
  }

  function SideCode(side: Side): nat {
    if side == Bid then 0 else 1
  }

  function CommandCode(c: Command): nat {
    match c
    case NoCommand => 0
    case NewLimit(_) => 1
    case SaveSnapshot => 2
    case LoadSnapshot(_, _) => 3
    case Shutdown => 4
    case StartReplay => 5
    case StopReplay => 6
    case Unrecognized => 255
  }

  function CommandRow(c: Command): Row {
    if c.NewLimit? then LimitRow() else if c.LoadSnapshot? then LoadRow() else BareRow()
  }

  function CommandFields(p: CommandPayload): (fields: seq<nat>)
    ensures |fields| == |CommandRow(p.message).widths|
  {
    match p.message
    case NewLimit(o) => [p.client, CommandCode(p.message), 0, o.id, o.owner, SideCode(o.side), 0, o.price, o.remaining,
        0]
    case LoadSnapshot(sequence, epoch) => [p.client, CommandCode(p.message), 0, sequence, epoch, 0]
    case _ => [p.client, CommandCode(p.message), 0]
  }

  /** What the fields can hold. */
  predicate EncodableCommand(p: CommandPayload) {
    && p.client < U64
    && (p.message.NewLimit? ==> p.message.order.id < U64 && p.message.order.owner < U64)
    && (p.message.LoadSnapshot? ==> p.message.saveSequence < U64 && p.message.epoch < U64)
  }

  predicate KnownV1(c: Command) {
    c.NewLimit? || c.SaveSnapshot? || c.LoadSnapshot? || c.Shutdown?
  }

  function EncodeCommandV1(p: CommandPayload): (CodecStatus, seq<Byte>) {
    if !KnownV1(p.message) then (InvalidType, []) else (Ok, Pack(CommandRow(p.message).widths, CommandFields(p)))
  }

  function EncodeCommandV2(p: CommandPayload): (CodecStatus, seq<Byte>) {
    if p.message.StartReplay? || p.message.StopReplay? then (Ok, Pack(CommandRow(p.message).widths, CommandFields(p)))
    else EncodeCommandV1(p)
  }

  datatype Decoded<P> = Decoded(payload: P) | Refused(status: CodecStatus)

  /** The decoded value, provided it encodes to the very same bytes. */
  function Canonical<P>(p: P, bytes: seq<Byte>, encoded: (CodecStatus, seq<Byte>)): Decoded<P> {
    if encoded.0 != Ok then Refused(encoded.0)
    else if bytes != encoded.1 then Refused(NonCanonicalBytes)
    else Decoded(p)
  }

  function DecodeCommandV1(bytes: seq<Byte>): Decoded<CommandPayload> {
    if |bytes| != COMMAND_SIZE then Refused(InvalidSize)
    else
      var client, code := ReadField(bytes, 0, 8), ReadField(bytes, 8, 1);
      if code == 1 then
        var side := ReadField(bytes, 32, 1);
        if side > 1 then Refused(InvalidField)
        else
          var price, quantity := ReadField(bytes, 36, 4), ReadField(bytes, 40, 4);
          ReadBound(bytes, 36);
          ReadBound(bytes, 40);
          var p := CommandPayload(client,
              NewLimit(OrderView(ReadField(bytes, 16, 8), ReadField(bytes, 24, 8), if side == 0 then Bid else Ask,
                  price, quantity)));
          Canonical(p, bytes, EncodeCommandV1(p))
      else if code == 2
        then Canonical(CommandPayload(client, SaveSnapshot), bytes,
            EncodeCommandV1(CommandPayload(client, SaveSnapshot)))
      else if code == 3 then
        var p := CommandPayload(client, LoadSnapshot(ReadField(bytes, 16, 8), ReadField(bytes, 24, 8)));
        Canonical(p, bytes, EncodeCommandV1(p))
      else if code == 4
        then Canonical(CommandPayload(client, Shutdown), bytes, EncodeCommandV1(CommandPayload(client, Shutdown)))
      else Refused(InvalidType)
  }

  function DecodeCommandV2(bytes: seq<Byte>): Decoded<CommandPayload> {
    if |bytes| != COMMAND_SIZE then Refused(InvalidSize)
    else
      var client, code := ReadField(bytes, 0, 8), ReadField(bytes, 8, 1);
      if code == 5
        then Canonical(CommandPayload(client, StartReplay), bytes, EncodeCommandV2(CommandPayload(client, StartReplay)))
      else if code == 6
        then Canonical(CommandPayload(client, StopReplay), bytes, EncodeCommandV2(CommandPayload(client, StopReplay)))
      else DecodeCommandV1(bytes)
  }

  lemma ReadBound(bytes: seq<Byte>, at: nat)
    requires at + 8 <= |bytes|
    ensures ReadField(bytes, at, 4) < U32 && ReadField(bytes, at, 8) < U64 && ReadField(bytes, at, 1) < 256
  {
    hide Number, LE;
    LEOfNumber(bytes[at..at + 4]);
    LEOfNumber(bytes[at..at + 8]);
    LEOfNumber(bytes[at..at + 1]);
    FourBytes();
    OneByte();
  }

  lemma OneByte()
    ensures Pow256(1) == 256
  {
    assert Pow256(1) == 256 * Pow256(0);
  }

  lemma CommandFits(p: CommandPayload)
    requires EncodableCommand(p) && p.message != Unrecognized
    ensures Fits(CommandRow(p.message).widths, CommandFields(p))
  {
    hide Pow256;
    Powers();
  }

  /** The sizes of the fields used here. */
  lemma Powers()
    ensures Pow256(1) == 256 && Pow256(4) == U32 && Pow256(8) == U64
    ensures Pow256(2) > 0 && Pow256(3) > 0 && Pow256(7) > 0 && Pow256(12) > 0 && Pow256(16) > 0
    ensures Pow256(24) > 0 && Pow256(31) > 0 && Pow256(32) > 0 && Pow256(39) > 0 && Pow256(40) > 0
  {
    FourBytes();
    OneByte();
    hide Pow256;
    PowPositive(2);
    PowPositive(3);
    PowPositive(7);
    PowPositive(12);
    PowPositive(16);
    PowPositive(24);
    PowPositive(31);
    PowPositive(32);
    PowPositive(39);
    PowPositive(40);
  }

  lemma {:induction false} PowPositive(n: nat)
    ensures Pow256(n) > 0
  {
    if n > 0 {
      PowPositive(n - 1);
    }
  }

  /** The common fields of an encoded command are read back. */
  lemma CommandHead(p: CommandPayload)
    requires EncodableCommand(p) && p.message != Unrecognized
    ensures var bytes := Pack(CommandRow(p.message).widths, CommandFields(p));
            |bytes| == COMMAND_SIZE && ReadField(bytes, 0, 8) == p.client
              && ReadField(bytes, 8, 1) == CommandCode(p.message)
  {
    hide Pack, Number, Pow256, CommandRow, RowOk, Fits, Field, EncodableCommand, ReadField;
    CommandRowStart(p.message);
    CommandFits(p);
    FieldAt(CommandRow(p.message), COMMAND_SIZE, CommandFields(p), 0, 0, 8);
    FieldAt(CommandRow(p.message), COMMAND_SIZE, CommandFields(p), 1, 8, 1);
  }

  lemma LimitBody(p: CommandPayload)
    requires EncodableCommand(p) && p.message.NewLimit?
    ensures var bytes, o := Pack(LimitRow().widths, CommandFields(p)), p.message.order;
            && |bytes| == COMMAND_SIZE && ReadField(bytes, 16, 8) == o.id && ReadField(bytes, 24, 8) == o.owner
            && ReadField(bytes, 32, 1) == SideCode(o.side) && ReadField(bytes, 36, 4) == o.price
            && ReadField(bytes, 40, 4) == o.remaining
  {
    hide Pack, Number, Pow256, LimitRow, RowOk, Fits, Field, EncodableCommand, ReadField;
    CommandRows();
    CommandFits(p);
    var fields := CommandFields(p);
    FieldAt(LimitRow(), COMMAND_SIZE, fields, 3, 16, 8);
    FieldAt(LimitRow(), COMMAND_SIZE, fields, 4, 24, 8);
    FieldAt(LimitRow(), COMMAND_SIZE, fields, 5, 32, 1);
    FieldAt(LimitRow(), COMMAND_SIZE, fields, 7, 36, 4);
    FieldAt(LimitRow(), COMMAND_SIZE, fields, 8, 40, 4);
  }

  lemma LoadBody(p: CommandPayload)
    requires EncodableCommand(p) && p.message.LoadSnapshot?
    ensures var bytes := Pack(LoadRow().widths, CommandFields(p));
            && |bytes| == COMMAND_SIZE && ReadField(bytes, 16, 8) == p.message.saveSequence
            && ReadField(bytes, 24, 8) == p.message.epoch
  {
    hide Pack, Number, Pow256, LoadRow, RowOk, Fits, Field, EncodableCommand, ReadField;
    CommandRows();
    CommandFits(p);
    FieldAt(LoadRow(), COMMAND_SIZE, CommandFields(p), 3, 16, 8);
    FieldAt(LoadRow(), COMMAND_SIZE, CommandFields(p), 4, 24, 8);
  }

  /** Every encodable command is decoded from its own encoding. */
  lemma CommandRoundTrip(p: CommandPayload)
    requires EncodableCommand(p)
    ensures EncodeCommandV1(p).0 == Ok ==> DecodeCommandV1(EncodeCommandV1(p).1) == Decoded(p)
    ensures EncodeCommandV2(p).0 == Ok ==> DecodeCommandV2(EncodeCommandV2(p).1) == Decoded(p)
  {
    hide Pack, ReadField, LimitRow, LoadRow, BareRow, CommandFields, EncodableCommand;
    if p.message != Unrecognized {
      CommandHead(p);
      if p.message.NewLimit? {
        LimitBody(p);
      } else if p.message.LoadSnapshot? {
        LoadBody(p);
      }
    }
  }

  /** What is decoded encodes to the very bytes it was decoded from: a decoder accepts exactly
      the byte strings its encoder produces. */
  lemma CommandCanonical(bytes: seq<Byte>)
    ensures DecodeCommandV1(bytes).Decoded? ==>
      EncodeCommandV1(DecodeCommandV1(bytes).payload) == (Ok, bytes) && EncodableCommand(DecodeCommandV1(bytes).payload)
    ensures DecodeCommandV2(bytes).Decoded? ==>
      EncodeCommandV2(DecodeCommandV2(bytes).payload) == (Ok, bytes) && EncodableCommand(DecodeCommandV2(bytes).payload)
  {
    hide ReadField, EncodeCommandV1, DecodeCommandV1, EncodableCommand;
    CommandCanonicalV1(bytes);
    ReplayCanonical(bytes);
  }

  lemma CommandCanonicalV1(bytes: seq<Byte>)
    ensures DecodeCommandV1(bytes).Decoded? ==>
      var p := DecodeCommandV1(bytes).payload;
      EncodeCommandV1(p) == (Ok, bytes) && EncodableCommand(p) && KnownV1(p.message)
  {
    hide ReadField, EncodeCommandV1;
    if |bytes| == COMMAND_SIZE {
      ReadBound(bytes, 0);
      ReadBound(bytes, 16);
      ReadBound(bytes, 24);
    }
  }

  lemma ReplayCanonical(bytes: seq<Byte>)
    ensures |bytes| == COMMAND_SIZE ==>
      var client := ReadField(bytes, 0, 8);
      EncodableCommand(CommandPayload(client, StartReplay)) && EncodableCommand(CommandPayload(client, StopReplay))
  {
    hide ReadField;
    if |bytes| == COMMAND_SIZE {
      ReadBound(bytes, 0);
    }
  }

  /** Version 2 agrees with version 1 on everything version 1 can encode, and adds only the two
      replay commands. */
  lemma CommandVersionsAgree(p: CommandPayload, bytes: seq<Byte>)
    ensures EncodeCommandV1(p).0 == Ok ==> EncodeCommandV2(p) == EncodeCommandV1(p)
    ensures EncodeCommandV2(p).0 == Ok ==> EncodeCommandV1(p).0 == Ok || p.message.StartReplay? || p.message.StopReplay?
    ensures DecodeCommandV1(bytes).Decoded? ==> DecodeCommandV2(bytes) == DecodeCommandV1(bytes)
    ensures DecodeCommandV2(bytes).Decoded? ==>
      DecodeCommandV1(bytes) == DecodeCommandV2(bytes) || DecodeCommandV2(bytes).payload.message.StartReplay?
        || DecodeCommandV2(bytes).payload.message.StopReplay?
  {
    hide Pack, ReadField, CommandRow, CommandFields;
  }

  // ---------------------------------------------------------------- events

  const HEAD_SIZE: nat := 24
  const BODY_SIZE: nat := 40

  function HeadRow(): Row {
    Row([8, 8, 4, 1, 1, 2], [0, 8, 16, 20, 21, 22, 24])
  }

  function EventRow(e: Event): Row {
    match e
    case OrderAccepted(_) => Row([8, 32], [0, 8, 40])
    case OrderDone(_) => Row([8, 32], [0, 8, 40])
    case OrderRejected(_, _) => Row([8, 1, 31], [0, 8, 9, 40])
    case Trade(_, _, _, _, _, _) => Row([8, 8, 8, 8, 4, 4], [0, 8, 16, 24, 32, 36, 40])
    case OrderRested(_) => Row([8, 8, 1, 3, 4, 4, 12], [0, 8, 16, 17, 20, 24, 28, 40])
    case SnapshotLoaded(_, _) => Row([8, 8, 24], [0, 8, 16, 40])
    case MatcherFatal(_, _, _) => Row([1, 7, 8, 8, 16], [0, 1, 8, 16, 24, 40])
    case _ => Row([40], [0, 40])
  }

  lemma EventRows(e: Event)
    ensures RowOk(EventRow(e), BODY_SIZE)
  {
  }

  lemma HeadRowIs()
    ensures RowOk(HeadRow(), HEAD_SIZE)
    ensures Field(HeadRow(), 0, 0, 8) && Field(HeadRow(), 1, 8, 8) && Field(HeadRow(), 2, 16, 4)
    ensures Field(HeadRow(), 3, 20, 1) && Field(HeadRow(), 4, 21, 1)
  {
  }

  function EventCode(e: Event): nat {
    match e
    case OrderAccepted(_) => 1
    case OrderRejected(_, _) => 2
    case Trade(_, _, _, _, _, _) => 3
    case OrderRested(_) => 4
    case OrderDone(_) => 5
    case SnapshotSaved => 6
    case SnapshotLoaded(_, _) => 7
    case ShutDown => 8
    case MatcherFatal(_, _, _) => 9
    case ReplayStarted => 10
    case ReplayStopped => 11
  }

  function RejectCode(r: RejectReason): nat {
    match r
    case NoReject => 0
    case RejectInvalidQuantity => 1
    case RejectBookInsertFailed => 2
    case RejectUnknownCommand => 3
  }

  function RejectOf(code: nat): RejectReason
    requires code <= 3
  {
    if code == 0 then NoReject else if code == 1 then RejectInvalidQuantity
    else if code == 2 then RejectBookInsertFailed else RejectUnknownCommand
  }

  function FatalCode(r: FatalReason): nat {
    match r
    case NoFatal => 0
    case CommandReaderFatal => 1
    case EventWriterFatal => 2
    case CommandProducedNoEvent => 3
    case NonMonotonicOrderId => 4
    case BookEraseFailedAfterExecution => 5
    case BookUpdateFailedAfterExecution => 6
    case BookInsertFailedAfterExecution => 7
    case SnapshotCaptureFailed => 8
    case SnapshotLoadUnavailable => 9
    case SnapshotLoadInvalid => 10
  }

  function FatalOf(code: nat): FatalReason
    requires code <= 10
  {
    if code == 0 then NoFatal
    else if code == 1 then CommandReaderFatal
    else if code == 2 then EventWriterFatal
    else if code == 3 then CommandProducedNoEvent
    else if code == 4 then NonMonotonicOrderId
    else if code == 5 then BookEraseFailedAfterExecution
    else if code == 6 then BookUpdateFailedAfterExecution
    else if code == 7 then BookInsertFailedAfterExecution
    else if code == 8 then SnapshotCaptureFailed
    else if code == 9 then SnapshotLoadUnavailable
    else SnapshotLoadInvalid
  }

  function HeadFields(p: EventPayload): (fields: seq<nat>)
    ensures |fields| == |HeadRow().widths|
  {
    [p.client, p.commandSequence, p.index, if p.isLast then 1 else 0, EventCode(p.message), 0]
  }

  function BodyFields(e: Event): (fields: seq<nat>)
    ensures |fields| == |EventRow(e).widths|
  {
    match e
    case OrderAccepted(id) => [id, 0]
    case OrderDone(id) => [id, 0]
    case OrderRejected(id, reason) => [id, RejectCode(reason), 0]
    case Trade(taker, maker, takerOwner, makerOwner, price, quantity) => [taker, maker, takerOwner, makerOwner, price,
        quantity]
    case OrderRested(o) => [o.id, o.owner, SideCode(o.side), 0, o.price, o.remaining, 0]
    case SnapshotLoaded(sequence, epoch) => [sequence, epoch, 0]
    case MatcherFatal(reason, offending, last) => [FatalCode(reason), 0, offending, last, 0]
    case _ => [0]
  }

  predicate EncodableEvent(p: EventPayload) {
    && p.client < U64 && p.commandSequence < U64 && p.index < U32
    && match p.message
       case OrderAccepted(id) => id < U64
       case OrderDone(id) => id < U64
       case OrderRejected(id, _) => id < U64
       case Trade(taker, maker, takerOwner, makerOwner, _, _) => taker < U64 && maker < U64 && takerOwner < U64
         && makerOwner < U64
       case OrderRested(o) => o.id < U64 && o.owner < U64
       case SnapshotLoaded(sequence, epoch) => sequence < U64 && epoch < U64
       case MatcherFatal(_, offending, last) => offending < U64 && last < U64
       case _ => true
  }

  function EventBytes(p: EventPayload): seq<Byte> {
    Pack(HeadRow().widths, HeadFields(p)) + Pack(EventRow(p.message).widths, BodyFields(p.message))
  }

  function EncodeEventV1(p: EventPayload): (CodecStatus, seq<Byte>) {
    if p.message.ReplayStarted? || p.message.ReplayStopped? then (InvalidType, []) else (Ok, EventBytes(p))
  }

  function EncodeEventV2(p: EventPayload): (CodecStatus, seq<Byte>) {
    if p.message.ReplayStarted? || p.message.ReplayStopped? then (Ok, EventBytes(p)) else EncodeEventV1(p)
  }

  /** The message of a type code, read from its place in the payload. */
  function ReadEvent(bytes: seq<Byte>, code: nat): Decoded<Event>
    requires |bytes| == EVENT_SIZE
  {
    if code == 1 then Decoded(OrderAccepted(ReadField(bytes, 24, 8)))
    else if code == 2 then
      var reason := ReadField(bytes, 32, 1);
      if reason > 3 then Refused(InvalidField) else Decoded(OrderRejected(ReadField(bytes, 24, 8), RejectOf(reason)))
    else if code == 3 then
      ReadBound(bytes, 56);
      ReadBoundAtEnd(bytes, 60);
      Decoded(Trade(ReadField(bytes, 24, 8), ReadField(bytes, 32, 8), ReadField(bytes, 40, 8), ReadField(bytes, 48, 8),
          ReadField(bytes, 56, 4), ReadField(bytes, 60, 4)))
    else if code == 4 then
      var side := ReadField(bytes, 40, 1);
      if side > 1 then Refused(InvalidField)
      else
        ReadBound(bytes, 44);
        ReadBound(bytes, 48);
        Decoded(OrderRested(OrderView(ReadField(bytes, 24, 8), ReadField(bytes, 32, 8), if side == 0 then Bid else Ask,
            ReadField(bytes, 44, 4), ReadField(bytes, 48, 4))))
    else if code == 5 then Decoded(OrderDone(ReadField(bytes, 24, 8)))
    else if code == 6 then Decoded(SnapshotSaved)
    else if code == 7 then Decoded(SnapshotLoaded(ReadField(bytes, 24, 8), ReadField(bytes, 32, 8)))
    else if code == 8 then Decoded(ShutDown)
    else if code == 9 then
      var reason := ReadField(bytes, 24, 1);
      if reason > 10 then Refused(InvalidField)
      else Decoded(MatcherFatal(FatalOf(reason), ReadField(bytes, 32, 8), ReadField(bytes, 40, 8)))
    else Refused(InvalidType)
  }

  function WithHead(bytes: seq<Byte>, message: Event): EventPayload
    requires |bytes| == EVENT_SIZE
  {
    EventPayload(ReadField(bytes, 0, 8), ReadField(bytes, 8, 8), ReadField(bytes, 16, 4), ReadField(bytes, 20, 1) != 0,
        message)
  }

  function DecodeEventV1(bytes: seq<Byte>): Decoded<EventPayload> {
    if |bytes| != EVENT_SIZE then Refused(InvalidSize)
    else if ReadField(bytes, 20, 1) > 1 then Refused(InvalidField)
    else
      var message := ReadEvent(bytes, ReadField(bytes, 21, 1));
      if message.Refused? then Refused(message.status)
      else Canonical(WithHead(bytes, message.payload), bytes, EncodeEventV1(WithHead(bytes, message.payload)))
  }

  function DecodeEventV2(bytes: seq<Byte>): Decoded<EventPayload> {
    if |bytes| != EVENT_SIZE then Refused(InvalidSize)
    else if ReadField(bytes, 20, 1) > 1 then Refused(InvalidField)
    else
      var code := ReadField(bytes, 21, 1);
      if code == 10 then Canonical(WithHead(bytes, ReplayStarted), bytes, EncodeEventV2(WithHead(bytes, ReplayStarted)))
      else if code == 11
        then Canonical(WithHead(bytes, ReplayStopped), bytes, EncodeEventV2(WithHead(bytes, ReplayStopped)))
      else DecodeEventV1(bytes)
  }

  lemma ReadBoundAtEnd(bytes: seq<Byte>, at: nat)
    requires at + 4 <= |bytes|
    ensures ReadField(bytes, at, 4) < U32
  {
    hide Number, LE;
    LEOfNumber(bytes[at..at + 4]);
    FourBytes();
  }

  lemma HeadFits(p: EventPayload)
    requires EncodableEvent(p)
    ensures Fits(HeadRow().widths, HeadFields(p))
  {
    hide Pow256;
    Powers();
  }

  lemma BodyFits(p: EventPayload)
    requires EncodableEvent(p)
    ensures Fits(EventRow(p.message).widths, BodyFields(p.message))
  {
    hide Pow256;
    Powers();
  }

  /** The head of an encoded event is read back. */
  lemma EventHead(p: EventPayload)
    requires EncodableEvent(p)
    ensures var bytes := EventBytes(p);
            && |bytes| == EVENT_SIZE && ReadField(bytes, 20, 1) == (if p.isLast then 1 else 0)
            && ReadField(bytes, 21, 1) == EventCode(p.message) && WithHead(bytes, p.message) == p
  {
    hide Pack, HeadRow, EventRow, RowOk, Fits, Field, EncodableEvent, ReadField, BodyFields;
    HeadRowIs();
    EventRows(p.message);
    HeadFits(p);
    BodySize(p);
    var head, body := Pack(HeadRow().widths, HeadFields(p)), Pack(EventRow(p.message).widths, BodyFields(p.message));
    HeadField(head, body, p, 0, 0, 8);
    HeadField(head, body, p, 1, 8, 8);
    HeadField(head, body, p, 2, 16, 4);
    HeadField(head, body, p, 3, 20, 1);
    HeadField(head, body, p, 4, 21, 1);
  }

  lemma BodySize(p: EventPayload)
    ensures |Pack(EventRow(p.message).widths, BodyFields(p.message))| == BODY_SIZE
  {
    hide Pack, EventRow, BodyFields;
    EventRows(p.message);
    OffsetIs(EventRow(p.message), BODY_SIZE, |EventRow(p.message).widths|);
  }

  lemma HeadField(head: seq<Byte>, body: seq<Byte>, p: EventPayload, k: nat, at: nat, n: nat)
    requires head == Pack(HeadRow().widths, HeadFields(p)) && Fits(HeadRow().widths, HeadFields(p))
    requires RowOk(HeadRow(), HEAD_SIZE) && Field(HeadRow(), k, at, n)
    ensures |head| == HEAD_SIZE && at + n <= HEAD_SIZE && k < |HeadFields(p)|
      && ReadField(head + body, at, n) == HeadFields(p)[k]
  {
    hide Pack, HeadRow, RowOk, Fits, Field;
    FieldAt(HeadRow(), HEAD_SIZE, HeadFields(p), k, at, n);
    assert (head + body)[at..at + n] == head[at..at + n];
  }

  /** Field `k` of the body of an encoded event. */
  lemma BodyField(p: EventPayload, k: nat, at: nat, n: nat)
    requires EncodableEvent(p) && Field(EventRow(p.message), k, at, n)
    ensures |EventBytes(p)| == EVENT_SIZE && HEAD_SIZE + at + n <= EVENT_SIZE && k < |BodyFields(p.message)|
    ensures ReadField(EventBytes(p), HEAD_SIZE + at, n) == BodyFields(p.message)[k]
  {
    hide Pack, HeadRow, EventRow, RowOk, Fits, Field, EncodableEvent, BodyFields, HeadFields;
    EventRows(p.message);
    BodyFits(p);
    HeadSize(p);
    FieldAt(EventRow(p.message), BODY_SIZE, BodyFields(p.message), k, at, n);
    var head, body := Pack(HeadRow().widths, HeadFields(p)), Pack(EventRow(p.message).widths, BodyFields(p.message));
    assert (head + body)[HEAD_SIZE + at..HEAD_SIZE + at + n] == body[at..at + n];
  }

  lemma HeadSize(p: EventPayload)
    ensures |Pack(HeadRow().widths, HeadFields(p))| == HEAD_SIZE
  {
    hide Pack, HeadFields;
    HeadRowIs();
    OffsetIs(HeadRow(), HEAD_SIZE, |HeadRow().widths|);
  }

  /** The message of an encoded event is read back. */
  lemma MessageIsRead(p: EventPayload)
    requires EncodableEvent(p) && !p.message.ReplayStarted? && !p.message.ReplayStopped?
    ensures |EventBytes(p)| == EVENT_SIZE && ReadEvent(EventBytes(p), EventCode(p.message)) == Decoded(p.message)
  {
    hide EventBytes, ReadField, HeadRow, EncodableEvent;
    EventHead(p);
    match p.message
    case OrderAccepted(_) => BodyField(p, 0, 0, 8);
    case OrderDone(_) => BodyField(p, 0, 0, 8);
    case OrderRejected(_, _) =>
      BodyField(p, 0, 0, 8);
      BodyField(p, 1, 8, 1);
    case Trade(_, _, _, _, _, _) => TradeIsRead(p);
    case OrderRested(_) => RestedIsRead(p);
    case SnapshotLoaded(_, _) =>
      BodyField(p, 0, 0, 8);
      BodyField(p, 1, 8, 8);
    case MatcherFatal(_, _, _) =>
      BodyField(p, 0, 0, 1);
      BodyField(p, 2, 8, 8);
      BodyField(p, 3, 16, 8);
    case _ =>
  }

  lemma TradeIsRead(p: EventPayload)
    requires EncodableEvent(p) && p.message.Trade? && |EventBytes(p)| == EVENT_SIZE
    ensures ReadEvent(EventBytes(p), 3) == Decoded(p.message)
  {
    hide EventBytes, ReadField, HeadRow, EncodableEvent;
    BodyField(p, 0, 0, 8);
    BodyField(p, 1, 8, 8);
    BodyField(p, 2, 16, 8);
    BodyField(p, 3, 24, 8);
    BodyField(p, 4, 32, 4);
    BodyField(p, 5, 36, 4);
  }

  lemma RestedIsRead(p: EventPayload)
    requires EncodableEvent(p) && p.message.OrderRested? && |EventBytes(p)| == EVENT_SIZE
    ensures ReadEvent(EventBytes(p), 4) == Decoded(p.message)
  {
    hide EventBytes, ReadField, HeadRow, EncodableEvent;
    BodyField(p, 0, 0, 8);
    BodyField(p, 1, 8, 8);
    BodyField(p, 2, 16, 1);
    BodyField(p, 4, 20, 4);
    BodyField(p, 5, 24, 4);
  }

  /** Every encodable event is decoded from its own encoding. */
  lemma EventRoundTrip(p: EventPayload)
    requires EncodableEvent(p)
    ensures EncodeEventV1(p).0 == Ok ==> DecodeEventV1(EncodeEventV1(p).1) == Decoded(p)
    ensures EncodeEventV2(p).0 == Ok ==> DecodeEventV2(EncodeEventV2(p).1) == Decoded(p)
  {
    hide EventBytes, ReadField, ReadEvent, EncodableEvent, WithHead;
    EventHead(p);
    if !p.message.ReplayStarted? && !p.message.ReplayStopped? {
      MessageIsRead(p);
    }
  }

  /** A read message has fields of the stored widths, and is not a replay event. */
  lemma ReadEventFits(bytes: seq<Byte>, code: nat)
    requires |bytes| == EVENT_SIZE && ReadEvent(bytes, code).Decoded?
    ensures var e := ReadEvent(bytes, code).payload;
            !e.ReplayStarted? && !e.ReplayStopped? && EncodableEvent(WithHead(bytes, e))
  {
    hide ReadField, RejectOf, FatalOf;
    ReadBound(bytes, 0);
    ReadBound(bytes, 8);
    ReadBound(bytes, 16);
    ReadBound(bytes, 24);
    ReadBound(bytes, 32);
    ReadBound(bytes, 40);
    ReadBound(bytes, 48);
  }

  /** A decoder accepts exactly the byte strings its encoder produces. */
  lemma EventCanonical(bytes: seq<Byte>)
    ensures DecodeEventV1(bytes).Decoded? ==>
      EncodeEventV1(DecodeEventV1(bytes).payload) == (Ok, bytes) && EncodableEvent(DecodeEventV1(bytes).payload)
    ensures DecodeEventV2(bytes).Decoded? ==>
      EncodeEventV2(DecodeEventV2(bytes).payload) == (Ok, bytes) && EncodableEvent(DecodeEventV2(bytes).payload)
  {
    hide ReadField, ReadEvent, EventBytes;
    if |bytes| == EVENT_SIZE {
      ReadBound(bytes, 0);
      ReadBound(bytes, 8);
      ReadBound(bytes, 16);
      var code := ReadField(bytes, 21, 1);
      if ReadEvent(bytes, code).Decoded? {
        ReadEventFits(bytes, code);
      }
    }
  }

  /** Version 2 agrees with version 1 on everything version 1 can encode, and adds only the two
      replay events. */
  lemma EventVersionsAgree(p: EventPayload, bytes: seq<Byte>)
    ensures EncodeEventV1(p).0 == Ok ==> EncodeEventV2(p) == EncodeEventV1(p)
    ensures EncodeEventV2(p).0 == Ok ==>
      EncodeEventV1(p).0 == Ok || p.message.ReplayStarted? || p.message.ReplayStopped?
    ensures DecodeEventV1(bytes).Decoded? ==> DecodeEventV2(bytes) == DecodeEventV1(bytes)
    ensures DecodeEventV2(bytes).Decoded? ==>
      DecodeEventV1(bytes) == DecodeEventV2(bytes) || DecodeEventV2(bytes).payload.message.ReplayStarted?
        || DecodeEventV2(bytes).payload.message.ReplayStopped?
  {
    hide ReadField, EventBytes;
  }
}
