/** The encoders and decoders step by step, over the byte loops of `WalIo`. */
module CodecIo {
  import opened BookTypes
  import opened MatcherTypes
  import opened ByteWords
  import opened WalFormat
  import opened WalIo
  import opened Codecs

  method ReadNumber(bytes: seq<Byte>, at: nat, n: nat) returns (value: nat)
    requires at + n <= |bytes|
    ensures value == ReadField(bytes, at, n)
  {
    value := GetLE(bytes, at, n);
  }

  /** Both versions, into a buffer of `size` bytes; version 1 has no replay commands. */
  method EncodeCommand(v2: bool, p: CommandPayload, size: nat) returns (status: CodecStatus, bytes: seq<Byte>)
    ensures (status, bytes)
      == if size != COMMAND_SIZE then (InvalidSize, []) else if v2 then EncodeCommandV2(p) else EncodeCommandV1(p)
  {
    hide Pack, Total, CommandFields;
    bytes := [];
    if size != COMMAND_SIZE {
      status := InvalidSize;
    } else if !KnownV1(p.message) && !(v2 && (p.message.StartReplay? || p.message.StopReplay?)) {
      status := InvalidType;
    } else {
      CommandRowStart(p.message);
      var row := CommandRow(p.message);
      OffsetIs(row, COMMAND_SIZE, |row.widths|);
      bytes := Serialize(row.widths, CommandFields(p), COMMAND_SIZE);
      status := Ok;
    }
  }

  method DecodeCommand(v2: bool, bytes: seq<Byte>) returns (decoded: Decoded<CommandPayload>)
    ensures decoded == if v2 then DecodeCommandV2(bytes) else DecodeCommandV1(bytes)
  {
    hide ReadField, Pack, CommandRow, CommandFields;
    if |bytes| != COMMAND_SIZE {
      return Refused(InvalidSize);
    }
    var client := ReadNumber(bytes, 0, 8);
    var code := ReadNumber(bytes, 8, 1);
    var message: Command;
    if code == 1 {
      var side := ReadNumber(bytes, 32, 1);
      if side > 1 {
        return Refused(InvalidField);
      }
      message := ReadLimit(bytes, side);
    } else if code == 2 {
      message := SaveSnapshot;
    } else if code == 3 {
      var sequence := ReadNumber(bytes, 16, 8);
      var epoch := ReadNumber(bytes, 24, 8);
      message := LoadSnapshot(sequence, epoch);
    } else if code == 4 {
      message := Shutdown;
    } else if v2 && code == 5 {
      message := StartReplay;
    } else if v2 && code == 6 {
      message := StopReplay;
    } else {
      return Refused(InvalidType);
    }
    var p := CommandPayload(client, message);
    var status, canonical := EncodeCommand(v2, p, COMMAND_SIZE);
    decoded := if status != Ok then Refused(status) else if bytes != canonical then Refused(NonCanonicalBytes)
      else Decoded(p);
  }

  method ReadLimit(bytes: seq<Byte>, side: nat) returns (message: Command)
    requires |bytes| == COMMAND_SIZE
    ensures ReadField(bytes, 36, 4) < U32 && ReadField(bytes, 40, 4) < U32
    ensures message
      == NewLimit(OrderView(ReadField(bytes, 16, 8), ReadField(bytes, 24, 8), if side == 0 then Bid else Ask,
          ReadField(bytes, 36, 4), ReadField(bytes, 40, 4)))
  {
    hide ReadField;
    var id := ReadNumber(bytes, 16, 8);
    var owner := ReadNumber(bytes, 24, 8);
    var price := ReadNumber(bytes, 36, 4);
    var quantity := ReadNumber(bytes, 40, 4);
    ReadBound(bytes, 36);
    ReadBound(bytes, 40);
    message := NewLimit(OrderView(id, owner, if side == 0 then Bid else Ask, price, quantity));
  }

  method EncodeEvent(v2: bool, p: EventPayload, size: nat) returns (status: CodecStatus, bytes: seq<Byte>)
    ensures (status, bytes)
      == if size != EVENT_SIZE then (InvalidSize, []) else if v2 then EncodeEventV2(p) else EncodeEventV1(p)
  {
    hide Pack, Total, HeadFields, BodyFields;
    bytes := [];
    if size != EVENT_SIZE {
      status := InvalidSize;
    } else if !v2 && (p.message.ReplayStarted? || p.message.ReplayStopped?) {
      status := InvalidType;
    } else {
      HeadRowIs();
      EventRows(p.message);
      var row := EventRow(p.message);
      OffsetIs(HeadRow(), HEAD_SIZE, |HeadRow().widths|);
      OffsetIs(row, BODY_SIZE, |row.widths|);
      var head := Serialize(HeadRow().widths, HeadFields(p), HEAD_SIZE);
      var body := Serialize(row.widths, BodyFields(p.message), BODY_SIZE);
      bytes := head + body;
      status := Ok;
    }
  }

  method DecodeEvent(v2: bool, bytes: seq<Byte>) returns (decoded: Decoded<EventPayload>)
    ensures decoded == if v2 then DecodeEventV2(bytes) else DecodeEventV1(bytes)
  {
    hide ReadField, EventBytes;
    if |bytes| != EVENT_SIZE {
      return Refused(InvalidSize);
    }
    var flag := ReadNumber(bytes, 20, 1);
    if flag > 1 {
      return Refused(InvalidField);
    }
    var code := ReadNumber(bytes, 21, 1);
    var message: Decoded<Event>;
    if v2 && code == 10 {
      message := Decoded(ReplayStarted);
    } else if v2 && code == 11 {
      message := Decoded(ReplayStopped);
    } else {
      message := ReadMessage(bytes, code);
    }
    if message.Refused? {
      return Refused(message.status);
    }
    var client := ReadNumber(bytes, 0, 8);
    var sequence := ReadNumber(bytes, 8, 8);
    var index := ReadNumber(bytes, 16, 4);
    var p := EventPayload(client, sequence, index, flag != 0, message.payload);
    var status, canonical := EncodeEvent(v2, p, EVENT_SIZE);
    decoded := if status != Ok then Refused(status) else if bytes != canonical then Refused(NonCanonicalBytes)
      else Decoded(p);
  }

  method ReadMessage(bytes: seq<Byte>, code: nat) returns (message: Decoded<Event>)
    requires |bytes| == EVENT_SIZE
    ensures message == ReadEvent(bytes, code)
  {
    hide ReadField, RejectOf, FatalOf;
    var first := ReadNumber(bytes, 24, 8);
    var second := ReadNumber(bytes, 32, 8);
    if code == 1 {
      message := Decoded(OrderAccepted(first));
    } else if code == 2 {
      var reason := ReadNumber(bytes, 32, 1);
      message := if reason > 3 then Refused(InvalidField) else Decoded(OrderRejected(first, RejectOf(reason)));
    } else if code == 3 {
      message := ReadTrade(bytes, first, second);
    } else if code == 4 {
      message := ReadRested(bytes, first, second);
    } else if code == 5 {
      message := Decoded(OrderDone(first));
    } else if code == 6 {
      message := Decoded(SnapshotSaved);
    } else if code == 7 {
      message := Decoded(SnapshotLoaded(first, second));
    } else if code == 8 {
      message := Decoded(ShutDown);
    } else if code == 9 {
      var reason := ReadNumber(bytes, 24, 1);
      var last := ReadNumber(bytes, 40, 8);
      message := if reason > 10 then Refused(InvalidField) else Decoded(MatcherFatal(FatalOf(reason), second, last));
    } else {
      message := Refused(InvalidType);
    }
  }

  method ReadTrade(bytes: seq<Byte>, taker: nat, maker: nat) returns (message: Decoded<Event>)
    requires |bytes| == EVENT_SIZE && taker == ReadField(bytes, 24, 8) && maker == ReadField(bytes, 32, 8)
    ensures message == ReadEvent(bytes, 3)
  {
    hide ReadField;
    var takerOwner := ReadNumber(bytes, 40, 8);
    var makerOwner := ReadNumber(bytes, 48, 8);
    var price := ReadNumber(bytes, 56, 4);
    var quantity := ReadNumber(bytes, 60, 4);
    ReadBound(bytes, 56);
    ReadBoundAtEnd(bytes, 60);
    message := Decoded(Trade(taker, maker, takerOwner, makerOwner, price, quantity));
  }

  method ReadRested(bytes: seq<Byte>, id: nat, owner: nat) returns (message: Decoded<Event>)
    requires |bytes| == EVENT_SIZE && id == ReadField(bytes, 24, 8) && owner == ReadField(bytes, 32, 8)
    ensures message == ReadEvent(bytes, 4)
  {
    hide ReadField;
    var side := ReadNumber(bytes, 40, 1);
    if side > 1 {
      return Refused(InvalidField);
    }
    var price := ReadNumber(bytes, 44, 4);
    var remaining := ReadNumber(bytes, 48, 4);
    ReadBound(bytes, 44);
    ReadBound(bytes, 48);
    message := Decoded(OrderRested(OrderView(id, owner, if side == 0 then Bid else Ask, price, remaining)));
  }
}
