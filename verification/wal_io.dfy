/** The log file, its writer, the validating reader, the scanner and the recovery, step by step;
    each is proved against the functions of the bytes in `WalScan` and `WalRecovery`. */
module WalIo {
  import opened ByteWords
  import opened Crc32
  import opened WalFormat
  import opened WalLog
  import opened WalScan
  import opened WalScanLaws
  import opened WalRecovery
  import opened Sequences
  import opened Modular

  // ---------------------------------------------------------------- fields in place

  method PutLE(out: array<Byte>, offset: nat, value: nat, n: nat)
    requires offset + n <= out.Length
    modifies out
    ensures out[..] == old(out[..offset]) + LE(value, n) + old(out[offset + n..])
  {
    hide ToByte;
    ghost var was := out[..];
    var rest := value;
    LEShift(value, n, 0);
    for i := 0 to n
      invariant out[..] == was[..offset] + LE(value, n)[..i] + was[offset + i..]
      invariant LE(rest, n - i) == LE(value, n)[i..]
    {
      var all := LE(value, n);
      assert LE(rest, n - i)[0] == ToByte(rest % 256) == all[i..][0];
      out[offset + i] := ToByte(rest % 256);
      assert all[..i + 1] == all[..i] + [all[i]];
      assert LE(rest, n - i)[1..] == all[i + 1..];
      rest := rest / 256;
    }
    assert LE(value, n)[..n] == LE(value, n);
  }

  lemma LEShift(v: nat, n: nat, i: nat)
    requires i <= n
    ensures i == 0 ==> LE(v, n) == LE(v, n)[i..]
  {
  }

  method GetLE(bytes: seq<Byte>, offset: nat, n: nat) returns (value: nat)
    requires offset + n <= |bytes|
    ensures value == Number(bytes[offset..offset + n])
  {
    hide FromByte;
    value := 0;
    var i: nat := n;
    while i > 0
      invariant i <= n && value == Number(bytes[offset + i..offset + n])
    {
      i := i - 1;
      assert bytes[offset + i..offset + n][1..] == bytes[offset + i + 1..offset + n];
      value := FromByte(bytes[offset + i]) + 256 * value;
    }
  }

  /** The fields of a header, each at the end of the ones before it. */
  method Serialize(widths: seq<nat>, fields: seq<nat>, size: nat) returns (bytes: seq<Byte>)
    requires |widths| == |fields| && size == Total(widths)
    ensures bytes == Pack(widths, fields)
  {
    hide LE;
    var out := new Byte[size](_ => 0);
    var offset: nat := 0;
    TotalSplit(widths, 0);
    for k := 0 to |widths|
      invariant offset == Total(widths[..k]) <= size
      invariant out[..offset] == Pack(widths[..k], fields[..k])
    {
      TotalSplit(widths, k);
      TotalSplit(widths, k + 1);
      PackSnoc(widths, fields, k);
      ghost var before := out[..];
      PutLE(out, offset, fields[k], widths[k]);
      assert out[..offset + widths[k]] == before[..offset] + LE(fields[k], widths[k]);
      offset := offset + widths[k];
    }
    assert widths[..|widths|] == widths && fields[..|widths|] == fields;
    bytes := out[..];
    assert out[..offset] == out[..];
  }

  lemma TotalSplit(widths: seq<nat>, k: nat)
    requires k <= |widths|
    ensures Total(widths[..k]) <= Total(widths)
    ensures k < |widths| ==> Total(widths[..k + 1]) == Total(widths[..k]) + widths[k]
  {
    hide Total;
    TotalConcat(widths[..k], widths[k..]);
    assert widths == widths[..k] + widths[k..];
    if k < |widths| {
      assert widths[..k + 1] == widths[..k] + [widths[k]];
      TotalConcat(widths[..k], [widths[k]]);
      TotalOf1([widths[k]]);
    }
  }

  lemma PackSnoc(widths: seq<nat>, fields: seq<nat>, k: nat)
    requires |widths| == |fields| && k < |widths|
    ensures Pack(widths[..k + 1], fields[..k + 1]) == Pack(widths[..k], fields[..k]) + LE(fields[k], widths[k])
  {
    hide Pack;
    assert widths[..k + 1] == widths[..k] + [widths[k]] && fields[..k + 1] == fields[..k] + [fields[k]];
    PackConcat(widths[..k], fields[..k], [widths[k]], [fields[k]]);
    PackOne(widths[k], fields[k]);
  }

  method Deserialize(widths: seq<nat>, bytes: seq<Byte>) returns (fields: seq<nat>)
    requires |bytes| == Total(widths)
    ensures fields == Unpack(widths, bytes)
  {
    hide Number;
    fields := [];
    var offset: nat := 0;
    for k := 0 to |widths|
      invariant offset <= |bytes| && |bytes[offset..]| == Total(widths[k..])
      invariant fields + Unpack(widths[k..], bytes[offset..]) == Unpack(widths, bytes)
    {
      assert widths[k..][1..] == widths[k + 1..];
      assert bytes[offset..][widths[k]..] == bytes[offset + widths[k]..];
      assert bytes[offset..][..widths[k]] == bytes[offset..offset + widths[k]];
      var value := GetLE(bytes, offset, widths[k]);
      fields := fields + [value];
      offset := offset + widths[k];
    }
  }

  /** A header with its checksum filled in. */
  method Seal(widths: seq<nat>, fields: seq<nat>, size: nat) returns (bytes: seq<Byte>)
    requires |widths| == |fields| && size == Total(widths + [4])
    ensures bytes == Sealed(widths, fields)
  {
    hide Pack, Total, Checksum;
    var zeroed := Serialize(widths + [4], fields + [0], size);
    var crc := Crc32Bytes(zeroed);
    bytes := Serialize(widths + [4], fields + [crc], size);
  }

  // ---------------------------------------------------------------- the file and its writer

  /** A file on a device that decides, call by call, how many bytes of a write it takes and
      whether a sync succeeds. */
  class LogFile {
    const takes: nat -> nat
    const syncs: nat -> bool
    var bytes: seq<Byte>
    var synced: nat
    var writeCalls: nat
    var syncCalls: nat

    constructor (takes: nat -> nat, syncs: nat -> bool)
      ensures bytes == [] && synced == 0
    {
      this.takes, this.syncs := takes, syncs;
      bytes, synced, writeCalls, syncCalls := [], 0, 0, 0;
    }

    method Write(data: seq<Byte>) returns (ok: bool)
      modifies this
      ensures synced == old(synced)
      ensures old(bytes) <= bytes <= old(bytes) + data && (ok <==> bytes == old(bytes) + data)
    {
      var n := takes(writeCalls);
      writeCalls := writeCalls + 1;
      ok := n >= |data|;
      bytes := bytes + if ok then data else data[..n];
    }

    method Sync() returns (ok: bool)
      modifies this
      ensures bytes == old(bytes) && synced == if ok then |bytes| else old(synced)
    {
      ok := syncs(syncCalls);
      syncCalls := syncCalls + 1;
      if ok {
        synced := |bytes|;
      }
    }

    /** Writes `n` zeros, at most 64 at a time. */
    method WriteZeros(n: nat) returns (ok: bool)
      modifies this
      ensures synced == old(synced)
      ensures old(bytes) <= bytes <= old(bytes) + Zeros(n) && (ok <==> bytes == old(bytes) + Zeros(n))
    {
      var remaining: nat := n;
      ok := true;
      assert Zeros(0) == [];
      while remaining != 0
        invariant remaining <= n && synced == old(synced)
        invariant bytes == old(bytes) + Zeros(n - remaining)
      {
        var chunk := if remaining < 64 then remaining else 64;
        var before := bytes;
        ok := Write(Zeros(chunk));
        assert Zeros(n - remaining) + Zeros(chunk) == Zeros(n - remaining + chunk);
        assert Zeros(n - remaining + chunk) <= Zeros(n);
        if !ok {
          assert before + Zeros(chunk) <= old(bytes) + Zeros(n);
          return;
        }
        remaining := remaining - chunk;
      }
      ok := true;
    }
  }

  datatype CreateStatus = Created | FileAlreadyExists | CreateFailed

  /** The append side of a log file. */
  class PhysicalLog {
    const file: LogFile
    const config: Config

    constructor (file: LogFile, config: Config)
      ensures this.file == file && this.config == config
    {
      this.file, this.config := file, config;
    }

    /** Writes and syncs the head of a new file, and syncs its directory; `present` says that there
        is a file of that name, `directorySyncs` whether the directory can be synced. */
    method Create(present: bool, directorySyncs: bool) returns (status: CreateStatus)
      requires config.alignment > 0 && (!present ==> file.bytes == [])
      modifies file
      ensures status == FileAlreadyExists <==> present
      ensures present ==> file.bytes == old(file.bytes) && file.synced == old(file.synced)
      ensures !present ==> file.bytes <= FileHead(config)
      ensures status == Created ==> directorySyncs && file.bytes == FileHead(config) && file.synced == |file.bytes|
    {
      if present {
        return FileAlreadyExists;
      }
      var ok := WriteHead();
      status := if ok && directorySyncs then Created else CreateFailed;
    }

    method WriteHead() returns (ok: bool)
      requires config.alignment > 0 && file.bytes == []
      modifies file
      ensures ok ==> file.bytes == FileHead(config) && file.synced == |file.bytes|
      ensures file.bytes <= FileHead(config)
    {
      hide Sealed, FileFields, Zeros, RecordsOffset, Total, FileHead;
      FileHeaderSize();
      HeadPieces(config);
      var header := Seal(FILE_WIDTHS, FileFields(config), FILE_HEADER);
      ok := file.Write(header);
      if ok {
        ok := file.WriteZeros(RecordsOffset(config) - FILE_HEADER);
      }
      if ok {
        ok := file.Sync();
      }
    }

    /** Appends a record; a failure leaves some of its bytes behind. */
    method AppendRecord(sequence: nat, payload: seq<Byte>) returns (ok: bool)
      requires config.alignment > 0
      modifies file
      ensures file.synced == old(file.synced)
      ensures |payload| != config.payloadSize ==> !ok && file.bytes == old(file.bytes)
      ensures old(file.bytes) <= file.bytes <= old(file.bytes) + RecordBytes(config, sequence, payload)
      ensures |payload| == config.payloadSize ==>
        (ok <==> file.bytes == old(file.bytes) + RecordBytes(config, sequence, payload))
    {
      hide Sealed, RecordFields, Checksum, Zeros;
      RecordHeaderSize();
      if |payload| != config.payloadSize {
        return false;
      }
      var crc := Crc32Bytes(payload);
      var header := SealRecord(sequence, crc, payload);
      ghost var start := file.bytes;
      ghost var padding := Zeros(Stride(config) - RECORD_HEADER - config.payloadSize);
      Pieces(start, header, payload, padding);
      ok := file.Write(header);
      if ok {
        ok := file.Write(payload);
      }
      if ok {
        ok := file.WriteZeros(Stride(config) - RECORD_HEADER - config.payloadSize);
      }
    }

    method Sync() returns (ok: bool)
      modifies file
      ensures file.bytes == old(file.bytes) && file.synced == if ok then |file.bytes| else old(file.synced)
    {
      ok := file.Sync();
    }
  }

  lemma HeadPieces(c: Config)
    requires c.alignment > 0
    ensures |FILE_WIDTHS| == |FileFields(c)|
      && FileHead(c) == Sealed(FILE_WIDTHS, FileFields(c)) + Zeros(RecordsOffset(c) - FILE_HEADER)
    ensures [] + FileHead(c) == FileHead(c) && Sealed(FILE_WIDTHS, FileFields(c)) <= FileHead(c)
  {
    hide Sealed, FileFields, Zeros, RecordsOffset, Total;
    FileHeaderSize();
  }

  lemma Pieces(start: seq<Byte>, a: seq<Byte>, b: seq<Byte>, c: seq<Byte>)
    ensures start + (a + b + c) == (start + a) + (b + c) == ((start + a) + b) + c
    ensures start + a <= start + (a + b + c) && (start + a) + b <= start + (a + b + c)
  {
  }

  method SealRecord(sequence: nat, crc: nat, ghost payload: seq<Byte>) returns (header: seq<Byte>)
    requires crc == Checksum(payload)
    ensures header == Sealed(RECORD_WIDTHS, RecordFields(sequence, payload))
  {
    hide Sealed, Total;
    RecordHeaderSize();
    header := Seal(RECORD_WIDTHS, [RECORD_MAGIC, VERSION, RECORD_HEADER, sequence, crc], RECORD_HEADER);
  }

  // ---------------------------------------------------------------- the reader

  function PayloadCrcField(header: seq<Byte>): nat
    requires |header| == RECORD_HEADER
  {
    RecordHeaderSize();
    Unpack(RECORD_WIDTHS + [4], header)[4]
  }

  datatype ReaderOpenStatus = ReaderOpened | AlreadyOpen | ReaderConfigInvalid | OpenFailed

  datatype ReadStatus = ReaderClosed | WrongPayloadSize | Attempted

  datatype PhysicalStatus = Complete | EndOfFile | Incomplete

  /** A validating reader; it stands at `offset`, and a failure is final. */
  class WalReader {
    const file: LogFile
    var config: Config
    var position: nat
    var nextSequence: nat
    var nextOffset: nat
    var failure: ReadError
    var sequenceExhausted: bool
    var isOpen: bool

    constructor (file: LogFile)
      ensures this.file == file && !isOpen
      ensures nextSequence == 0 && nextOffset == 0 && !sequenceExhausted && failure == NoError
    {
      this.file := file;
      config := Config(0, 0, 0, 0, 0, 0, 0, 0);
      position, nextSequence, nextOffset := 0, 0, 0;
      failure, sequenceExhausted, isOpen := NoError, false, false;
    }

    ghost predicate Ready()
      reads this, file
    {
      isOpen && ValidConfig(config, 1) && config.alignment > 0 && config.payloadSize > 0
        && (failure == NoError ==> position == nextOffset <= |file.bytes|)
    }

    /** Fills a buffer of `n` bytes from the file, as far as it goes. */
    method Fill(n: nat) returns (status: PhysicalStatus, data: seq<Byte>)
      requires position <= |file.bytes| && n > 0
      modifies `position
      ensures status
        == (if old(position) + n <= |file.bytes| then Complete else if old(position) == |file.bytes| then EndOfFile
            else Incomplete)
      ensures status == Complete ==> position == old(position) + n && data == Slice(file.bytes, old(position), n)
      ensures old(position) <= position <= |file.bytes|
    {
      if position + n <= |file.bytes| {
        status, data := Complete, file.bytes[position..position + n];
        position := position + n;
      } else {
        status := if position == |file.bytes| then EndOfFile else Incomplete;
        data := file.bytes[position..];
        position := |file.bytes|;
      }
    }

    method ReadZeroPadding(size: nat, incomplete: ReadError) returns (error: ReadError)
      requires position <= |file.bytes|
      modifies `position
      ensures error == PaddingError(file.bytes, old(position), size, incomplete)
      ensures old(position) <= position <= |file.bytes|
        && (error == NoError && incomplete != NoError ==> position == old(position) + size)
    {
      var remaining: nat := size;
      while remaining != 0
        invariant remaining <= size && position == old(position) + size - remaining <= |file.bytes|
        invariant PaddingError(file.bytes, position, remaining, incomplete)
          == PaddingError(file.bytes, old(position), size, incomplete)
      {
        var chunk := if remaining < CHUNK then remaining else CHUNK;
        var status, data := Fill(chunk);
        if status != Complete {
          return incomplete;
        }
        if !AllZero(data) {
          return NonZeroPadding;
        }
        remaining := remaining - chunk;
      }
      return NoError;
    }

    /** Opens the log of this configuration. */
    method Open(expected: Config) returns (status: ReaderOpenStatus, error: ReadError)
      modifies this
      ensures status == (
                if old(isOpen) then AlreadyOpen
                else if !ValidConfig(expected, 1) then ReaderConfigInvalid
                else if OpenError(expected, file.bytes) != NoError then OpenFailed
                else ReaderOpened)
      ensures error == if status == OpenFailed then OpenError(expected, file.bytes) else NoError
      ensures isOpen == (status == ReaderOpened || status == AlreadyOpen)
      ensures status == AlreadyOpen || status == ReaderConfigInvalid ==> unchanged(this)
      ensures status == OpenFailed ==>
        (config, nextSequence, nextOffset, sequenceExhausted, failure)
        == old((config, nextSequence, nextOffset, sequenceExhausted, failure))
      ensures status == ReaderOpened ==> Opened(expected)
    {
      hide AlignUp, OpenError, RecordsOffset;
      if isOpen {
        return AlreadyOpen, NoError;
      }
      if !ValidConfig(expected, 1) {
        return ReaderConfigInvalid, NoError;
      }
      error := OpenFile(expected);
      status := if error != NoError then OpenFailed else ReaderOpened;
    }

    /** The reader stands at the first record of the log. */
    ghost predicate Opened(expected: Config)
      reads this, file
    {
      && Ready() && config == expected && expected.alignment > 0 && nextSequence == expected.firstSequence
      && nextOffset == RecordsOffset(expected) && failure == NoError && !sequenceExhausted
    }

    method OpenFile(expected: Config) returns (error: ReadError)
      requires !isOpen && ValidConfig(expected, 1)
      modifies this
      ensures error == OpenError(expected, file.bytes)
      ensures isOpen == (error == NoError)
      ensures !isOpen ==>
        (config, nextSequence, nextOffset, sequenceExhausted, failure)
        == old((config, nextSequence, nextOffset, sequenceExhausted, failure))
      ensures isOpen ==> Ready() && config == expected && nextSequence == expected.firstSequence
                         && nextOffset == RecordsOffset(expected) && failure == NoError && !sequenceExhausted
    {
      hide AlignUp, PowerOfTwo, RecordsOffset, FileHeaderError, PaddingError;
      position := 0;
      var status, header := Fill(FILE_HEADER);
      if status != Complete {
        return IncompleteFileHeader;
      }
      error := CheckFileHeader(expected, header);
      if error != NoError {
        return;
      }
      error := ReadZeroPadding(RecordsOffset(expected) - FILE_HEADER, IncompleteFileHeader);
      if error != NoError {
        if error == NonZeroPadding {
          error := InvalidPhysicalLayout;
        }
        return;
      }
      config := expected;
      nextSequence := expected.firstSequence;
      nextOffset := RecordsOffset(expected);
      failure := NoError;
      sequenceExhausted := false;
      isOpen := true;
    }

    static method CheckFileHeader(expected: Config, header: seq<Byte>) returns (error: ReadError)
      requires |header| == FILE_HEADER
      ensures error == FileHeaderError(expected, header)
    {
      hide Unpack, Pack, Total, Checksum, AlignUp, PowerOfTwo;
      FileHeaderSize();
      var fields := Deserialize(FILE_WIDTHS + [4], header);
      var intact := CheckSeal(FILE_WIDTHS, header, fields);
      if fields[0] != FILE_MAGIC {
        error := InvalidFileMagic;
      } else if fields[1] != VERSION {
        error := UnsupportedFormatVersion;
      } else if fields[2] != FILE_HEADER {
        error := InvalidFileHeaderSize;
      } else if !intact {
        error := InvalidFileHeaderCrc;
      } else if fields[3] > 2 {
        error := InvalidStreamKind;
      } else if fields[4] != 0 {
        error := UnsupportedFlags;
      } else {
        var actual := HeaderConfig(fields);
        if !ValidConfig(actual, 1) || fields[8] != RecordsOffset(actual) {
          error := InvalidPhysicalLayout;
        } else if actual != expected {
          error := IdentityMismatch;
        } else {
          error := NoError;
        }
      }
    }

    /** Recomputes a header's checksum with the stored one set to zero. */
    static method CheckSeal(widths: seq<nat>, header: seq<Byte>, fields: seq<nat>) returns (intact: bool)
      requires |header| == Total(widths + [4]) && fields == Unpack(widths + [4], header)
      ensures intact == Intact(widths, header)
    {
      hide Unpack, Pack, Total, Checksum;
      var zeroed := Serialize(widths + [4], fields[..|widths|] + [0], |header|);
      var crc := Crc32Bytes(zeroed);
      intact := fields[|widths|] == crc;
    }

    static method CheckRecordHeader(next: nat, header: seq<Byte>) returns (error: ReadError, payloadCrc: nat)
      requires |header| == RECORD_HEADER
      ensures error == RecordHeaderError(next, header)
      ensures PayloadCrcField(header) == payloadCrc
    {
      hide Unpack, Pack, Total, Checksum;
      RecordHeaderSize();
      var fields := Deserialize(RECORD_WIDTHS + [4], header);
      var intact := CheckSeal(RECORD_WIDTHS, header, fields);
      payloadCrc := fields[4];
      if fields[0] != RECORD_MAGIC {
        error := InvalidRecordMagic;
      } else if fields[1] != VERSION {
        error := UnsupportedFormatVersion;
      } else if fields[2] != RECORD_HEADER {
        error := InvalidRecordHeaderSize;
      } else if !intact {
        error := InvalidRecordHeaderCrc;
      } else if fields[3] != next {
        error := UnexpectedSequence;
      } else {
        error := NoError;
      }
    }

    /** Reads and validates the next record into a buffer of `size` bytes. */
    method ReadNext(size: nat) returns (status: ReadStatus, outcome: ReadOutcome, sequence: nat)
      requires isOpen ==> Ready()
      modifies this
      ensures isOpen == old(isOpen) && (isOpen ==> Ready()) && config == old(config)
      ensures status == (
                if !old(isOpen) then ReaderClosed
                else if old(failure) == NoError && size != config.payloadSize then WrongPayloadSize
                else Attempted)
      ensures status != Attempted ==> unchanged(this)
      ensures status == Attempted && old(failure) != NoError ==> outcome == Failed(old(failure)) && unchanged(this)
      ensures status == Attempted && old(failure) == NoError ==>
        && config.alignment > 0
        && outcome == ReadAt(config, file.bytes, old(nextOffset), old(nextSequence), old(sequenceExhausted))
        && failure == (if outcome.Failed? then outcome.error else NoError)
        && (if outcome.Record? then
              sequence == old(nextSequence) && nextOffset == old(nextOffset) + Stride(config)
              && sequenceExhausted == (sequence == MAX_SEQUENCE)
              && nextSequence == (if sequenceExhausted then sequence else sequence + 1)
            else (nextSequence, nextOffset, sequenceExhausted) == old((nextSequence, nextOffset, sequenceExhausted)))
    {
      hide ReadAt, ValidConfig, Stride;
      status, outcome, sequence := Attempted, EndOfLog, 0;
      if !isOpen {
        return ReaderClosed, EndOfLog, 0;
      }
      if failure != NoError {
        return Attempted, Failed(failure), 0;
      }
      if size != config.payloadSize {
        return WrongPayloadSize, EndOfLog, 0;
      }
      outcome := ReadRecord();
      if outcome.Failed? {
        failure := outcome.error;
      } else if outcome.Record? {
        sequence := nextSequence;
        if nextSequence == MAX_SEQUENCE {
          sequenceExhausted := true;
        } else {
          nextSequence := nextSequence + 1;
        }
        nextOffset := nextOffset + Stride(config);
      }
    }

    /** The three parts of a record, read one after the other. */
    method ReadRecord() returns (outcome: ReadOutcome)
      requires Ready() && failure == NoError
      modifies `position
      ensures outcome == ReadAt(config, file.bytes, nextOffset, nextSequence, sequenceExhausted)
      ensures (outcome.Record? ==> !sequenceExhausted) && (outcome.Failed? ==> outcome.error != NoError)
      ensures position <= |file.bytes| && (outcome.Record? ==> position == nextOffset + Stride(config))
        && (outcome == EndOfLog ==> position == nextOffset)
    {
      hide ValidConfig, PaddingError, RecordHeaderError, Checksum, Unpack;
      var status, header := Fill(RECORD_HEADER);
      if status == EndOfFile {
        return EndOfLog;
      }
      if status != Complete {
        return Failed(IncompleteRecordHeader);
      }
      if sequenceExhausted {
        return Failed(UnexpectedSequence);
      }
      var error, payloadCrc := CheckRecordHeader(nextSequence, header);
      if error != NoError {
        return Failed(error);
      }
      var payload: seq<Byte>;
      status, payload := Fill(config.payloadSize);
      if status != Complete {
        return Failed(IncompletePayload);
      }
      var crc := Crc32Bytes(payload);
      if crc != payloadCrc {
        return Failed(InvalidPayloadCrc);
      }
      error := ReadZeroPadding(Stride(config) - RECORD_HEADER - config.payloadSize, IncompletePadding);
      if error != NoError {
        return Failed(error);
      }
      return Record(payload);
    }
  }

  // ---------------------------------------------------------------- scanning and recovering

  /** Reads every record of a file. */
  method ScanWal(file: LogFile, expected: Config) returns (result: ScanResult)
    ensures result == Scan(expected, file.bytes)
  {
    hide ReadAt, OpenError, AlignUp, PowerOfTwo, ScanFrom, Stride, RecordsOffset;
    var reader := new WalReader(file);
    var status, error := reader.Open(expected);
    if status != ReaderOpened {
      return ScanResult(if status == ReaderConfigInvalid then InvalidConfig else Corrupted, error, 0, 0, 0);
    }
    result := ScanRecords(reader);
  }

  method ScanRecords(reader: WalReader) returns (result: ScanResult)
    requires reader.Ready() && reader.failure == NoError && !reader.sequenceExhausted
    modifies reader
    ensures var c := old(reader.config);
            c.alignment > 0
              && result == ScanFrom(c, reader.file.bytes, old(reader.nextOffset), old(reader.nextSequence), false, 0, 0)
  {
    hide ReadAt, ValidConfig, Stride;
    ghost var c, whole := reader.config,
      ScanFrom(reader.config, reader.file.bytes, reader.nextOffset, reader.nextSequence, false, 0, 0);
    result := ScanResult(Clean, NoError, 0, 0, reader.nextOffset);
    while true
      invariant reader.Ready() && reader.failure == NoError && reader.config == c
      invariant result == ScanResult(Clean, NoError, result.records, result.lastSequence, reader.nextOffset)
      invariant ScanFrom(c, reader.file.bytes, reader.nextOffset, reader.nextSequence, reader.sequenceExhausted,
          result.records, result.lastSequence) == whole
      decreases |reader.file.bytes| - reader.nextOffset
    {
      StridePositive(c);
      var _, outcome, sequence := reader.ReadNext(reader.config.payloadSize);
      match outcome {
        case Record(_) =>
          result := ScanResult(Clean, NoError, result.records + 1, sequence, reader.nextOffset);
        case EndOfLog =>
          return;
        case Failed(error) =>
          result := result.(status := ScanStatusFor(error), error := error);
          return;
      }
    }
  }

  /** Truncates an incomplete tail after a scan, and scans again. */
  method RecoverIncompleteTail(file: LogFile, expected: Config, outcome: TruncateOutcome)
      returns (result: RecoveryResult)
    modifies file
    ensures (result, file.bytes) == Recover(expected, old(file.bytes), outcome)
  {
    hide Scan;
    var original := |file.bytes|;
    var before := ScanWal(file, expected);
    match before.status {
      case Clean => return FromScan(AlreadyClean, before, original, original);
      case InvalidConfig => return FromScan(RefusedConfig, before, original, original);
      case Corrupted => return FromScan(Refused, before, original, original);
      case IncompleteTail =>
    }
    if before.lastValidOffset > original || outcome.TruncateFailed? {
      return FromScan(RecoveryIoError, before, original, original);
    }
    file.bytes := file.bytes[..before.lastValidOffset];
    if outcome.TruncateSyncFailed? {
      return FromScan(RecoveryIoError, before, original, |file.bytes|);
    }
    file.synced := |file.bytes|;
    var after := ScanWal(file, expected);
    if after.status != Clean || after.lastValidOffset != before.lastValidOffset
       || after.records != before.records || after.lastSequence != before.lastSequence {
      return FromScan(RecoveryIoError, after, original, |file.bytes|);
    }
    result := FromScan(Recovered, after, original, |file.bytes|).(error := before.error);
  }
}
