/** Logs the writer did not write as one: records of another sequence, logs of another
    configuration, and any bytes at all. And the layout of those it did write. */
module WalScanBounds {
  import opened ByteWords
  import opened Crc32
  import opened Modular
  import opened Sequences
  import opened WalFormat
  import opened Pieces
  import opened WalLog
  import opened WalScan
  import opened WalScanLaws
  import opened WalRecovery

  // ---------------------------------------------------------------- a gap in the sequences

  /** A sealed record header of another sequence. */
  lemma OtherSequenceRead(next: nat, sequence: nat, payload: seq<Byte>)
    requires sequence < U64 && sequence != next
    ensures var header := Sealed(RECORD_WIDTHS, RecordFields(sequence, payload));
            |header| == RECORD_HEADER && RecordHeaderError(next, header) == UnexpectedSequence
  {
    hide Pack, Unpack, LE, Number, Total, Checksum, Sealed, Intact;
    RecordHeaderRead(sequence, payload);
    RecordHeaderSize();
    var fields := RecordFields(sequence, payload);
    FourBytes();
    assert Fits(RECORD_WIDTHS, fields);
    SealedIsIntact(RECORD_WIDTHS, fields);
    var all := Unpack(RECORD_WIDTHS + [4], Sealed(RECORD_WIDTHS, fields));
    assert forall i :: 0 <= i < 5 ==> all[i] == all[..5][i] == fields[i];
  }

  lemma ReadOtherSequence(c: Config, bytes: seq<Byte>, at: nat, next: nat, exhausted: bool, sequence: nat,
                          payload: seq<Byte>)
    requires c.alignment > 0 && |payload| == c.payloadSize && sequence < U64 && (sequence != next || exhausted)
    requires at + RECORD_HEADER <= |bytes| && |RecordBytes(c, sequence, payload)| >= RECORD_HEADER
    requires bytes[at..at + RECORD_HEADER] == RecordBytes(c, sequence, payload)[..RECORD_HEADER]
    ensures ReadAt(c, bytes, at, next, exhausted) == Failed(UnexpectedSequence)
  {
    hide Sealed, RecordFields, RecordBytes, RecordHeaderError, Unpack, Checksum, PaddingError;
    RecordParts(c, sequence, payload);
    if sequence != next {
      OtherSequenceRead(next, sequence, payload);
    }
  }

  /** Whole records, and then an intact one that is not the next: the scan reports corruption and
      counts exactly the whole records, whatever follows, and recovery leaves the file alone. */
  lemma GapIsCorruption(c: Config, payloads: seq<seq<Byte>>, sequence: nat, payload: seq<Byte>, rest: seq<Byte>)
    requires c.alignment > 0 && Writable(c, payloads) && |payload| == c.payloadSize && sequence < U64
    requires c.firstSequence + |payloads| < U64 && sequence != c.firstSequence + |payloads|
    ensures SeesDamage(c, LogBytes(c, payloads) + RecordBytes(c, sequence, payload) + rest, |payloads|,
        UnexpectedSequence)
  {
    hide LogBytes, Scan, Recover, ScanFrom, ReadAt, RecordBytes, Writable, Stride, Sealed;
    var log, rec := LogBytes(c, payloads), RecordBytes(c, sequence, payload);
    var bytes, next := log + rec + rest, c.firstSequence + |payloads|;
    RecordParts(c, sequence, payload);
    Behind(log, rec, rest, RECORD_HEADER);
    ScanPrefix(c, payloads, bytes);
    ReadOtherSequence(c, bytes, |log|, next, false, sequence, payload);
    ScanStops(c, bytes, |log|, next, |payloads|, if payloads == [] then 0 else next - 1);
    CorruptedIsRefused(c, bytes);
  }

  lemma Behind(log: seq<Byte>, rec: seq<Byte>, rest: seq<Byte>, n: nat)
    requires n <= |rec|
    ensures log <= log + rec + rest && (log + rec + rest)[|log|..|log| + n] == rec[..n]
  {
  }

  // ---------------------------------------------------------------- any bytes

  lemma {:induction false} PaddingIsShort(bytes: seq<Byte>, at: nat, size: nat, incomplete: ReadError)
    requires PaddingError(bytes, at, size, incomplete) == incomplete
    requires incomplete != NoError && incomplete != NonZeroPadding
    ensures at + size > |bytes|
    decreases size
  {
    if size > 0 {
      var chunk := if size < CHUNK then size else CHUNK;
      if at + chunk <= |bytes| {
        PaddingIsShort(bytes, at + chunk, size - chunk, incomplete);
      }
    }
  }

  /** A record reported as incomplete is not all there, though some of it is. */
  lemma IncompleteIsShort(c: Config, bytes: seq<Byte>, at: nat, next: nat, exhausted: bool)
    requires c.alignment > 0
    requires var r := ReadAt(c, bytes, at, next, exhausted); r.Failed? && ScanStatusFor(r.error) == IncompleteTail
    ensures at < |bytes| < at + Stride(c)
  {
    hide RecordHeaderError, Unpack, Checksum, PaddingError;
    var used := RECORD_HEADER + c.payloadSize;
    NoTailErrors(next, bytes, at);
    if at + used <= |bytes| {
      var padding := PaddingError(bytes, at + used, Stride(c) - used, IncompletePadding);
      PaddingErrors(bytes, at + used, Stride(c) - used);
      if padding == IncompletePadding {
        PaddingIsShort(bytes, at + used, Stride(c) - used, IncompletePadding);
      }
    }
  }

  lemma NoTailErrors(next: nat, bytes: seq<Byte>, at: nat)
    ensures at + RECORD_HEADER <= |bytes| ==>
      ScanStatusFor(RecordHeaderError(next, Slice(bytes, at, RECORD_HEADER))) == Corrupted
  {
    hide Unpack, Intact;
  }

  lemma {:induction false} PaddingErrors(bytes: seq<Byte>, at: nat, size: nat)
    ensures PaddingError(bytes, at, size, IncompletePadding) in {NoError, NonZeroPadding, IncompletePadding}
    decreases size
  {
    if size > 0 {
      var chunk := if size < CHUNK then size else CHUNK;
      PaddingErrors(bytes, at + chunk, size - chunk);
    }
  }

  lemma {:induction false} TailFrom(c: Config, bytes: seq<Byte>, at: nat, next: nat, exhausted: bool, records: nat,
                                    last: nat)
    requires c.alignment > 0
    ensures var r := ScanFrom(c, bytes, at, next, exhausted, records, last);
            r.status == IncompleteTail ==> r.lastValidOffset < |bytes| < r.lastValidOffset + Stride(c)
    decreases |bytes| - at
  {
    hide ReadAt, Stride;
    var r := ReadAt(c, bytes, at, next, exhausted);
    if r.Record? {
      ReadIsInside(c, bytes, at, next, exhausted);
      StridePositive(c);
      TailFrom(c, bytes, at + Stride(c), if next == MAX_SEQUENCE then next else next + 1, next == MAX_SEQUENCE,
          records + 1, next);
    } else if r.Failed? && ScanStatusFor(r.error) == IncompleteTail {
      IncompleteIsShort(c, bytes, at, next, exhausted);
    }
  }

  /** Whatever the file holds: an incomplete tail is less than one record, so recovery never removes
      a whole record's worth of bytes, and it removes something. */
  lemma TailIsShort(c: Config, bytes: seq<Byte>)
    requires c.alignment > 0 && Scan(c, bytes).status == IncompleteTail
    ensures Scan(c, bytes).lastValidOffset < |bytes| < Scan(c, bytes).lastValidOffset + Stride(c)
    ensures 0 < Recover(c, bytes, Truncated).0.removedBytes < Stride(c)
  {
    hide OpenError, ScanFrom, Stride, RecordsOffset, PowerOfTwo, AlignUp;
    TailFrom(c, bytes, RecordsOffset(c), c.firstSequence, false, 0, 0);
    RecoverAnything(c, bytes);
  }

  /** When truncating an incomplete tail fails, nothing is removed; when only its sync fails, the
      tail is gone all the same. Neither counts as recovered. */
  lemma FailedTruncation(c: Config, bytes: seq<Byte>)
    requires c.alignment > 0 && Scan(c, bytes).status == IncompleteTail
    ensures var (result, kept) := Recover(c, bytes, TruncateFailed);
            result.status == RecoveryIoError && kept == bytes && result.removedBytes == 0
    ensures var (result, kept) := Recover(c, bytes, TruncateSyncFailed);
      && result.status == RecoveryIoError && Scan(c, bytes).lastValidOffset <= |bytes|
      && kept == bytes[..Scan(c, bytes).lastValidOffset] && result.removedBytes == |bytes| - |kept|
  {
    TailIsShort(c, bytes);
    hide Scan, Stride;
  }

  // ---------------------------------------------------------------- another configuration

  /** A log of one configuration does not open as one of another: the identity is compared field by
      field. */
  lemma OtherLogIsRefused(c: Config, expected: Config, payloads: seq<seq<Byte>>)
    requires Writable(c, payloads) && ValidConfig(expected, 1) && expected != c
    ensures OpenError(expected, LogBytes(c, payloads)) == IdentityMismatch
    ensures SeesDamage(expected, LogBytes(c, payloads), 0, IdentityMismatch)
  {
    hide LogBytes, OpenError, ScanFrom, RecordsOffset, PowerOfTwo, AlignUp, FileHeaderError, PaddingError;
    LogParts(c, payloads);
    var log := LogBytes(c, payloads);
    HeaderOfOther(c, expected);
    HeadOfLog(c, log);
    OpenOther(c, expected, log);
    assert Scan(expected, log) == ScanResult(Corrupted, IdentityMismatch, 0, 0, 0);
    hide Scan;
    CorruptedIsRefused(expected, log);
  }

  lemma HeadOfLog(c: Config, log: seq<Byte>)
    requires ValidConfig(c, 1) && Representable(c) && |log| >= RecordsOffset(c)
      && log[..RecordsOffset(c)] == FileHead(c)
    ensures |log| >= FILE_HEADER && Slice(log, 0, FILE_HEADER) == Sealed(FILE_WIDTHS, FileFields(c))
  {
    hide Sealed, FileFields, FileHead, PowerOfTwo, AlignUp, RecordsOffset;
    FileHeadParts(c);
    var head := FileHead(c);
    assert log[0..FILE_HEADER] == log[..RecordsOffset(c)][..FILE_HEADER] == head[..FILE_HEADER];
  }

  lemma OpenOther(c: Config, expected: Config, log: seq<Byte>)
    requires c.alignment > 0 && expected.alignment > 0 && |log| >= FILE_HEADER
    requires |Sealed(FILE_WIDTHS, FileFields(c))| == FILE_HEADER
    requires Slice(log, 0, FILE_HEADER) == Sealed(FILE_WIDTHS, FileFields(c))
    requires FileHeaderError(expected, Sealed(FILE_WIDTHS, FileFields(c))) == IdentityMismatch
    ensures OpenError(expected, log) == IdentityMismatch
  {
    hide FileHeaderError, Sealed, FileFields, PaddingError, Slice;
  }

  lemma HeaderOfOther(c: Config, expected: Config)
    requires ValidConfig(c, 1) && Representable(c) && expected != c
    ensures |Sealed(FILE_WIDTHS, FileFields(c))| == FILE_HEADER
    ensures FileHeaderError(expected, Sealed(FILE_WIDTHS, FileFields(c))) == IdentityMismatch
  {
    hide Sealed, Unpack, Intact, Pack, Total, PowerOfTwo, AlignUp;
    FileHeaderSize();
    FileFit(c);
    var fields := FileFields(c);
    SealedIsIntact(FILE_WIDTHS, fields);
    var all := Unpack(FILE_WIDTHS + [4], Sealed(FILE_WIDTHS, fields));
    assert forall i :: 0 <= i < 13 ==> all[i] == all[..13][i] == fields[i];
  }

  // ---------------------------------------------------------------- the layout

  /** Little-endian: byte `i` is digit `i` to the base 256. */
  lemma {:induction false} LittleEndian(v: nat, n: nat, i: nat)
    requires i < n
    ensures FromByte(LE(v, n)[i]) == Digit(v, i)
    decreases n
  {
    hide ToByte, FromByte;
    ByteOfNumber(v % 256);
    if i > 0 {
      LittleEndian(v / 256, n - 1, i - 1);
    }
  }

  function Digit(v: nat, i: nat): nat {
    if i == 0 then v % 256 else Digit(v / 256, i - 1)
  }

  /** The fields of a file header in their order and widths, before its checksum. */
  function FileHeaderFields(c: Config): seq<Byte>
    requires c.alignment > 0
  {
    Flatten([LE(0x5741_4C46, 4), LE(3, 2), LE(64, 2), LE(c.kind, 2), LE(0, 2), LE(c.payloadSize, 4), LE(c.schema, 4),
             LE(c.alignment, 4), LE(AlignUp(64, c.alignment), 4), LE(c.streamId, 8), LE(c.epochId, 8),
             LE(c.firstSequence, 8), LE(c.manifestId, 8)])
  }

  function RecordHeaderFields(sequence: nat, payload: seq<Byte>): seq<Byte> {
    Flatten([LE(0x5741_4C52, 4), LE(3, 2), LE(24, 2), LE(sequence, 8), LE(Checksum(payload), 4)])
  }

  /** Followed by the checksum of itself with a zero checksum. */
  function WithChecksum(bytes: seq<Byte>): seq<Byte> {
    bytes + LE(Checksum(bytes + LE(0, 4)), 4)
  }

  lemma SealedIs(widths: seq<nat>, fields: seq<nat>)
    requires |widths| == |fields|
    ensures Sealed(widths, fields) == WithChecksum(Pack(widths, fields))
  {
    hide Pack, Checksum;
    PackConcat(widths, fields, [4], [0]);
    PackOne(4, 0);
    var crc := Checksum(Pack(widths + [4], fields + [0]));
    PackConcat(widths, fields, [4], [crc]);
    PackOne(4, crc);
  }

  /** Every record: its header, sealed; the payload; zeros up to the stride. */
  lemma RecordLayout(c: Config, sequence: nat, payload: seq<Byte>)
    requires c.alignment > 0 && |payload| == c.payloadSize
    ensures var header := WithChecksum(RecordHeaderFields(sequence, payload));
      && |header| == 24 && 24 + |payload| <= AlignUp(24 + |payload|, c.alignment)
      && RecordBytes(c, sequence, payload)
        == header + payload + Zeros(AlignUp(24 + |payload|, c.alignment) - 24 - |payload|)
  {
    hide Checksum, LE, Zeros, Sealed, AlignUp;
    RecordHeaderSize();
    SealedIs(RECORD_WIDTHS, RecordFields(sequence, payload));
    hide Pack;
    var pieces := [LE(0x5741_4C52, 4), LE(3, 2), LE(24, 2), LE(sequence, 8), LE(Checksum(payload), 4)];
    PackIsFlat(RECORD_WIDTHS, RecordFields(sequence, payload), pieces);
  }

  /** Every log: its header, sealed; zeros up to the alignment; then the records. */
  lemma FileLayout(c: Config, payloads: seq<seq<Byte>>)
    requires c.alignment > 0
    ensures var header := WithChecksum(FileHeaderFields(c));
      && |header| == 64 <= AlignUp(64, c.alignment)
      && LogBytes(c, payloads)
        == header + Zeros(AlignUp(64, c.alignment) - 64) + RecordsBytes(c, c.firstSequence, payloads)
  {
    hide Checksum, Zeros, Sealed, AlignUp, RecordsBytes, FileHeaderFields, Pack, LE;
    FileHeaderSize();
    SealedIs(FILE_WIDTHS, FileFields(c));
    HeaderPacked(c);
  }

  lemma HeaderPacked(c: Config)
    requires c.alignment > 0
    ensures Pack(FILE_WIDTHS, FileFields(c)) == FileHeaderFields(c)
  {
    hide Pack, LE, AlignUp, Flatten;
    var pieces := [
      LE(0x5741_4C46, 4), LE(3, 2), LE(64, 2), LE(c.kind, 2), LE(0, 2), LE(c.payloadSize, 4), LE(c.schema, 4),
      LE(c.alignment, 4), LE(AlignUp(64, c.alignment), 4), LE(c.streamId, 8), LE(c.epochId, 8),
      LE(c.firstSequence, 8), LE(c.manifestId, 8)];
    PackIsFlat(FILE_WIDTHS, FileFields(c), pieces);
  }
}
