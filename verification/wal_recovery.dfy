/** Recovery of an incomplete tail, and the theorems about whole, cut and damaged logs. */
module WalRecovery {
  import opened ByteWords
  import opened Crc32
  import opened Modular
  import opened WalFormat
  import opened WalLog
  import opened WalScan
  import opened WalScanLaws
  import opened Sequences

  datatype RecoveryStatus = AlreadyClean | Recovered | Refused | RefusedConfig | RecoveryIoError

  datatype RecoveryResult =
    RecoveryResult(status: RecoveryStatus, error: ReadError, records: nat, lastSequence: nat, lastValidOffset: nat,
                   originalSize: nat, recoveredSize: nat, removedBytes: nat)

  /** How truncating and syncing can go. */
  datatype TruncateOutcome = Truncated | TruncateFailed | TruncateSyncFailed

  function FromScan(status: RecoveryStatus, scan: ScanResult, original: nat, recovered: nat): RecoveryResult {
    RecoveryResult(status, scan.error, scan.records, scan.lastSequence, scan.lastValidOffset, original, recovered,
                   if original >= recovered then original - recovered else 0)
  }

  /** The result, and the bytes left in the file. */
  function Recover(c: Config, bytes: seq<Byte>, outcome: TruncateOutcome): (RecoveryResult, seq<Byte>) {
    var before := Scan(c, bytes);
    match before.status
    case Clean => (FromScan(AlreadyClean, before, |bytes|, |bytes|), bytes)
    case InvalidConfig => (FromScan(RefusedConfig, before, |bytes|, |bytes|), bytes)
    case Corrupted => (FromScan(Refused, before, |bytes|, |bytes|), bytes)
    case IncompleteTail =>
      if before.lastValidOffset > |bytes| || outcome.TruncateFailed? then
        (FromScan(RecoveryIoError, before, |bytes|, |bytes|), bytes)
      else
        var kept := bytes[..before.lastValidOffset];
        if outcome.TruncateSyncFailed? then (FromScan(RecoveryIoError, before, |bytes|, |kept|), kept)
        else
          var after := Scan(c, kept);
          if after.status != Clean || after.lastValidOffset != before.lastValidOffset
             || after.records != before.records || after.lastSequence != before.lastSequence
          then (FromScan(RecoveryIoError, after, |bytes|, |kept|), kept)
          else (FromScan(Recovered, after, |bytes|, |kept|).(error := before.error), kept)
  }

  // ---------------------------------------------------------------- recovery of any file

  /** What is read before a cut is not affected by it. */
  lemma {:induction false} PaddingBeforeCut(bytes: seq<Byte>, m: nat, at: nat, size: nat, incomplete: ReadError)
    requires at + size <= m <= |bytes|
    ensures PaddingError(bytes[..m], at, size, incomplete) == PaddingError(bytes, at, size, incomplete)
    decreases size
  {
    if size > 0 {
      var chunk := if size < CHUNK then size else CHUNK;
      TakeTake(bytes, m, at, at + chunk);
      PaddingBeforeCut(bytes, m, at + chunk, size - chunk, incomplete);
    }
  }

  lemma ReadBeforeCut(c: Config, bytes: seq<Byte>, m: nat, at: nat, next: nat, exhausted: bool)
    requires c.alignment > 0 && at + Stride(c) <= m <= |bytes|
    ensures ReadAt(c, bytes[..m], at, next, exhausted) == ReadAt(c, bytes, at, next, exhausted)
  {
    hide RecordHeaderError, Unpack, Checksum, PaddingError;
    var used := RECORD_HEADER + c.payloadSize;
    assert Slice(bytes[..m], at, RECORD_HEADER) == Slice(bytes, at, RECORD_HEADER);
    assert Slice(bytes[..m], at + RECORD_HEADER, c.payloadSize) == Slice(bytes, at + RECORD_HEADER, c.payloadSize);
    PaddingBeforeCut(bytes, m, at + used, Stride(c) - used, IncompletePadding);
  }

  lemma OpenBeforeCut(c: Config, bytes: seq<Byte>, m: nat)
    requires c.alignment > 0 && RecordsOffset(c) <= m <= |bytes|
    ensures OpenError(c, bytes[..m]) == OpenError(c, bytes)
  {
    hide FileHeaderError, PaddingError, RecordsOffset;
    assert Slice(bytes[..m], 0, FILE_HEADER) == Slice(bytes, 0, FILE_HEADER);
    PaddingBeforeCut(bytes, m, FILE_HEADER, RecordsOffset(c) - FILE_HEADER, IncompleteFileHeader);
  }

  /** A record that was read is all there. */
  lemma ReadIsInside(c: Config, bytes: seq<Byte>, at: nat, next: nat, exhausted: bool)
    requires c.alignment > 0 && ReadAt(c, bytes, at, next, exhausted).Record?
    ensures at + Stride(c) <= |bytes|
  {
    hide RecordHeaderError, Unpack, Checksum;
    var used := RECORD_HEADER + c.payloadSize;
    PaddingIsInside(bytes, at + used, Stride(c) - used, IncompletePadding);
  }

  lemma {:induction false} PaddingIsInside(bytes: seq<Byte>, at: nat, size: nat, incomplete: ReadError)
    requires at <= |bytes| && PaddingError(bytes, at, size, incomplete) == NoError && incomplete != NoError
    ensures at + size <= |bytes|
    decreases size
  {
    if size > 0 {
      var chunk := if size < CHUNK then size else CHUNK;
      PaddingIsInside(bytes, at + chunk, size - chunk, incomplete);
    }
  }

  /** Scanning up to the last valid offset finds the same records and a clean end. */
  lemma {:induction false} RescanFrom(c: Config, bytes: seq<Byte>, at: nat, next: nat, exhausted: bool, records: nat,
                                      last: nat)
    requires c.alignment > 0 && at <= |bytes|
    ensures var r := ScanFrom(c, bytes, at, next, exhausted, records, last);
            && at <= r.lastValidOffset <= |bytes| && records <= r.records
            && ScanFrom(c, bytes[..r.lastValidOffset], at, next, exhausted, records, last) ==
               ScanResult(Clean, NoError, r.records, r.lastSequence, r.lastValidOffset)
    decreases |bytes| - at
  {
    hide ReadAt, Stride;
    var r := ScanFrom(c, bytes, at, next, exhausted, records, last);
    if ReadAt(c, bytes, at, next, exhausted).Record? {
      ReadIsInside(c, bytes, at, next, exhausted);
      StridePositive(c);
      var next' := if next == MAX_SEQUENCE then next else next + 1;
      RescanFrom(c, bytes, at + Stride(c), next', next == MAX_SEQUENCE, records + 1, next);
      ReadBeforeCut(c, bytes, r.lastValidOffset, at, next, exhausted);
    } else {
      ReadEnd(c, bytes[..at], at, next, exhausted);
    }
  }

  lemma StridePositive(c: Config)
    requires c.alignment > 0
    ensures Stride(c) > 0
  {
  }

  /** Recovery of any file whatever: it truncates only an incomplete tail, keeps every record the
      scan found, never trips over its own rescan, and has nothing to do the second time. */
  lemma RecoverAnything(c: Config, bytes: seq<Byte>)
    ensures var scan, (result, kept) := Scan(c, bytes), Recover(c, bytes, Truncated);
      && result.status == (match scan.status case Clean => AlreadyClean case IncompleteTail => Recovered
                                             case Corrupted => Refused case InvalidConfig => RefusedConfig)
      && (result.status != Recovered ==> kept == bytes && result.removedBytes == 0)
      && result.originalSize == |bytes| && result.recoveredSize == |kept|
      && result.error == scan.error && result.records == scan.records
      && result.lastSequence == scan.lastSequence && result.lastValidOffset == scan.lastValidOffset
      && (result.status == Recovered ==>
            scan.lastValidOffset <= |bytes| && kept == bytes[..scan.lastValidOffset]
              && result.removedBytes == |bytes| - |kept|
            && Scan(c, kept) == ScanResult(Clean, NoError, scan.records, scan.lastSequence, scan.lastValidOffset)
            && Recover(c, kept, Truncated).1 == kept && Recover(c, kept, Truncated).0.status == AlreadyClean)
  {
    hide OpenError, ScanFrom, RecordsOffset, PowerOfTwo;
    var scan := Scan(c, bytes);
    if ValidConfig(c, 1) && OpenError(c, bytes) == NoError {
      OpenIsInside(c, bytes);
      RescanFrom(c, bytes, RecordsOffset(c), c.firstSequence, false, 0, 0);
      OpenBeforeCut(c, bytes, scan.lastValidOffset);
    }
  }

  lemma OpenIsInside(c: Config, bytes: seq<Byte>)
    requires c.alignment > 0 && OpenError(c, bytes) == NoError
    ensures RecordsOffset(c) <= |bytes|
  {
    hide FileHeaderError, RecordsOffset;
    PaddingIsInside(bytes, FILE_HEADER, RecordsOffset(c) - FILE_HEADER, IncompleteFileHeader);
  }

  // ---------------------------------------------------------------- whole and cut logs

  lemma LogParts(c: Config, payloads: seq<seq<Byte>>)
    requires Writable(c, payloads)
    ensures var log := LogBytes(c, payloads);
            && |FileHead(c)| == RecordsOffset(c) && |log| == RecordsOffset(c) + Span(c, |payloads|)
            && log[..RecordsOffset(c)] == FileHead(c) && Holds(c, log, RecordsOffset(c), c.firstSequence, payloads)
  {
    hide FileHead, RecordsBytes, RecordsOffset, Span, PowerOfTwo;
    FileHeadParts(c);
    RecordsSize(c, c.firstSequence, payloads);
  }

  /** What was written is what is read: a well-formed log scans clean, with all its records. */
  lemma WholeLog(c: Config, payloads: seq<seq<Byte>>)
    requires Writable(c, payloads)
    ensures Scan(c, LogBytes(c, payloads)) ==
            ScanResult(Clean, NoError, |payloads|, if payloads == [] then 0 else c.firstSequence + |payloads| - 1,
                |LogBytes(c, payloads)|)
  {
    hide OpenError, ScanFrom, LogBytes, Holds, RecordsOffset, Span, PowerOfTwo;
    var log := LogBytes(c, payloads);
    LogParts(c, payloads);
    OpenWhole(c, log);
    ScanToEnd(c, log, RecordsOffset(c), c.firstSequence, payloads, 0, 0, false);
  }

  lemma WritablePrefix(c: Config, payloads: seq<seq<Byte>>, k: nat)
    requires Writable(c, payloads) && k <= |payloads|
    ensures Writable(c, payloads[..k])
  {
    hide AlignUp, PowerOfTwo;
  }

  /** A log is the log of its first `k` records, the next record, and the rest. */
  lemma LogSplit(c: Config, payloads: seq<seq<Byte>>, k: nat)
    requires Writable(c, payloads) && k < |payloads|
    ensures LogBytes(c, payloads) ==
            LogBytes(c, payloads[..k]) + RecordBytes(c, c.firstSequence + k, payloads[k])
              + RecordsBytes(c, c.firstSequence + k + 1, payloads[k + 1..])
  {
    hide FileHead, RecordBytes, Stride, PowerOfTwo;
    var a, b := payloads[..k], payloads[k..];
    assert payloads == a + b;
    RecordsConcat(c, c.firstSequence, a, b);
    assert b[1..] == payloads[k + 1..];
    assert RecordsBytes(c, c.firstSequence + k, b)
      == RecordBytes(c, c.firstSequence + k, b[0]) + RecordsBytes(c, c.firstSequence + k + 1, b[1..]);
  }

  /** The log of the first `k` records ends where record `k` begins. */
  lemma LogSize(c: Config, payloads: seq<seq<Byte>>, k: nat)
    requires Writable(c, payloads) && k <= |payloads|
    ensures |LogBytes(c, payloads[..k])| == RecordsOffset(c) + Span(c, k) <= |LogBytes(c, payloads)|
    ensures k < |payloads| ==>
      Span(c, k + 1) == Span(c, k) + Stride(c) && RecordsOffset(c) + Span(c, k + 1) <= |LogBytes(c, payloads)|
  {
    hide LogBytes, RecordsOffset, Span, Stride, PowerOfTwo, RecordsBytes, RecordBytes, FileHead;
    WritablePrefix(c, payloads, k);
    LogParts(c, payloads[..k]);
    SpanStep(c, k);
    if k < |payloads| {
      LogSplit(c, payloads, k);
      RecordParts(c, c.firstSequence + k, payloads[k]);
    } else {
      assert payloads[..k] == payloads;
    }
  }

  /** Files that begin with the log of `payloads` and go on after it. */
  lemma ScanPrefix(c: Config, payloads: seq<seq<Byte>>, bytes: seq<Byte>)
    requires Writable(c, payloads) && c.firstSequence + |payloads| < U64
    requires LogBytes(c, payloads) <= bytes
    ensures Scan(c, bytes) ==
            ScanFrom(c, bytes, |LogBytes(c, payloads)|, c.firstSequence + |payloads|, false, |payloads|,
                     if payloads == [] then 0 else c.firstSequence + |payloads| - 1)
  {
    hide OpenError, ScanFrom, LogBytes, RecordsOffset, Span, PowerOfTwo, RecordsBytes, FileHead;
    LogParts(c, payloads);
    var log := LogBytes(c, payloads);
    assert bytes[..RecordsOffset(c)] == log[..RecordsOffset(c)];
    assert bytes[RecordsOffset(c)..RecordsOffset(c) + Span(c, |payloads|)]
      == log[RecordsOffset(c)..RecordsOffset(c) + Span(c, |payloads|)];
    OpenWhole(c, bytes);
    ScanOver(c, bytes, RecordsOffset(c), c.firstSequence, payloads, 0, 0);
  }

  lemma RecordInLog(c: Config, payloads: seq<seq<Byte>>, k: nat)
    requires Writable(c, payloads) && k < |payloads|
    ensures |payloads[k]| == c.payloadSize && c.firstSequence + k < U64 && Writable(c, payloads[..k])
  {
    hide AlignUp, PowerOfTwo;
    WritablePrefix(c, payloads, k);
  }

  lemma ScanStops(c: Config, bytes: seq<Byte>, at: nat, next: nat, records: nat, last: nat)
    requires c.alignment > 0 && ReadAt(c, bytes, at, next, false).Failed?
    ensures var error := ReadAt(c, bytes, at, next, false).error;
            ScanFrom(c, bytes, at, next, false, records, last)
              == ScanResult(ScanStatusFor(error), error, records, last, at)
  {
    hide ReadAt;
  }

  /** A file that goes on, after whole records, with a piece of the next one. */
  lemma ScanOfPiece(c: Config, before: seq<seq<Byte>>, payload: seq<Byte>, bytes: seq<Byte>)
    requires c.alignment > 0 && Writable(c, before) && c.firstSequence + |before| < U64 && |payload| == c.payloadSize
    requires LogBytes(c, before) <= bytes
    requires var at, rec := |LogBytes(c, before)|, RecordBytes(c, c.firstSequence + |before|, payload);
             at < |bytes| < at + Stride(c) == at + |rec| && bytes[at..] == rec[..|bytes| - at]
    ensures var scan := Scan(c, bytes);
            && scan.status == IncompleteTail && scan.records == |before|
            && scan.error == CutError(c, |bytes| - |LogBytes(c, before)|)
            && scan.lastValidOffset == |LogBytes(c, before)|
            && scan.lastSequence == (if before == [] then 0 else c.firstSequence + |before| - 1)
  {
    hide ReadAt, LogBytes, Scan, ScanFrom, Stride, RecordBytes, Writable;
    var at, next := |LogBytes(c, before)|, c.firstSequence + |before|;
    ScanPrefix(c, before, bytes);
    ReadCut(c, bytes, at, next, payload);
    ScanStops(c, bytes, at, next, |before|, if before == [] then 0 else next - 1);
  }

  /** A file that goes on, after whole records, with a damaged one. */
  lemma ScanOfDamage(c: Config, before: seq<seq<Byte>>, payload: seq<Byte>, bytes: seq<Byte>, i: nat, b: Byte)
    requires c.alignment > 0 && Writable(c, before) && c.firstSequence + |before| < U64 && |payload| == c.payloadSize
    requires LogBytes(c, before) <= bytes
    requires var at, rec := |LogBytes(c, before)|, RecordBytes(c, c.firstSequence + |before|, payload);
             && i < Stride(c) == |rec| && b != rec[i]
             && at + |rec| <= |bytes| && bytes[at..at + |rec|] == rec[i := b]
    ensures Scan(c, bytes).status == Corrupted && Scan(c, bytes).records == |before|
    ensures Scan(c, bytes).error == DamageError(c, i)
  {
    hide ReadAt, LogBytes, Scan, ScanFrom, Stride, RecordBytes, Writable;
    var at, next := |LogBytes(c, before)|, c.firstSequence + |before|;
    ScanPrefix(c, before, bytes);
    ReadDamaged(c, bytes, at, next, payload, i, b);
    ScanStops(c, bytes, at, next, |before|, if before == [] then 0 else next - 1);
  }

  /** A log around its record `k`. */
  lemma AtRecord(c: Config, payloads: seq<seq<Byte>>, k: nat) returns (kept: seq<Byte>, rec: seq<Byte>, rest: seq<Byte>)
    requires c.alignment > 0 && Writable(c, payloads) && k < |payloads|
    ensures LogBytes(c, payloads) == kept + rec + rest && kept == LogBytes(c, payloads[..k])
    ensures rec == RecordBytes(c, c.firstSequence + k, payloads[k]) && |rec| == Stride(c)
    ensures |kept| == RecordsOffset(c) + Span(c, k)
    ensures |payloads[k]| == c.payloadSize && c.firstSequence + k < U64 && Writable(c, payloads[..k])
  {
    RecordInLog(c, payloads, k);
    hide LogBytes, Stride, RecordsBytes, RecordBytes, Writable, RecordsOffset;
    kept, rec := LogBytes(c, payloads[..k]), RecordBytes(c, c.firstSequence + k, payloads[k]);
    rest := RecordsBytes(c, c.firstSequence + k + 1, payloads[k + 1..]);
    LogSplit(c, payloads, k);
    LogSize(c, payloads, k);
    RecordParts(c, c.firstSequence + k, payloads[k]);
  }

  /** Read back: record `k` of a log is read, at its own offset and sequence, with its own payload. */
  lemma RecordReadsBack(c: Config, payloads: seq<seq<Byte>>, k: nat)
    requires c.alignment > 0 && Writable(c, payloads) && k < |payloads|
    ensures ReadAt(c, LogBytes(c, payloads), RecordsOffset(c) + Span(c, k), c.firstSequence + k, false)
      == Record(payloads[k])
  {
    hide LogBytes, Stride, RecordBytes, Writable, RecordsOffset, Span, ReadAt;
    var kept, rec, rest := AtRecord(c, payloads, k);
    var log := LogBytes(c, payloads);
    assert log[|kept|..|kept| + Stride(c)] == rec;
    ReadWhole(c, log, |kept|, c.firstSequence + k, payloads[k]);
  }

  lemma CutPieces(log: seq<Byte>, kept: seq<Byte>, rec: seq<Byte>, rest: seq<Byte>, m: nat)
    requires log == kept + rec + rest && |kept| <= m <= |kept| + |rec|
    ensures kept <= log[..m] && log[..m][|kept|..] == rec[..m - |kept|]
  {
  }

  function Quotient(n: nat, d: nat): nat
    requires d > 0
  {
    n / d
  }

  /** Recovery left exactly the first `k` records of a log cut to length `m`. */
  ghost predicate LeavesRecords(c: Config, payloads: seq<seq<Byte>>, m: nat, k: nat, result: RecoveryResult,
                                kept: seq<Byte>)
    requires c.alignment > 0
  {
    && k <= |payloads| && kept == LogBytes(c, payloads[..k]) && result.records == k
    && m >= |kept| && result.removedBytes == m - |kept|
    && result.status == (if m == |kept| then AlreadyClean else Recovered)
    && result.error == (if m == |kept| then NoError else CutError(c, m - |kept|))
    && result.originalSize == m && result.recoveredSize == result.lastValidOffset == |kept|
    && result.lastSequence == (if k == 0 then 0 else c.firstSequence + k - 1)
  }

  /** Exact tail recovery: whatever the length `m` a log was cut to, recovery leaves exactly the
      records that were whole, which is the log of the first floor((m - offset) / stride) of
      them, and says how much it removed. Cut inside the head, the file is refused unchanged. */
  lemma TailRecovery(c: Config, payloads: seq<seq<Byte>>, m: nat)
    requires c.alignment > 0 && Writable(c, payloads) && m <= |LogBytes(c, payloads)|
    ensures var cut := LogBytes(c, payloads)[..m];
            var (result, kept) := Recover(c, cut, Truncated);
            if m < RecordsOffset(c) then result.status == Refused && result.error == IncompleteFileHeader && kept == cut
            else LeavesRecords(c, payloads, m, Quotient(m - RecordsOffset(c), Stride(c)), result, kept)
  {
    hide OpenError, LogBytes, RecordsOffset, Span, Stride, Writable, LeavesRecords, Recover;
    if m < RecordsOffset(c) {
      CutInHead(c, payloads, m);
    } else {
      var k := WhichRecord(c, payloads, m);
      WhichIsQuotient(c, m, k);
      CutAtRecord(c, payloads, k, m);
    }
  }

  lemma CutInHead(c: Config, payloads: seq<seq<Byte>>, m: nat)
    requires c.alignment > 0 && Writable(c, payloads) && m <= |LogBytes(c, payloads)| && m < RecordsOffset(c)
    ensures var (result, kept) := Recover(c, LogBytes(c, payloads)[..m], Truncated);
            result.status == Refused && result.error == IncompleteFileHeader && kept == LogBytes(c, payloads)[..m]
  {
    hide OpenError, ScanFrom, LogBytes, RecordsOffset, Span, Stride, PowerOfTwo, Holds;
    LogParts(c, payloads);
    var log := LogBytes(c, payloads);
    assert log[..m] == log[..RecordsOffset(c)][..m];
    OpenCut(c, log[..m]);
  }

  /** The record that position `m` falls into. */
  lemma WhichRecord(c: Config, payloads: seq<seq<Byte>>, m: nat) returns (k: nat)
    requires c.alignment > 0 && Writable(c, payloads) && RecordsOffset(c) <= m <= |LogBytes(c, payloads)|
    ensures k <= |payloads| && RecordsOffset(c) + Span(c, k) <= m < RecordsOffset(c) + Span(c, k) + Stride(c)
  {
    hide LogBytes, RecordsOffset, Span, Stride, PowerOfTwo, Writable;
    StridePositive(c);
    SpanStep(c, 0);
    k := 0;
    while k < |payloads| && m >= RecordsOffset(c) + Span(c, k) + Stride(c)
      invariant k <= |payloads| && RecordsOffset(c) + Span(c, k) <= m
    {
      SpanStep(c, k);
      k := k + 1;
    }
    LogSize(c, payloads, |payloads|);
    assert payloads[..|payloads|] == payloads;
  }

  lemma CutAtRecord(c: Config, payloads: seq<seq<Byte>>, k: nat, m: nat)
    requires c.alignment > 0 && Writable(c, payloads) && k <= |payloads| && m <= |LogBytes(c, payloads)|
    requires RecordsOffset(c) + Span(c, k) <= m < RecordsOffset(c) + Span(c, k) + Stride(c)
    ensures LeavesRecords(c, payloads, m, k, Recover(c, LogBytes(c, payloads)[..m], Truncated).0,
        Recover(c, LogBytes(c, payloads)[..m], Truncated).1)
  {
    hide LogBytes, RecordsOffset, Span, Stride, Writable, Scan, RecordBytes;
    var log := LogBytes(c, payloads);
    if k == |payloads| {
      LogSize(c, payloads, k);
      assert payloads[..k] == payloads && log[..m] == log;
      WholeLog(c, payloads);
    } else {
      var kept, rec, rest := AtRecord(c, payloads, k);
      CutPieces(log, kept, rec, rest, m);
      if m == |kept| {
        assert log[..m] == kept;
        WholeLog(c, payloads[..k]);
      } else {
        ScanOfPiece(c, payloads[..k], payloads[k], log[..m]);
        RecoverAnything(c, log[..m]);
        assert log[..m][..|kept|] == kept;
      }
    }
  }

  lemma LogPrefix(c: Config, payloads: seq<seq<Byte>>, k: nat)
    requires c.alignment > 0 && Writable(c, payloads) && k <= |payloads|
    ensures LogBytes(c, payloads[..k]) <= LogBytes(c, payloads)
    ensures k == |payloads| ==> LogBytes(c, payloads[..k]) == LogBytes(c, payloads)
  {
    hide LogBytes, PowerOfTwo, RecordsBytes, RecordBytes;
    if k < |payloads| {
      LogSplit(c, payloads, k);
    } else {
      assert payloads[..k] == payloads;
    }
  }

  // ---------------------------------------------------------------- damaged logs

  /** The scan says corrupted after exactly `k` records, and recovery touches nothing. */
  ghost predicate SeesDamage(c: Config, bytes: seq<Byte>, k: nat, error: ReadError) {
    && Scan(c, bytes).status == Corrupted && Scan(c, bytes).records == k && Scan(c, bytes).error == error
    && forall outcome :: Recover(c, bytes, outcome).0.status == Refused && Recover(c, bytes, outcome).1 == bytes
  }

  /** How the damage of byte `i` of a log is reported. */
  function LogDamageError(c: Config, i: nat): ReadError
    requires c.alignment > 0
  {
    if i < RecordsOffset(c) then HeadDamageError(i)
    else DamageError(c, Remainder(i - RecordsOffset(c), Stride(c)))
  }

  function Remainder(n: nat, d: nat): nat
    requires d > 0
  {
    n % d
  }

  /** Corruption detection: whichever single byte of a well-formed log is changed, and to
      whatever other value, the scan reports corruption, having counted exactly the records
      before the damage, and recovery refuses and leaves the file alone. */
  lemma DamageIsDetected(c: Config, payloads: seq<seq<Byte>>, i: nat, b: Byte)
    requires c.alignment > 0 && Writable(c, payloads) && i < |LogBytes(c, payloads)| && b != LogBytes(c, payloads)[i]
    ensures SeesDamage(c, LogBytes(c, payloads)[i := b],
        if i < RecordsOffset(c) then 0 else Quotient(i - RecordsOffset(c), Stride(c)), LogDamageError(c, i))
  {
    hide Scan, Recover, LogBytes, RecordsOffset, Span, Stride, Writable, HeadDamageError, DamageError;
    var bad := LogBytes(c, payloads)[i := b];
    if i < RecordsOffset(c) {
      HeadDamage(c, payloads, i, b);
      UnopenedIsCorrupted(c, payloads, bad, i);
    } else {
      var k := WhichRecord(c, payloads, i);
      RecordDamage(c, payloads, k, i, b);
      WhichIsQuotient(c, i, k);
    }
    CorruptedIsRefused(c, bad);
  }

  lemma UnopenedIsCorrupted(c: Config, payloads: seq<seq<Byte>>, bytes: seq<Byte>, i: nat)
    requires c.alignment > 0 && Writable(c, payloads) && OpenError(c, bytes) == HeadDamageError(i)
    ensures Scan(c, bytes).status == Corrupted && Scan(c, bytes).records == 0
      && Scan(c, bytes).error == HeadDamageError(i)
  {
    hide OpenError, ScanFrom, PowerOfTwo, AlignUp, RecordsOffset;
  }

  lemma CorruptedIsRefused(c: Config, bytes: seq<Byte>)
    requires Scan(c, bytes).status == Corrupted
    ensures forall outcome :: Recover(c, bytes, outcome).0.status == Refused && Recover(c, bytes, outcome).1 == bytes
  {
    hide Scan;
  }

  lemma WhichIsQuotient(c: Config, m: nat, k: nat)
    requires c.alignment > 0 && RecordsOffset(c) + Span(c, k) <= m < RecordsOffset(c) + Span(c, k) + Stride(c)
    ensures Quotient(m - RecordsOffset(c), Stride(c)) == k
    ensures Remainder(m - RecordsOffset(c), Stride(c)) == m - RecordsOffset(c) - Span(c, k)
  {
    hide RecordsOffset, Span, Stride;
    SpanIsProduct(c, k);
    StridePositive(c);
    DivisionIs(m - RecordsOffset(c), Stride(c), k, m - RecordsOffset(c) - Span(c, k));
  }

  lemma RecordDamage(c: Config, payloads: seq<seq<Byte>>, k: nat, i: nat, b: Byte)
    requires c.alignment > 0 && Writable(c, payloads) && k <= |payloads| && i < |LogBytes(c, payloads)|
      && b != LogBytes(c, payloads)[i]
    requires RecordsOffset(c) + Span(c, k) <= i < RecordsOffset(c) + Span(c, k) + Stride(c)
    ensures Scan(c, LogBytes(c, payloads)[i := b]).status == Corrupted
      && Scan(c, LogBytes(c, payloads)[i := b]).records == k
      && Scan(c, LogBytes(c, payloads)[i := b]).error == DamageError(c, i - RecordsOffset(c) - Span(c, k))
  {
    hide Scan, LogBytes, RecordsOffset, Span, Stride, RecordBytes, Writable;
    LogSize(c, payloads, |payloads|);
    assert payloads[..|payloads|] == payloads;
    var kept, rec, rest := AtRecord(c, payloads, k);
    DamagedPieces(LogBytes(c, payloads), kept, rec, rest, i, b);
    ScanOfDamage(c, payloads[..k], payloads[k], LogBytes(c, payloads)[i := b], i - |kept|, b);
  }

  lemma HeadDamage(c: Config, payloads: seq<seq<Byte>>, i: nat, b: Byte)
    requires c.alignment > 0 && Writable(c, payloads) && i < RecordsOffset(c) && i < |LogBytes(c, payloads)|
      && b != LogBytes(c, payloads)[i]
    ensures OpenError(c, LogBytes(c, payloads)[i := b]) == HeadDamageError(i)
  {
    hide OpenError, LogBytes, RecordsOffset, Span, Stride, PowerOfTwo, Holds, FileHead;
    LogParts(c, payloads);
    var log, n := LogBytes(c, payloads), RecordsOffset(c);
    assert log[i := b][..n] == log[..n][i := b];
    assert FileHead(c)[i] == log[..n][i];
    OpenDamaged(c, log[i := b], i, b);
  }

  lemma DamagedPieces(log: seq<Byte>, kept: seq<Byte>, rec: seq<Byte>, rest: seq<Byte>, i: nat, b: Byte)
    requires log == kept + rec + rest && |kept| <= i < |kept| + |rec|
    ensures kept <= log[i := b] && log[i := b][|kept|..|kept| + |rec|] == rec[i - |kept| := b]
      && log[i] == rec[i - |kept|]
  {
  }
}
