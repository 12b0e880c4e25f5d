/** What the scanner finds in a well-formed log, in every truncation of one, and in one with a
    damaged byte. */
module WalScanLaws {
  import opened ByteWords
  import opened Crc32
  import opened WalFormat
  import opened WalLog
  import opened WalScan
  import opened FieldDamage
  import opened Sequences
  import opened Modular

  // ---------------------------------------------------------------- padding

  lemma {:induction false} PaddingRead(bytes: seq<Byte>, at: nat, size: nat, incomplete: ReadError)
    requires at + size <= |bytes| && AllZero(bytes[at..at + size])
    ensures PaddingError(bytes, at, size, incomplete) == NoError
    decreases size
  {
    if size > 0 {
      var chunk := if size < CHUNK then size else CHUNK;
      var whole, first, rest := bytes[at..at + size], Slice(bytes, at, chunk), bytes[at + chunk..at + size];
      assert forall i :: 0 <= i < |first| ==> first[i] == whole[i];
      assert forall i :: 0 <= i < |rest| ==> rest[i] == whole[chunk + i];
      PaddingRead(bytes, at + chunk, size - chunk, incomplete);
    }
  }

  lemma {:induction false} PaddingCut(bytes: seq<Byte>, at: nat, size: nat, incomplete: ReadError)
    requires at <= |bytes| < at + size && AllZero(bytes[at..])
    ensures PaddingError(bytes, at, size, incomplete) == incomplete
    decreases size
  {
    var chunk := if size < CHUNK then size else CHUNK;
    if at + chunk <= |bytes| {
      var whole, first, rest := bytes[at..], Slice(bytes, at, chunk), bytes[at + chunk..];
      assert forall i :: 0 <= i < |first| ==> first[i] == whole[i];
      assert forall i :: 0 <= i < |rest| ==> rest[i] == whole[chunk + i];
      PaddingCut(bytes, at + chunk, size - chunk, incomplete);
    }
  }

  lemma {:induction false} PaddingDamaged(bytes: seq<Byte>, at: nat, size: nat, incomplete: ReadError, i: nat)
    requires at + size <= |bytes| && at <= i < at + size && bytes[i] != 0
    ensures PaddingError(bytes, at, size, incomplete) == NonZeroPadding
    decreases size
  {
    var chunk := if size < CHUNK then size else CHUNK;
    var first := Slice(bytes, at, chunk);
    if i < at + chunk {
      assert first[i - at] != 0;
    } else {
      PaddingDamaged(bytes, at + chunk, size - chunk, incomplete, i);
    }
  }

  // ---------------------------------------------------------------- one record

  lemma RecordHeaderRead(sequence: nat, payload: seq<Byte>)
    requires sequence < U64
    ensures var header := Sealed(RECORD_WIDTHS, RecordFields(sequence, payload));
            && |header| == RECORD_HEADER && RecordHeaderError(sequence, header) == NoError
            && Unpack(RECORD_WIDTHS + [4], header)[4] == Checksum(payload)
  {
    hide Pack, Unpack, LE, Number, Total, Checksum, Sealed, Intact;
    RecordHeaderSize();
    var fields := RecordFields(sequence, payload);
    FourBytes();
    assert Fits(RECORD_WIDTHS, fields);
    SealedIsIntact(RECORD_WIDTHS, fields);
    var all := Unpack(RECORD_WIDTHS + [4], Sealed(RECORD_WIDTHS, fields));
    assert forall i :: 0 <= i < 5 ==> all[i] == all[..5][i] == fields[i];
  }

  /** The three parts of a record. */
  lemma RecordParts(c: Config, sequence: nat, payload: seq<Byte>)
    requires c.alignment > 0 && |payload| == c.payloadSize && sequence < U64
    ensures var bytes, used := RecordBytes(c, sequence, payload), RECORD_HEADER + c.payloadSize;
            && |bytes| == Stride(c) >= used
            && bytes[..RECORD_HEADER] == Sealed(RECORD_WIDTHS, RecordFields(sequence, payload))
            && bytes[RECORD_HEADER..used] == payload && AllZero(bytes[used..])
  {
    hide Sealed, RecordFields;
    RecordHeaderRead(sequence, payload);
  }

  lemma ReadWhole(c: Config, bytes: seq<Byte>, at: nat, next: nat, payload: seq<Byte>)
    requires c.alignment > 0 && |payload| == c.payloadSize && next < U64
    requires at + Stride(c) <= |bytes| && bytes[at..at + Stride(c)] == RecordBytes(c, next, payload)
    ensures ReadAt(c, bytes, at, next, false) == Record(payload)
  {
    hide Sealed, RecordFields, RecordBytes, RecordHeaderError, Unpack, Checksum, PaddingError;
    RecordParts(c, next, payload);
    RecordHeaderRead(next, payload);
    var rec, used := bytes[at..at + Stride(c)], RECORD_HEADER + c.payloadSize;
    assert Slice(bytes, at, RECORD_HEADER) == rec[..RECORD_HEADER];
    assert Slice(bytes, at + RECORD_HEADER, c.payloadSize) == rec[RECORD_HEADER..used];
    assert bytes[at + used..at + used + (Stride(c) - used)] == rec[used..];
    PaddingRead(bytes, at + used, Stride(c) - used, IncompletePadding);
  }

  /** Piece `lo .. hi` of what stands at `at`. */
  lemma SlicePiece(bytes: seq<Byte>, at: nat, piece: seq<Byte>, lo: nat, hi: nat)
    requires at + |piece| <= |bytes| && bytes[at..at + |piece|] == piece && lo <= hi <= |piece|
    ensures Slice(bytes, at + lo, hi - lo) == bytes[at + lo..at + hi] == piece[lo..hi]
  {
    var s := bytes[at + lo..at + hi];
    forall k | 0 <= k < |s|
      ensures s[k] == piece[lo..hi][k]
    {
      assert bytes[at..at + |piece|][lo + k] == piece[lo + k];
    }
  }

  lemma TakeTake(s: seq<Byte>, n: nat, lo: nat, hi: nat)
    requires lo <= hi <= n <= |s|
    ensures s[..n][lo..hi] == s[lo..hi]
  {
  }

  /** What a cut in a record is reported as, `n` of its bytes being there. */
  function CutError(c: Config, n: nat): ReadError {
    if n < RECORD_HEADER then IncompleteRecordHeader
    else if n < RECORD_HEADER + c.payloadSize then IncompletePayload
    else IncompletePadding
  }

  /** What a damaged byte `i` of a record is reported as. */
  function DamageError(c: Config, i: nat): ReadError {
    if i < 4 then InvalidRecordMagic
    else if i < 6 then UnsupportedFormatVersion
    else if i < 8 then InvalidRecordHeaderSize
    else if i < RECORD_HEADER then InvalidRecordHeaderCrc
    else if i < RECORD_HEADER + c.payloadSize then InvalidPayloadCrc
    else NonZeroPadding
  }

  /** What a damaged byte `i` of the head of a file is reported as. */
  function HeadDamageError(i: nat): ReadError {
    if i < 4 then InvalidFileMagic
    else if i < 6 then UnsupportedFormatVersion
    else if i < 8 then InvalidFileHeaderSize
    else if i < FILE_HEADER then InvalidFileHeaderCrc
    else InvalidPhysicalLayout
  }

  lemma ReadCut(c: Config, bytes: seq<Byte>, at: nat, next: nat, payload: seq<Byte>)
    requires c.alignment > 0 && |payload| == c.payloadSize && next < U64
    requires at < |bytes| < at + Stride(c) == at + |RecordBytes(c, next, payload)|
    requires bytes[at..] == RecordBytes(c, next, payload)[..|bytes| - at]
    ensures ReadAt(c, bytes, at, next, false) == Failed(CutError(c, |bytes| - at))
    ensures ScanStatusFor(CutError(c, |bytes| - at)) == IncompleteTail
  {
    hide Sealed, RecordFields, RecordBytes, RecordHeaderError, Unpack, Checksum, PaddingError, Slice;
    RecordParts(c, next, payload);
    RecordHeaderRead(next, payload);
    var rec, used, n := RecordBytes(c, next, payload), RECORD_HEADER + c.payloadSize, |bytes| - at;
    assert bytes[at..at + n] == bytes[at..];
    if n >= RECORD_HEADER {
      SlicePiece(bytes, at, rec[..n], 0, RECORD_HEADER);
      TakeTake(rec, n, 0, RECORD_HEADER);
      if n >= used {
        SlicePiece(bytes, at, rec[..n], RECORD_HEADER, used);
        TakeTake(rec, n, RECORD_HEADER, used);
        CutPadding(bytes, at, rec, used);
        PaddingCut(bytes, at + used, Stride(c) - used, IncompletePadding);
      }
    }
  }

  lemma CutPadding(bytes: seq<Byte>, at: nat, rec: seq<Byte>, used: nat)
    requires at + used <= |bytes| < at + |rec| && used <= |rec| && AllZero(rec[used..])
    requires bytes[at..] == rec[..|bytes| - at]
    ensures AllZero(bytes[at + used..])
  {
    var s := bytes[at + used..];
    forall i | 0 <= i < |s|
      ensures s[i] == 0
    {
      assert bytes[at..][used + i] == rec[used + i] == rec[used..][i];
    }
  }

  /** A damaged record, whole otherwise, is corrupted and not a tail. */
  lemma ReadDamaged(c: Config, bytes: seq<Byte>, at: nat, next: nat, payload: seq<Byte>, i: nat, b: Byte)
    requires c.alignment > 0 && |payload| == c.payloadSize && next < U64
    requires i < Stride(c) == |RecordBytes(c, next, payload)| && b != RecordBytes(c, next, payload)[i]
    requires at + Stride(c) <= |bytes| && bytes[at..at + Stride(c)] == RecordBytes(c, next, payload)[i := b]
    ensures ReadAt(c, bytes, at, next, false) == Failed(DamageError(c, i))
    ensures ScanStatusFor(DamageError(c, i)) == Corrupted
  {
    hide Sealed, RecordFields, RecordBytes, RecordHeaderError, Unpack, Checksum, PaddingError, Slice, ReadAt;
    RecordParts(c, next, payload);
    var rec, used := RecordBytes(c, next, payload), RECORD_HEADER + c.payloadSize;
    var bad := rec[i := b];
    SlicePiece(bytes, at, bad, 0, RECORD_HEADER);
    SlicePiece(bytes, at, bad, RECORD_HEADER, used);
    if i < RECORD_HEADER {
      assert bad[0..RECORD_HEADER] == rec[..RECORD_HEADER][i := b];
      DamagedHeaderRead(c, bytes, at, next, payload, i, b);
    } else {
      assert bad[0..RECORD_HEADER] == rec[..RECORD_HEADER];
      if i < used {
        assert bad[RECORD_HEADER..used] == rec[RECORD_HEADER..used][i - RECORD_HEADER := b];
        DamagedPayloadRead(c, bytes, at, next, payload, i - RECORD_HEADER, b);
      } else {
        assert bad[RECORD_HEADER..used] == rec[RECORD_HEADER..used];
        assert rec[used..][i - used] == 0;
        assert bytes[at + i] == bytes[at..at + Stride(c)][i] == b;
        PaddingDamaged(bytes, at + used, Stride(c) - used, IncompletePadding, at + i);
        DamagedPaddingRead(c, bytes, at, next, payload);
      }
    }
  }

  lemma DamagedHeaderRead(c: Config, bytes: seq<Byte>, at: nat, next: nat, payload: seq<Byte>, i: nat, b: Byte)
    requires c.alignment > 0 && next < U64 && i < RECORD_HEADER && at + Stride(c) <= |bytes|
    requires var header := Sealed(RECORD_WIDTHS, RecordFields(next, payload));
             |header| == RECORD_HEADER && b != header[i] && Slice(bytes, at, RECORD_HEADER) == header[i := b]
    ensures ReadAt(c, bytes, at, next, false) == Failed(DamageError(c, i))
  {
    hide Sealed, RecordFields, Unpack, Intact, Slice;
    RecordHeaderDamaged(next, payload, i, b);
  }

  lemma DamagedPayloadRead(c: Config, bytes: seq<Byte>, at: nat, next: nat, payload: seq<Byte>, i: nat, b: Byte)
    requires c.alignment > 0 && next < U64 && |payload| == c.payloadSize && i < |payload| && b != payload[i]
    requires at + Stride(c) <= |bytes|
    requires Slice(bytes, at, RECORD_HEADER) == Sealed(RECORD_WIDTHS, RecordFields(next, payload))
    requires Slice(bytes, at + RECORD_HEADER, c.payloadSize) == payload[i := b]
    ensures ReadAt(c, bytes, at, next, false) == Failed(InvalidPayloadCrc)
  {
    hide Sealed, RecordFields, RecordHeaderError, Unpack, Checksum, Slice;
    RecordHeaderRead(next, payload);
    OneByteChanges(payload, i, b);
  }

  lemma DamagedPaddingRead(c: Config, bytes: seq<Byte>, at: nat, next: nat, payload: seq<Byte>)
    requires c.alignment > 0 && next < U64 && |payload| == c.payloadSize && at + Stride(c) <= |bytes|
    requires Slice(bytes, at, RECORD_HEADER) == Sealed(RECORD_WIDTHS, RecordFields(next, payload))
    requires Slice(bytes, at + RECORD_HEADER, c.payloadSize) == payload
    requires var used := RECORD_HEADER + c.payloadSize;
             PaddingError(bytes, at + used, Stride(c) - used, IncompletePadding) == NonZeroPadding
    ensures ReadAt(c, bytes, at, next, false) == Failed(NonZeroPadding)
  {
    hide Sealed, RecordFields, RecordHeaderError, Unpack, Checksum, Slice, PaddingError;
    RecordHeaderRead(next, payload);
  }

  lemma RecordHeaderDamaged(next: nat, payload: seq<Byte>, i: nat, b: Byte)
    requires next < U64 && i < RECORD_HEADER
    requires var header := Sealed(RECORD_WIDTHS, RecordFields(next, payload));
             |header| == RECORD_HEADER && b != header[i]
    ensures forall c ::
      RecordHeaderError(next, Sealed(RECORD_WIDTHS, RecordFields(next, payload))[i := b]) == DamageError(c, i)
  {
    hide Sealed, Unpack, Intact, Pack, Total;
    RecordHeaderSize();
    FourBytes();
    assert Fits(RECORD_WIDTHS, RecordFields(next, payload));
    SealedDamage(RECORD_WIDTHS, RecordFields(next, payload), i, b);
  }

  // ---------------------------------------------------------------- the file header

  lemma FileFit(c: Config)
    requires ValidConfig(c, 1) && Representable(c)
    ensures Fits(FILE_WIDTHS, FileFields(c))
  {
    hide AlignUp, PowerOfTwo;
    FourBytes();
  }

  lemma FileHeaderRead(c: Config)
    requires ValidConfig(c, 1) && Representable(c)
    ensures |Sealed(FILE_WIDTHS, FileFields(c))| == FILE_HEADER
    ensures FileHeaderError(c, Sealed(FILE_WIDTHS, FileFields(c))) == NoError
  {
    hide Sealed, Unpack, Intact, Pack, Total, PowerOfTwo, AlignUp;
    FileHeaderSize();
    FileFit(c);
    var fields := FileFields(c);
    SealedIsIntact(FILE_WIDTHS, fields);
    var all := Unpack(FILE_WIDTHS + [4], Sealed(FILE_WIDTHS, fields));
    assert forall i :: 0 <= i < 13 ==> all[i] == all[..13][i] == fields[i];
  }

  lemma FileHeadParts(c: Config)
    requires ValidConfig(c, 1) && Representable(c)
    ensures var head := FileHead(c);
            && |head| == RecordsOffset(c) >= FILE_HEADER
            && head[..FILE_HEADER] == Sealed(FILE_WIDTHS, FileFields(c)) && AllZero(head[FILE_HEADER..])
  {
    hide Sealed, FileFields, PowerOfTwo;
    FileHeaderRead(c);
  }

  lemma OpenWhole(c: Config, bytes: seq<Byte>)
    requires ValidConfig(c, 1) && Representable(c)
    requires |bytes| >= RecordsOffset(c) && bytes[..RecordsOffset(c)] == FileHead(c)
    ensures OpenError(c, bytes) == NoError
  {
    hide Sealed, FileFields, FileHead, FileHeaderError, PaddingError, Slice, PowerOfTwo;
    FileHeadParts(c);
    FileHeaderRead(c);
    var head := FileHead(c);
    assert bytes[0..0 + |head|] == head;
    SlicePiece(bytes, 0, head, 0, FILE_HEADER);
    SlicePiece(bytes, 0, head, FILE_HEADER, |head|);
    assert head[0..FILE_HEADER] == head[..FILE_HEADER];
    assert head[FILE_HEADER..|head|] == head[FILE_HEADER..];
    PaddingRead(bytes, FILE_HEADER, RecordsOffset(c) - FILE_HEADER, IncompleteFileHeader);
  }

  /** A file cut inside its head does not open. */
  lemma OpenCut(c: Config, bytes: seq<Byte>)
    requires ValidConfig(c, 1) && Representable(c)
    requires |bytes| < RecordsOffset(c) == |FileHead(c)| && bytes == FileHead(c)[..|bytes|]
    ensures OpenError(c, bytes) == IncompleteFileHeader
  {
    hide Sealed, FileFields, FileHead, FileHeaderError, PaddingError, Slice, PowerOfTwo;
    FileHeadParts(c);
    FileHeaderRead(c);
    var head := FileHead(c);
    if |bytes| >= FILE_HEADER {
      assert bytes[0..0 + |bytes|] == bytes;
      SlicePiece(bytes, 0, bytes, 0, FILE_HEADER);
      TakeTake(head, |bytes|, 0, FILE_HEADER);
      assert head[0..FILE_HEADER] == head[..FILE_HEADER];
      CutPadding(bytes, 0, head, FILE_HEADER);
      PaddingCut(bytes, FILE_HEADER, RecordsOffset(c) - FILE_HEADER, IncompleteFileHeader);
    }
  }

  /** A damaged head does not open, and is not mistaken for a short one. */
  lemma OpenDamaged(c: Config, bytes: seq<Byte>, i: nat, b: Byte)
    requires ValidConfig(c, 1) && Representable(c)
    requires i < RecordsOffset(c) == |FileHead(c)| <= |bytes| && b != FileHead(c)[i]
    requires bytes[..RecordsOffset(c)] == FileHead(c)[i := b]
    ensures OpenError(c, bytes) == HeadDamageError(i)
  {
    hide Sealed, FileFields, FileHead, FileHeaderError, PaddingError, Slice, PowerOfTwo;
    FileHeadParts(c);
    FileHeaderRead(c);
    var head := FileHead(c);
    var bad := head[i := b];
    assert bytes[0..0 + |bad|] == bad;
    SlicePiece(bytes, 0, bad, 0, FILE_HEADER);
    if i < FILE_HEADER {
      assert bad[0..FILE_HEADER] == head[..FILE_HEADER][i := b];
      FileHeaderDamaged(c, i, b);
    } else {
      assert bad[0..FILE_HEADER] == head[..FILE_HEADER];
      assert head[FILE_HEADER..][i - FILE_HEADER] == 0;
      assert bytes[i] == bytes[..RecordsOffset(c)][i] == b;
      PaddingDamaged(bytes, FILE_HEADER, RecordsOffset(c) - FILE_HEADER, IncompleteFileHeader, i);
    }
  }

  lemma FileHeaderDamaged(c: Config, i: nat, b: Byte)
    requires ValidConfig(c, 1) && Representable(c) && i < FILE_HEADER
    requires var header := Sealed(FILE_WIDTHS, FileFields(c)); |header| == FILE_HEADER && b != header[i]
    ensures FileHeaderError(c, Sealed(FILE_WIDTHS, FileFields(c))[i := b]) == HeadDamageError(i)
  {
    hide Sealed, Unpack, Intact, Pack, Total, PowerOfTwo, AlignUp;
    FileHeaderSize();
    FileFit(c);
    SealedDamage(FILE_WIDTHS, FileFields(c), i, b);
  }

  // ---------------------------------------------------------------- the records of a log

  /** The bytes of `n` records. */
  function Span(c: Config, n: nat): nat
    requires c.alignment > 0
  {
    if n == 0 then 0 else Stride(c) + Span(c, n - 1)
  }

  lemma SpanStep(c: Config, n: nat)
    requires c.alignment > 0
    ensures Span(c, n + 1) == Stride(c) + Span(c, n) && Span(c, 0) == 0
  {
    hide Stride;
  }

  lemma {:induction false} SpanIsProduct(c: Config, n: nat)
    requires c.alignment > 0
    ensures Span(c, n) == n * Stride(c)
  {
    hide Stride;
    if n > 0 {
      SpanIsProduct(c, n - 1);
      assert n * Stride(c) == Stride(c) + (n - 1) * Stride(c);
    }
  }

  lemma {:induction false} RecordsSize(c: Config, sequence: nat, payloads: seq<seq<Byte>>)
    requires c.alignment > 0 && sequence + |payloads| <= U64
    requires forall i :: 0 <= i < |payloads| ==> |payloads[i]| == c.payloadSize
    ensures |RecordsBytes(c, sequence, payloads)| == Span(c, |payloads|)
    decreases |payloads|
  {
    hide RecordBytes, Stride, Span, Sealed;
    SpanStep(c, 0);
    if payloads != [] {
      SpanStep(c, |payloads| - 1);
      RecordParts(c, sequence, payloads[0]);
      RecordsSize(c, sequence + 1, payloads[1..]);
    }
  }

  lemma {:induction false} RecordsConcat(c: Config, sequence: nat, a: seq<seq<Byte>>, b: seq<seq<Byte>>)
    requires c.alignment > 0
    ensures RecordsBytes(c, sequence, a + b) == RecordsBytes(c, sequence, a) + RecordsBytes(c, sequence + |a|, b)
    decreases |a|
  {
    hide RecordBytes;
    if a == [] {
      assert a + b == b;
    } else {
      assert (a + b)[1..] == a[1..] + b;
      RecordsConcat(c, sequence + 1, a[1..], b);
      assert sequence + 1 + |a[1..]| == sequence + |a|;
    }
  }

  /** The file holds the records of `payloads` at `at`. */
  ghost predicate Holds(c: Config, bytes: seq<Byte>, at: nat, sequence: nat, payloads: seq<seq<Byte>>)
    requires c.alignment > 0
  {
    && (forall i :: 0 <= i < |payloads| ==> |payloads[i]| == c.payloadSize)
    && at + Span(c, |payloads|) <= |bytes|
    && bytes[at..at + Span(c, |payloads|)] == RecordsBytes(c, sequence, payloads)
  }

  lemma HoldsFirst(c: Config, bytes: seq<Byte>, at: nat, sequence: nat, payloads: seq<seq<Byte>>)
    requires c.alignment > 0 && Holds(c, bytes, at, sequence, payloads) && payloads != []
      && sequence + |payloads| <= U64
    ensures at + Stride(c) <= |bytes| && bytes[at..at + Stride(c)] == RecordBytes(c, sequence, payloads[0])
    ensures Holds(c, bytes, at + Stride(c), sequence + 1, payloads[1..])
    ensures at + Stride(c) + Span(c, |payloads[1..]|) == at + Span(c, |payloads|)
  {
    hide RecordBytes, Stride, Span, Sealed, Slice;
    SpanStep(c, |payloads| - 1);
    RecordParts(c, sequence, payloads[0]);
    RecordsSize(c, sequence + 1, payloads[1..]);
    var n := Span(c, |payloads|);
    assert |payloads[1..]| == |payloads| - 1;
    var piece := RecordsBytes(c, sequence, payloads);
    SlicePiece(bytes, at, piece, 0, Stride(c));
    SlicePiece(bytes, at, piece, Stride(c), n);
  }

  /** The scan goes over whole records one by one. */
  lemma {:induction false} ScanOver(c: Config, bytes: seq<Byte>, at: nat, next: nat, payloads: seq<seq<Byte>>,
                                    records: nat, last: nat)
    requires c.alignment > 0 && Holds(c, bytes, at, next, payloads) && next + |payloads| <= MAX_SEQUENCE
    ensures ScanFrom(c, bytes, at, next, false, records, last) ==
            ScanFrom(c, bytes, at + Span(c, |payloads|), next + |payloads|, false, records + |payloads|,
                     if payloads == [] then last else next + |payloads| - 1)
    decreases |payloads|
  {
    hide RecordBytes, Stride, ReadAt, Holds, RecordsBytes, Span;
    SpanStep(c, 0);
    if payloads != [] {
      HoldsSizes(c, bytes, at, next, payloads);
      HoldsFirst(c, bytes, at, next, payloads);
      ReadWhole(c, bytes, at, next, payloads[0]);
      ScanOver(c, bytes, at + Stride(c), next + 1, payloads[1..], records + 1, next);
    }
  }

  lemma HoldsSizes(c: Config, bytes: seq<Byte>, at: nat, next: nat, payloads: seq<seq<Byte>>)
    requires c.alignment > 0 && Holds(c, bytes, at, next, payloads)
    ensures forall i :: 0 <= i < |payloads| ==> |payloads[i]| == c.payloadSize
    ensures at + Span(c, |payloads|) <= |bytes|
  {
  }

  /** A file that ends with whole records scans clean, even through the largest sequence. */
  lemma {:induction false} ScanToEnd(c: Config, bytes: seq<Byte>, at: nat, next: nat, payloads: seq<seq<Byte>>,
                                     records: nat, last: nat, exhausted: bool)
    requires c.alignment > 0 && Holds(c, bytes, at, next, payloads) && |bytes| == at + Span(c, |payloads|)
    requires next + |payloads| <= U64 && (exhausted ==> payloads == [])
    ensures ScanFrom(c, bytes, at, next, exhausted, records, last) ==
            ScanResult(Clean, NoError, records + |payloads|, if payloads == [] then last else next + |payloads| - 1,
                |bytes|)
    decreases |payloads|
  {
    hide RecordBytes, Stride, Holds, RecordsBytes, Span, ReadAt;
    SpanStep(c, 0);
    if payloads == [] {
      ReadEnd(c, bytes, at, next, exhausted);
    } else {
      HoldsSizes(c, bytes, at, next, payloads);
      HoldsFirst(c, bytes, at, next, payloads);
      ReadWhole(c, bytes, at, next, payloads[0]);
      if next == MAX_SEQUENCE {
        HoldsNothing(c, bytes, at + Stride(c), next);
        ScanToEnd(c, bytes, at + Stride(c), next, [], records + 1, next, true);
      } else {
        ScanToEnd(c, bytes, at + Stride(c), next + 1, payloads[1..], records + 1, next, false);
      }
    }
  }

  lemma ReadEnd(c: Config, bytes: seq<Byte>, at: nat, next: nat, exhausted: bool)
    requires c.alignment > 0 && at >= |bytes|
    ensures ReadAt(c, bytes, at, next, exhausted) == EndOfLog
  {
  }

  lemma HoldsNothing(c: Config, bytes: seq<Byte>, at: nat, next: nat)
    requires c.alignment > 0 && at <= |bytes|
    ensures Holds(c, bytes, at, next, [])
  {
  }
}
