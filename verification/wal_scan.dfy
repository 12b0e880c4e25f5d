/** The validating reader and scanner as functions of the bytes of a file. */
module WalScan {
  import opened ByteWords
  import opened Crc32
  import opened WalFormat
  import opened WalLog
  import opened Sequences

  datatype ReadError =
    | NoError | IncompleteFileHeader | InvalidFileMagic | UnsupportedFormatVersion | InvalidFileHeaderSize
    | InvalidFileHeaderCrc | InvalidStreamKind | UnsupportedFlags | InvalidPhysicalLayout | IdentityMismatch
    | IncompleteRecordHeader | InvalidRecordMagic | InvalidRecordHeaderSize | InvalidRecordHeaderCrc
      | UnexpectedSequence
    | IncompletePayload | InvalidPayloadCrc | IncompletePadding | NonZeroPadding | IoError

  datatype ReadOutcome = Record(payload: seq<Byte>) | EndOfLog | Failed(error: ReadError)

  datatype ScanStatus = Clean | IncompleteTail | Corrupted | InvalidConfig

  datatype ScanResult = ScanResult(status: ScanStatus, error: ReadError, records: nat, lastSequence: nat,
                                   lastValidOffset: nat)

  predicate AllZero(bytes: seq<Byte>) {
    forall i :: 0 <= i < |bytes| ==> bytes[i] == 0
  }

  /** The bytes `at .. at + n` of a file that has them. */
  function Slice(bytes: seq<Byte>, at: nat, n: nat): (s: seq<Byte>)
    requires at + n <= |bytes|
    ensures |s| == n
  {
    bytes[at..at + n]
  }

  /** Padding is read in chunks; a chunk that is not all there is incomplete whatever it holds. */
  function PaddingError(bytes: seq<Byte>, at: nat, size: nat, incomplete: ReadError): ReadError
    decreases size
  {
    if size == 0 then NoError
    else
      var chunk := if size < CHUNK then size else CHUNK;
      if at + chunk > |bytes| then incomplete
      else if !AllZero(Slice(bytes, at, chunk)) then NonZeroPadding
      else PaddingError(bytes, at + chunk, size - chunk, incomplete)
  }

  // ---------------------------------------------------------------- the file header

  /** The leading fields of the file header of a configuration. */
  function FileFields(c: Config): (fields: seq<nat>)
    requires c.alignment > 0
    ensures |fields| == 13
  {
    [FILE_MAGIC, VERSION, FILE_HEADER, c.kind, 0, c.payloadSize, c.schema, c.alignment, RecordsOffset(c),
     c.streamId, c.epochId, c.firstSequence, c.manifestId]
  }

  /** The configuration a file header claims. */
  function HeaderConfig(fields: seq<nat>): Config
    requires |fields| == 14
  {
    Config(fields[5], fields[7], fields[6], fields[3], fields[9], fields[10], fields[11], fields[12])
  }

  function FileHeaderError(c: Config, header: seq<Byte>): ReadError
    requires |header| == FILE_HEADER
  {
    FileHeaderSize();
    var fields := Unpack(FILE_WIDTHS + [4], header);
    if fields[0] != FILE_MAGIC then InvalidFileMagic
    else if fields[1] != VERSION then UnsupportedFormatVersion
    else if fields[2] != FILE_HEADER then InvalidFileHeaderSize
    else if !Intact(FILE_WIDTHS, header) then InvalidFileHeaderCrc
    else if fields[3] > 2 then InvalidStreamKind
    else if fields[4] != 0 then UnsupportedFlags
    else if !ValidConfig(HeaderConfig(fields), 1) || fields[8] != RecordsOffset(HeaderConfig(fields))
      then InvalidPhysicalLayout
    else if HeaderConfig(fields) != c then IdentityMismatch
    else NoError
  }

  /** What opening reports, `c` being a valid configuration. */
  function OpenError(c: Config, bytes: seq<Byte>): ReadError
    requires c.alignment > 0
  {
    if |bytes| < FILE_HEADER then IncompleteFileHeader
    else
      var error := FileHeaderError(c, Slice(bytes, 0, FILE_HEADER));
      if error != NoError then error
      else
        var padding := PaddingError(bytes, FILE_HEADER, RecordsOffset(c) - FILE_HEADER, IncompleteFileHeader);
        if padding == NonZeroPadding then InvalidPhysicalLayout else padding
  }

  // ---------------------------------------------------------------- records

  function RecordFields(sequence: nat, payload: seq<Byte>): (fields: seq<nat>)
    ensures |fields| == 5
  {
    [RECORD_MAGIC, VERSION, RECORD_HEADER, sequence, Checksum(payload)]
  }

  function RecordHeaderError(next: nat, header: seq<Byte>): ReadError
    requires |header| == RECORD_HEADER
  {
    RecordHeaderSize();
    var fields := Unpack(RECORD_WIDTHS + [4], header);
    if fields[0] != RECORD_MAGIC then InvalidRecordMagic
    else if fields[1] != VERSION then UnsupportedFormatVersion
    else if fields[2] != RECORD_HEADER then InvalidRecordHeaderSize
    else if !Intact(RECORD_WIDTHS, header) then InvalidRecordHeaderCrc
    else if fields[3] != next then UnexpectedSequence
    else NoError
  }

  /** Reads the record at `at`, which must carry the sequence `next`; `exhausted` says that the
      largest sequence has been read already. */
  function ReadAt(c: Config, bytes: seq<Byte>, at: nat, next: nat, exhausted: bool): ReadOutcome
    requires c.alignment > 0
  {
    if at >= |bytes| then EndOfLog
    else if at + RECORD_HEADER > |bytes| then Failed(IncompleteRecordHeader)
    else if exhausted then Failed(UnexpectedSequence)
    else
      var header := Slice(bytes, at, RECORD_HEADER);
      var error := RecordHeaderError(next, header);
      if error != NoError then Failed(error)
      else if at + RECORD_HEADER + c.payloadSize > |bytes| then Failed(IncompletePayload)
      else
        var payload := Slice(bytes, at + RECORD_HEADER, c.payloadSize);
        RecordHeaderSize();
        if Checksum(payload) != Unpack(RECORD_WIDTHS + [4], header)[4] then Failed(InvalidPayloadCrc)
        else
          var used := RECORD_HEADER + c.payloadSize;
          var padding := PaddingError(bytes, at + used, Stride(c) - used, IncompletePadding);
          if padding != NoError then Failed(padding) else Record(payload)
  }

  // ---------------------------------------------------------------- scanning

  function ScanStatusFor(error: ReadError): ScanStatus {
    match error
    case IncompleteRecordHeader => IncompleteTail
    case IncompletePayload => IncompleteTail
    case IncompletePadding => IncompleteTail
    case _ => Corrupted
  }

  /** The scan from the record at `at`, `records` having been read before it. */
  function ScanFrom(c: Config, bytes: seq<Byte>, at: nat, next: nat, exhausted: bool, records: nat,
                    last: nat): ScanResult
    requires c.alignment > 0
    decreases |bytes| - at
  {
    match ReadAt(c, bytes, at, next, exhausted)
    case Record(_) =>
      ScanFrom(c, bytes, at + Stride(c), if next == MAX_SEQUENCE then next else next + 1, next == MAX_SEQUENCE,
          records + 1, next)
    case EndOfLog => ScanResult(Clean, NoError, records, last, at)
    case Failed(error) => ScanResult(ScanStatusFor(error), error, records, last, at)
  }

  function Scan(c: Config, bytes: seq<Byte>): ScanResult {
    if !ValidConfig(c, 1) then ScanResult(InvalidConfig, NoError, 0, 0, 0)
    else
      var error := OpenError(c, bytes);
      if error != NoError then ScanResult(Corrupted, error, 0, 0, 0)
      else ScanFrom(c, bytes, RecordsOffset(c), c.firstSequence, false, 0, 0)
  }

  // ---------------------------------------------------------------- what the writer produces

  function Zeros(n: nat): (z: seq<Byte>)
    ensures |z| == n && AllZero(z)
  {
    seq(n, i => 0)
  }

  function FileHead(c: Config): seq<Byte>
    requires c.alignment > 0
  {
    FileHeaderSize();
    Sealed(FILE_WIDTHS, FileFields(c)) + Zeros(RecordsOffset(c) - FILE_HEADER)
  }

  function RecordBytes(c: Config, sequence: nat, payload: seq<Byte>): seq<Byte>
    requires c.alignment > 0
  {
    RecordHeaderSize();
    Sealed(RECORD_WIDTHS, RecordFields(sequence, payload)) + payload + Zeros(Stride(c) - RECORD_HEADER - c.payloadSize)
  }

  function RecordsBytes(c: Config, sequence: nat, payloads: seq<seq<Byte>>): seq<Byte>
    requires c.alignment > 0
    decreases |payloads|
  {
    if payloads == [] then [] else RecordBytes(c, sequence, payloads[0]) + RecordsBytes(c, sequence + 1, payloads[1..])
  }

  /** A well-formed log. */
  function LogBytes(c: Config, payloads: seq<seq<Byte>>): seq<Byte>
    requires c.alignment > 0
  {
    FileHead(c) + RecordsBytes(c, c.firstSequence, payloads)
  }

  ghost predicate Writable(c: Config, payloads: seq<seq<Byte>>) {
    && ValidConfig(c, 1) && Representable(c)
    && c.firstSequence + |payloads| <= U64
    && forall i :: 0 <= i < |payloads| ==> |payloads[i]| == c.payloadSize
  }
}
