/** The physical log as bytes: what the writer produces, and what the validating reader, the
    scanner and the tail recovery make of any file. */
module WalLog {
  import opened ByteWords
  import opened Crc32
  import opened Modular
  import opened Sequences
  import opened WalFormat

  const FILE_MAGIC: nat := 0x5741_4c46
  const RECORD_MAGIC: nat := 0x5741_4c52
  const VERSION: nat := 3
  const FILE_HEADER: nat := 64
  const RECORD_HEADER: nat := 24
  const CHUNK: nat := 4096

  /** Kinds 0, 1 and 2 are generic, command and event streams. */
  datatype Config = Config(payloadSize: nat, alignment: nat, schema: nat, kind: nat,
                           streamId: nat, epochId: nat, firstSequence: nat, manifestId: nat)

  /** The widths of the fields in memory. */
  predicate Representable(c: Config) {
    && c.payloadSize < U32 && c.alignment < U32 && c.schema < U32 && c.kind < 65536
    && c.streamId < U64 && c.epochId < U64 && c.firstSequence < U64 && c.manifestId < U64
  }

  function AlignUp(v: nat, alignment: nat): (r: nat)
    requires alignment > 0
    ensures v <= r < v + alignment && r % alignment == 0
  {
    AlignUpFacts(v + alignment - 1, alignment);
    (v + alignment - 1) / alignment * alignment
  }

  lemma AlignUpFacts(biased: nat, alignment: nat)
    requires alignment > 0
    ensures biased - alignment < biased / alignment * alignment <= biased
    ensures biased / alignment * alignment % alignment == 0
  {
    assert biased == alignment * (biased / alignment) + biased % alignment;
    MultipleMod(biased / alignment, alignment);
  }

  /** `capacity` is that of the ring in memory; readers pass 1. */
  predicate ValidConfig(c: Config, capacity: nat) {
    && c.payloadSize != 0 && capacity != 0 && c.alignment >= 8 && c.firstSequence != 0 && c.kind <= 2
    && (c.kind != 0 ==> c.streamId != 0 && c.epochId != 0 && c.manifestId != 0)
    && PowerOfTwo(c.alignment)
    && AlignUp(c.payloadSize, c.alignment) * capacity < U64
    && AlignUp(FILE_HEADER, c.alignment) < U32
  }

  function RecordsOffset(c: Config): (offset: nat)
    requires c.alignment > 0
    ensures offset >= FILE_HEADER
  {
    AlignUp(FILE_HEADER, c.alignment)
  }

  function Stride(c: Config): (stride: nat)
    requires c.alignment > 0
    ensures stride >= RECORD_HEADER + c.payloadSize
  {
    AlignUp(RECORD_HEADER + c.payloadSize, c.alignment)
  }

  // ---------------------------------------------------------------- headers

  /** The widths of the fields before the header's own checksum. */
  const FILE_WIDTHS: seq<nat> := [4, 2, 2, 2, 2, 4, 4, 4, 4, 8, 8, 8, 8]
  const RECORD_WIDTHS: seq<nat> := [4, 2, 2, 8, 4]

  lemma RecordHeaderSize()
    ensures |RECORD_WIDTHS| == 5 && Total(RECORD_WIDTHS) == 20 && Total(RECORD_WIDTHS + [4]) == RECORD_HEADER
  {
    hide Total;
    TotalConcat(RECORD_WIDTHS, [4]);
    TotalOf1([4]);
    TotalOf5(RECORD_WIDTHS);
  }

  lemma FileHeaderSize()
    ensures |FILE_WIDTHS| == 13 && Total(FILE_WIDTHS) == 60 && Total(FILE_WIDTHS + [4]) == FILE_HEADER
  {
    hide Total;
    TotalConcat(FILE_WIDTHS, [4]);
    TotalOf1([4]);
    var a, b, c := FILE_WIDTHS[..5], FILE_WIDTHS[5..10], FILE_WIDTHS[10..];
    assert FILE_WIDTHS == a + b + c;
    TotalConcat(a + b, c);
    TotalConcat(a, b);
    TotalOf5(a);
    TotalOf5(b);
    TotalOf3(c);
  }

  lemma TotalOf1(w: seq<nat>)
    requires |w| == 1
    ensures Total(w) == w[0]
  {
    assert w[1..] == [];
  }

  lemma TotalOf3(w: seq<nat>)
    requires |w| == 3
    ensures Total(w) == w[0] + w[1] + w[2]
  {
    assert Total(w) == w[0] + Total(w[1..]);
    assert Total(w[1..]) == w[1] + Total(w[1..][1..]);
    assert w[1..][1..] == w[2..];
    assert Total(w[2..]) == w[2] + Total(w[2..][1..]);
    assert w[2..][1..] == [];
  }

  lemma TotalOf5(w: seq<nat>)
    requires |w| == 5
    ensures Total(w) == w[0] + w[1] + w[2] + w[3] + w[4]
  {
    assert Total(w) == w[0] + Total(w[1..]);
    assert Total(w[1..]) == w[1] + Total(w[1..][1..]);
    assert w[1..][1..] == w[2..];
    TotalOf3(w[2..]);
  }

  /** A header with the given leading fields, and the checksum of itself with a zero checksum. */
  function Sealed(widths: seq<nat>, fields: seq<nat>): (bytes: seq<Byte>)
    requires |widths| == |fields|
  {
    Pack(widths + [4], fields + [Checksum(Pack(widths + [4], fields + [0]))])
  }

  /** The stored checksum is that of the header with a zero checksum. */
  predicate Intact(widths: seq<nat>, bytes: seq<Byte>)
    requires |bytes| == Total(widths + [4])
  {
    var fields := Unpack(widths + [4], bytes);
    fields[|widths|] == Checksum(Pack(widths + [4], fields[..|widths|] + [0]))
  }

  lemma SealedIsIntact(widths: seq<nat>, fields: seq<nat>)
    requires Fits(widths, fields)
    ensures |Sealed(widths, fields)| == Total(widths + [4]) && Intact(widths, Sealed(widths, fields))
    ensures Unpack(widths + [4], Sealed(widths, fields))[..|widths|] == fields
  {
    var crc := Checksum(Pack(widths + [4], fields + [0]));
    FourBytes();
    assert Fits(widths + [4], fields + [crc]);
    UnpackOfPack(widths + [4], fields + [crc]);
    assert (fields + [crc])[..|widths|] == fields;
  }

  lemma FourBytes()
    ensures Pow256(4) == U32 && Pow256(2) == 65536 && Pow256(8) == U64
  {
    assert Pow256(2) == 256 * (256 * Pow256(0));
    assert Pow256(4) == 256 * (256 * Pow256(2));
    assert Pow256(6) == 256 * (256 * Pow256(4));
    assert Pow256(8) == 256 * (256 * Pow256(6));
  }

  /** A single changed byte in a sealed header breaks its checksum. */
  lemma DamageIsSeen(widths: seq<nat>, fields: seq<nat>, i: nat, b: Byte)
    requires Fits(widths, fields)
    requires |Sealed(widths, fields)| == Total(widths + [4]) && i < |Sealed(widths, fields)|
      && b != Sealed(widths, fields)[i]
    ensures !Intact(widths, Sealed(widths, fields)[i := b])
  {
    hide Pack, Unpack, LE, Number, Total, Checksum, Sealed;
    var bytes := Sealed(widths, fields);
    var bad := bytes[i := b];
    var n := Total(widths);
    SealedIsIntact(widths, fields);
    RepackLast(widths, 4, bytes, 0);
    RepackLast(widths, 4, bad, 0);
    var zeroed := bytes[..n] + LE(0, 4);
    if i < n {
      assert bad[..n] + LE(0, 4) == zeroed[i := b];
      assert bad[n..] == bytes[n..];
      OneByteChanges(zeroed, i, b);
    } else {
      assert bad[..n] == bytes[..n];
      assert bad[n..][i - n] == b && bytes[n..][i - n] == bytes[i];
      if Number(bad[n..]) == Number(bytes[n..]) {
        NumberInjective(bad[n..], bytes[n..]);
      }
    }
  }

  lemma NumberInjective(a: seq<Byte>, b: seq<Byte>)
    requires |a| == |b| && Number(a) == Number(b)
    ensures a == b
  {
    LEOfNumber(a);
    LEOfNumber(b);
  }
}
