/** The two snapshot modules and the coordinator, step by step, against `CaptureGenerations`. */
module CaptureModules {
  import opened BookTypes
  import opened ByteWords
  import opened WalFormat
  import opened WalCores
  import opened CaptureGenerations

  const FNV_OFFSET: bv64 := 14695981039346656037
  const FNV_PRIME: bv64 := 1099511628211
  const ROLLING_START: bv64 := 0x9e37_79b9_7f4a_7c15
  const ROLLING_STEP: bv64 := 0xa076_1d64_78bd_642f

  // ---------------------------------------------------------------- the hash chain

  function MixByte(digest: bv64, b: Byte): bv64 {
    (digest ^ (b as bv64)) * FNV_PRIME
  }

  function MixAll(digest: bv64, bytes: seq<Byte>): bv64 {
    if bytes == [] then digest else MixByte(MixAll(digest, bytes[..|bytes| - 1]), bytes[|bytes| - 1])
  }

  /** The bytes a record adds to the chain. */
  function RecordMix(r: RecordView): seq<Byte> {
    [0xff] + LE(r.position, 8) + LE(r.sequence, 8) + LE(|r.payload|, 8) + r.payload
  }

  function HashFold(digest: bv64, r: RecordView): bv64 {
    MixAll(digest, RecordMix(r))
  }

  lemma {:induction false} MixConcat(digest: bv64, a: seq<Byte>, b: seq<Byte>)
    ensures MixAll(digest, a + b) == MixAll(MixAll(digest, a), b)
    decreases |b|
  {
    hide MixByte;
    if b == [] {
      assert a + b == a;
    } else {
      MixConcat(digest, a, b[..|b| - 1]);
      assert (a + b)[..|a + b| - 1] == a + b[..|b| - 1];
    }
  }

  class HashChainModule {
    const decode: Decoder
    var processedEnd: nat
    var digest: bv64
    var failed: bool
    var capture: Option<Capture<bv64>>

    ghost function Now(): Module<bv64>
      reads this
    {
      Module(Folded(processedEnd, digest, failed), capture)
    }

    constructor (decode: Decoder)
      ensures this.decode == decode && Now() == Module(Folded(0, FNV_OFFSET, false), None)
    {
      this.decode := decode;
      processedEnd, digest, failed, capture := 0, FNV_OFFSET, false, None;
    }

    method Process(record: RecordView) returns (accepted: bool)
      modifies this
      ensures (accepted, Now()) == CaptureGenerations.Process(decode, HashFold, old(Now()), record)
    {
      hide MixAll, MixByte, LE;
      if failed || record.position != processedEnd {
        failed := true;
        return false;
      }
      var decoded := decode(record.payload);
      if decoded == Undecodable || (decoded.Save? && decoded.generation != record.position) {
        failed := true;
        return false;
      }
      if decoded.Save? && capture != None {
        return false;
      }
      MixRecord(record);
      processedEnd := processedEnd + 1;
      if decoded.Save? {
        capture := Some(Capture(decoded.generation, record.position, processedEnd, record.sequence,
            Folded(processedEnd, digest, failed)));
      }
      return true;
    }

    method MixRecord(record: RecordView)
      modifies `digest
      ensures digest == HashFold(old(digest), record)
    {
      hide MixAll, MixByte, LE;
      var head: seq<Byte> := [0xff];
      var position, sequence, size := LE(record.position, 8), LE(record.sequence, 8), LE(|record.payload|, 8);
      MixConcat(digest, head, position);
      MixConcat(digest, head + position, sequence);
      MixConcat(digest, head + position + sequence, size);
      MixConcat(digest, head + position + sequence + size, record.payload);
      MixBytes(head);
      MixBytes(position);
      MixBytes(sequence);
      MixBytes(size);
      MixBytes(record.payload);
    }

    /** Mixes in bytes one by one. */
    method MixBytes(bytes: seq<Byte>)
      modifies `digest
      ensures digest == MixAll(old(digest), bytes)
    {
      hide MixByte;
      for i := 0 to |bytes|
        invariant digest == MixAll(old(digest), bytes[..i])
      {
        assert bytes[..i + 1][..i] == bytes[..i];
        digest := MixByte(digest, bytes[i]);
      }
      assert bytes[..|bytes|] == bytes;
    }

    method ReleaseCapture(generation: nat, end: nat) returns (ok: bool)
      modifies `capture
      ensures (ok, Now()) == Release(old(Now()), generation, end)
    {
      if capture == None || capture.value.generation != generation || capture.value.processedEnd != end {
        return false;
      }
      capture := None;
      return true;
    }

    method RestoreQuiescent(state: Folded<bv64>)
      modifies this
      ensures Now() == Module(state, None)
    {
      processedEnd, digest, failed, capture := state.processedEnd, state.value, state.failed, None;
    }
  }

  // ---------------------------------------------------------------- the bit accumulator

  /** The number of set bits of a byte. */
  function OneBits(b: Byte): nat {
    (if b & 1 != 0 then 1 else 0) + (if b & 2 != 0 then 1 else 0) + (if b & 4 != 0 then 1 else 0)
      + (if b & 8 != 0 then 1 else 0)
    + (if b & 16 != 0 then 1 else 0) + (if b & 32 != 0 then 1 else 0) + (if b & 64 != 0 then 1 else 0)
      + (if b & 128 != 0 then 1 else 0)
  }

  datatype Bits = Bits(ones: nat, rolling: bv64)

  function FoldByte(rolling: bv64, b: Byte): bv64 {
    ((rolling << 7) | (rolling >> 57)) ^ ((b as bv64) + ROLLING_STEP)
  }

  function FoldBytes(rolling: bv64, bytes: seq<Byte>): bv64 {
    if bytes == [] then rolling else FoldByte(FoldBytes(rolling, bytes[..|bytes| - 1]), bytes[|bytes| - 1])
  }

  /** Both parts over the payload bytes; the count of ones wraps at 64 bits. */
  function CountAll(bits: Bits, bytes: seq<Byte>): Bits {
    if bytes == [] then bits
    else
      var before, b := CountAll(bits, bytes[..|bytes| - 1]), bytes[|bytes| - 1];
      Bits((before.ones + OneBits(b)) % U64, FoldByte(before.rolling, b))
  }

  function BitFold(bits: Bits, r: RecordView): Bits {
    CountAll(bits.(rolling := FoldBytes(bits.rolling, LE(r.position, 8) + LE(r.sequence, 8) + LE(|r.payload|, 8))),
        r.payload)
  }

  lemma {:induction false} FoldBytesConcat(rolling: bv64, a: seq<Byte>, b: seq<Byte>)
    ensures FoldBytes(rolling, a + b) == FoldBytes(FoldBytes(rolling, a), b)
    decreases |b|
  {
    hide FoldByte;
    if b == [] {
      assert a + b == a;
    } else {
      FoldBytesConcat(rolling, a, b[..|b| - 1]);
      assert (a + b)[..|a + b| - 1] == a + b[..|b| - 1];
    }
  }

  class BitAccumulatorModule {
    const decode: Decoder
    var processedEnd: nat
    var ones: nat
    var rolling: bv64
    var failed: bool
    var capture: Option<Capture<Bits>>

    ghost function Now(): Module<Bits>
      reads this
    {
      Module(Folded(processedEnd, Bits(ones, rolling), failed), capture)
    }

    constructor (decode: Decoder)
      ensures this.decode == decode && Now() == Module(Folded(0, Bits(0, ROLLING_START), false), None)
    {
      this.decode := decode;
      processedEnd, ones, rolling, failed, capture := 0, 0, ROLLING_START, false, None;
    }

    method Process(record: RecordView) returns (accepted: bool)
      modifies this
      ensures (accepted, Now()) == CaptureGenerations.Process(decode, BitFold, old(Now()), record)
    {
      hide FoldBytes, FoldByte, CountAll, LE;
      if failed || record.position != processedEnd {
        failed := true;
        return false;
      }
      var decoded := decode(record.payload);
      if decoded == Undecodable || (decoded.Save? && decoded.generation != record.position) {
        failed := true;
        return false;
      }
      if decoded.Save? && capture != None {
        return false;
      }
      ghost var before := Bits(ones, rolling);
      var position, sequence, size := LE(record.position, 8), LE(record.sequence, 8), LE(|record.payload|, 8);
      FoldBytesConcat(rolling, position, sequence);
      FoldBytesConcat(rolling, position + sequence, size);
      Roll(position);
      Roll(sequence);
      Roll(size);
      CountPayload(record.payload);
      processedEnd := processedEnd + 1;
      if decoded.Save? {
        capture := Some(Capture(decoded.generation, record.position, processedEnd, record.sequence,
            Folded(processedEnd, Bits(ones, rolling), failed)));
      }
      return true;
    }

    method Roll(bytes: seq<Byte>)
      modifies `rolling
      ensures rolling == FoldBytes(old(rolling), bytes)
    {
      hide FoldByte;
      for i := 0 to |bytes|
        invariant rolling == FoldBytes(old(rolling), bytes[..i])
      {
        assert bytes[..i + 1][..i] == bytes[..i];
        rolling := FoldByte(rolling, bytes[i]);
      }
      assert bytes[..|bytes|] == bytes;
    }

    method CountPayload(bytes: seq<Byte>)
      modifies `ones, `rolling
      ensures Bits(ones, rolling) == CountAll(old(Bits(ones, rolling)), bytes)
    {
      hide OneBits, FoldByte;
      for i := 0 to |bytes|
        invariant Bits(ones, rolling) == CountAll(old(Bits(ones, rolling)), bytes[..i])
      {
        assert bytes[..i + 1][..i] == bytes[..i];
        ones := (ones + OneBits(bytes[i])) % U64;
        rolling := FoldByte(rolling, bytes[i]);
      }
      assert bytes[..|bytes|] == bytes;
    }

    method ReleaseCapture(generation: nat, end: nat) returns (ok: bool)
      modifies `capture
      ensures (ok, Now()) == Release(old(Now()), generation, end)
    {
      if capture == None || capture.value.generation != generation || capture.value.processedEnd != end {
        return false;
      }
      capture := None;
      return true;
    }

    method RestoreQuiescent(state: Folded<Bits>)
      modifies this
      ensures Now() == Module(state, None)
    {
      processedEnd, ones, rolling, failed := state.processedEnd, state.value.ones, state.value.rolling, state.failed;
      capture := None;
    }
  }

  // ---------------------------------------------------------------- the coordinator

  class CaptureGenerationCoordinator {
    var generation: Option<Generation<bv64, Bits>>

    constructor ()
      ensures generation == None
    {
      generation := None;
    }

    method Collect(hash: HashChainModule, bits: BitAccumulatorModule) returns (status: CollectStatus)
      modifies this
      ensures status == CollectStatusOf(old(generation), hash.Now(), bits.Now())
      ensures generation == if status == Complete then Some(Generation(hash.capture.value, bits.capture.value))
        else old(generation)
    {
      if generation.Some? {
        return GenerationInFlight;
      }
      if hash.capture == None || bits.capture == None {
        return MissingParticipant;
      }
      var a, b := hash.capture.value, bits.capture.value;
      if a.generation != b.generation || a.position != b.position || a.processedEnd != b.processedEnd
        || a.sequence != b.sequence
         || a.state.processedEnd != a.processedEnd || b.state.processedEnd != b.processedEnd {
        return Mismatch;
      }
      generation := Some(Generation(a, b));
      return Complete;
    }

    /** Releases both captures of the held generation, or nothing at all. */
    method ReleaseGeneration(hash: HashChainModule, bits: BitAccumulatorModule, id: nat) returns (ok: bool)
      modifies this, hash`capture, bits`capture
      ensures ok == (
        && old(generation).Some? && old(generation).value.hash.generation == id
        && Release(old(hash.Now()), id, old(generation).value.hash.processedEnd).0
        && Release(old(bits.Now()), id, old(generation).value.hash.processedEnd).0)
      ensures if ok
        then generation == None && hash.Now() == old(hash.Now()).(capture := None)
          && bits.Now() == old(bits.Now()).(capture := None)
              else generation == old(generation) && hash.Now() == old(hash.Now()) && bits.Now() == old(bits.Now())
    {
      if generation == None || generation.value.hash.generation != id {
        return false;
      }
      var end := generation.value.hash.processedEnd;
      if hash.capture == None || bits.capture == None || hash.capture.value.generation != id
        || bits.capture.value.generation != id
         || hash.capture.value.processedEnd != end || bits.capture.value.processedEnd != end {
        return false;
      }
      var hashReleased := hash.ReleaseCapture(id, end);
      var bitsReleased := bits.ReleaseCapture(id, end);
      generation := None;
      return true;
    }
  }
}
