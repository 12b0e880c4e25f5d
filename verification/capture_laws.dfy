/** What the two snapshot modules compute: every byte of every record shows in the hash chain and in
    the rolling value, and the count is the number of set bits. */
module CaptureLaws {
  import opened BookTypes
  import opened ByteWords
  import opened WalFormat
  import opened WalCores
  import opened CaptureGenerations
  import opened CaptureModules

  // ---------------------------------------------------------------- the hash chain

  function Low(d: bv64): bv8 {
    (d & 0xff) as bv8
  }

  /** The low byte after mixing in `b`; 0xB3 is the low byte of the prime. */
  function LowMix(x: bv8, b: Byte): bv8 {
    (x ^ b) * 0xB3
  }

  lemma LowStep(d: bv64, b: Byte)
    ensures Low(MixByte(d, b)) == LowMix(Low(d), b)
  {
  }

  lemma OddIsInjective(x: bv8, y: bv8)
    requires x * 0xB3 == y * 0xB3
    ensures x == y
  {
  }

  lemma LowMixInjective(x: bv8, y: bv8, a: Byte, b: Byte)
    requires LowMix(x, a) == LowMix(y, b)
    ensures x ^ a == y ^ b
  {
    OddIsInjective(x ^ a, y ^ b);
  }

  lemma LowMixApart(x: bv8, y: bv8, a: Byte, b: Byte)
    ensures x != y ==> LowMix(x, a) != LowMix(y, a)
    ensures a != b ==> LowMix(x, a) != LowMix(x, b)
  {
    if LowMix(x, a) == LowMix(y, a) {
      LowMixInjective(x, y, a, a);
    }
    if LowMix(x, a) == LowMix(x, b) {
      LowMixInjective(x, x, a, b);
    }
    hide LowMix;
  }

  /** The low byte of the digest keeps apart what differs before a byte, and what differs in it. */
  lemma StepKeepsApart(d: bv64, e: bv64, a: Byte, b: Byte)
    ensures Low(d) != Low(e) ==> Low(MixByte(d, a)) != Low(MixByte(e, a))
    ensures a != b ==> Low(MixByte(d, a)) != Low(MixByte(d, b))
  {
    hide Low, MixByte, LowMix;
    LowStep(d, a);
    LowStep(e, a);
    LowStep(d, b);
    LowMixApart(Low(d), Low(e), a, b);
  }

  lemma {:induction false} BytesKeepApart(d: bv64, e: bv64, bytes: seq<Byte>)
    requires Low(d) != Low(e)
    ensures Low(MixAll(d, bytes)) != Low(MixAll(e, bytes))
    decreases |bytes|
  {
    hide Low, MixByte;
    if bytes != [] {
      var before := bytes[..|bytes| - 1];
      BytesKeepApart(d, e, before);
      StepKeepsApart(MixAll(d, before), MixAll(e, before), bytes[|bytes| - 1], 0);
    }
  }

  /** One changed byte among those mixed in. */
  lemma OneByteShows(d: bv64, bytes: seq<Byte>, i: nat, b: Byte)
    requires i < |bytes| && b != bytes[i]
    ensures Low(MixAll(d, bytes)) != Low(MixAll(d, bytes[i := b]))
  {
    hide Low, MixByte;
    var before, after := bytes[..i], bytes[i + 1..];
    assert bytes == before + [bytes[i]] + after && bytes[i := b] == before + [b] + after;
    MixConcat(d, before + [bytes[i]], after);
    MixConcat(d, before + [b], after);
    MixOne(d, before, bytes[i]);
    MixOne(d, before, b);
    StepKeepsApart(MixAll(d, before), 0, bytes[i], b);
    BytesKeepApart(MixAll(d, before + [bytes[i]]), MixAll(d, before + [b]), after);
  }

  lemma MixOne(d: bv64, before: seq<Byte>, b: Byte)
    ensures MixAll(d, before + [b]) == MixByte(MixAll(d, before), b)
  {
    hide MixByte;
    assert (before + [b])[..|before|] == before;
  }

  lemma {:induction false} RecordsKeepApart(d: bv64, e: bv64, rest: seq<RecordView>)
    requires Low(d) != Low(e)
    ensures Low(FoldAll(HashFold, d, rest)) != Low(FoldAll(HashFold, e, rest))
    decreases |rest|
  {
    hide Low, MixAll, RecordMix;
    if rest != [] {
      var before, last := rest[..|rest| - 1], rest[|rest| - 1];
      RecordsKeepApart(d, e, before);
      BytesKeepApart(FoldAll(HashFold, d, before), FoldAll(HashFold, e, before), RecordMix(last));
    }
  }

  /** The digest after a log differs from the digest after the log with another record `q` in place
      of `r`: at once, and whatever equal records follow. */
  ghost predicate DigestsDiffer(start: bv64, r: RecordView, q: RecordView) {
    forall rest: seq<RecordView> ::
      FoldAll(HashFold, HashFold(start, r), rest) != FoldAll(HashFold, HashFold(start, q), rest)
  }

  lemma MixesDiffer(start: bv64, r: RecordView, q: RecordView, i: nat, b: Byte)
    requires i < |RecordMix(r)| && b != RecordMix(r)[i] && RecordMix(q) == RecordMix(r)[i := b]
    ensures DigestsDiffer(start, r, q)
  {
    hide Low, MixAll, RecordMix, FoldAll;
    OneByteShows(start, RecordMix(r), i, b);
    forall rest: seq<RecordView>
      ensures FoldAll(HashFold, HashFold(start, r), rest) != FoldAll(HashFold, HashFold(start, q), rest)
    {
      RecordsKeepApart(HashFold(start, r), HashFold(start, q), rest);
    }
  }

  /** Changing any one byte of the payload changes the digest for good. */
  lemma PayloadShows(start: bv64, r: RecordView, i: nat, b: Byte)
    requires i < |r.payload| && b != r.payload[i]
    ensures DigestsDiffer(start, r, r.(payload := r.payload[i := b]))
  {
    hide LE, DigestsDiffer;
    var q, k := r.(payload := r.payload[i := b]), 25 + i;
    assert RecordMix(q) == RecordMix(r)[k := b] && RecordMix(r)[k] == r.payload[i];
    hide RecordMix;
    MixesDiffer(start, r, q, k, b);
  }

  /** So does changing one byte of the position or of the sequence. */
  lemma PlaceShows(start: bv64, r: RecordView, position: nat, sequence: nat, i: nat, b: Byte)
    requires i < 8
    ensures b != LE(r.position, 8)[i] && LE(position, 8) == LE(r.position, 8)[i := b] ==>
      DigestsDiffer(start, r, r.(position := position))
    ensures b != LE(r.sequence, 8)[i] && LE(sequence, 8) == LE(r.sequence, 8)[i := b] ==>
      DigestsDiffer(start, r, r.(sequence := sequence))
  {
    hide LE, DigestsDiffer;
    if b != LE(r.position, 8)[i] && LE(position, 8) == LE(r.position, 8)[i := b] {
      var q := r.(position := position);
      assert RecordMix(q) == RecordMix(r)[1 + i := b] && RecordMix(r)[1 + i] == LE(r.position, 8)[i];
      MixesDiffer(start, r, q, 1 + i, b);
    }
    if b != LE(r.sequence, 8)[i] && LE(sequence, 8) == LE(r.sequence, 8)[i := b] {
      var q := r.(sequence := sequence);
      assert RecordMix(q) == RecordMix(r)[9 + i := b] && RecordMix(r)[9 + i] == LE(r.sequence, 8)[i];
      MixesDiffer(start, r, q, 9 + i, b);
    }
  }

  /** A record is mixed in as a marker, its position, its sequence, its size and its payload. */
  lemma RecordIsMixed(d: bv64, r: RecordView)
    ensures HashFold(d, r) ==
            MixAll(MixAll(MixAll(MixAll(MixByte(d, 0xff), LE(r.position, 8)), LE(r.sequence, 8)), LE(|r.payload|, 8)),
                r.payload)
  {
    hide MixByte, LE;
    var position, sequence, size := LE(r.position, 8), LE(r.sequence, 8), LE(|r.payload|, 8);
    assert [] + [0xff as Byte] == [0xff];
    MixOne(d, [], 0xff);
    assert MixAll(d, []) == d;
    hide MixAll;
    MixConcat(d, [0xff], position);
    MixConcat(d, [0xff] + position, sequence);
    MixConcat(d, [0xff] + position + sequence, size);
    MixConcat(d, [0xff] + position + sequence + size, r.payload);
  }

  /** The six letters "foobar". */
  const FOOBAR: seq<Byte> := [0x66, 0x6f, 0x6f, 0x62, 0x61, 0x72]

  lemma FoobarSteps()
    ensures MixByte(FNV_OFFSET, FOOBAR[0]) == 0xAF63_DB4C_8601_EAD9
    ensures MixByte(0xAF63_DB4C_8601_EAD9, FOOBAR[1]) == 0x0898_5907_B541_D342
    ensures MixByte(0x0898_5907_B541_D342, FOOBAR[2]) == 0xDCB2_7518_FED9_D577
    ensures MixByte(0xDCB2_7518_FED9_D577, FOOBAR[3]) == 0xDD12_0E79_0C25_12AF
    ensures MixByte(0xDD12_0E79_0C25_12AF, FOOBAR[4]) == 0xCAC1_65AF_A2FE_F40A
    ensures MixByte(0xCAC1_65AF_A2FE_F40A, FOOBAR[5]) == 0x8594_4171_F739_67E8
  {
  }

  /** The published check value of the 64-bit FNV-1a hash. */
  lemma FoobarDigest()
    ensures MixAll(FNV_OFFSET, FOOBAR) == 0x8594_4171_F739_67E8
  {
    FoobarSteps();
    var digests: seq<bv64> := [FNV_OFFSET, 0xAF63_DB4C_8601_EAD9, 0x0898_5907_B541_D342, 0xDCB2_7518_FED9_D577,
        0xDD12_0E79_0C25_12AF, 0xCAC1_65AF_A2FE_F40A, 0x8594_4171_F739_67E8];
    assert FOOBAR[..0] == [] && MixAll(FNV_OFFSET, []) == FNV_OFFSET;
    hide MixByte, MixAll;
    for i := 0 to 6
      invariant MixAll(FNV_OFFSET, FOOBAR[..i]) == digests[i]
    {
      assert FOOBAR[..i + 1] == FOOBAR[..i] + [FOOBAR[i]];
      MixOne(FNV_OFFSET, FOOBAR[..i], FOOBAR[i]);
    }
    assert FOOBAR[..6] == FOOBAR;
  }

  // ---------------------------------------------------------------- the bit accumulator

  const MASKS: seq<Byte> := [1, 2, 4, 8, 16, 32, 64, 128]

  predicate BitSet(b: Byte, i: nat)
    requires i < 8
  {
    b & MASKS[i] != 0
  }

  /** The positions of the set bits among the lowest `n`. */
  function PositionsBelow(b: Byte, n: nat): set<nat>
    requires n <= 8
  {
    set i: nat | i < n && BitSet(b, i)
  }

  /** The positions of the set bits of a byte. */
  function Positions(b: Byte): set<nat> {
    PositionsBelow(b, 8)
  }

  lemma OneMorePosition(b: Byte, n: nat)
    requires n < 8
    ensures |PositionsBelow(b, n + 1)| == |PositionsBelow(b, n)| + (if BitSet(b, n) then 1 else 0)
  {
    hide BitSet;
    assert PositionsBelow(b, n + 1) == PositionsBelow(b, n) + (if BitSet(b, n) then {n} else {});
  }

  lemma OneBitsAre(b: Byte)
    ensures OneBits(b) == (if BitSet(b, 0) then 1 else 0) + (if BitSet(b, 1) then 1 else 0)
      + (if BitSet(b, 2) then 1 else 0) + (if BitSet(b, 3) then 1 else 0) + (if BitSet(b, 4) then 1 else 0)
      + (if BitSet(b, 5) then 1 else 0) + (if BitSet(b, 6) then 1 else 0) + (if BitSet(b, 7) then 1 else 0)
  {
  }

  /** The count of a byte is the number of its set bits. */
  lemma OneBitsCount(b: Byte)
    ensures OneBits(b) == |Positions(b)|
  {
    OneBitsAre(b);
    assert PositionsBelow(b, 0) == {};
    hide BitSet, OneBits, PositionsBelow;
    OneMorePosition(b, 0);
    OneMorePosition(b, 1);
    OneMorePosition(b, 2);
    OneMorePosition(b, 3);
    OneMorePosition(b, 4);
    OneMorePosition(b, 5);
    OneMorePosition(b, 6);
    OneMorePosition(b, 7);
  }

  /** The set bits of a payload, and of the payloads of a log. */
  function SetBits(bytes: seq<Byte>): nat {
    if bytes == [] then 0 else SetBits(bytes[..|bytes| - 1]) + |Positions(bytes[|bytes| - 1])|
  }

  function SetBitsOf(log: seq<RecordView>): nat {
    if log == [] then 0 else SetBitsOf(log[..|log| - 1]) + SetBits(log[|log| - 1].payload)
  }

  lemma WrapsOnce(a: nat, b: nat)
    ensures (a % U64 + b) % U64 == (a + b) % U64
  {
  }

  lemma {:induction false} CountsBits(bits: Bits, before: nat, bytes: seq<Byte>)
    requires bits.ones == before % U64
    ensures CountAll(bits, bytes).ones == (before + SetBits(bytes)) % U64
    decreases |bytes|
  {
    hide FoldByte, OneBits, Positions;
    if bytes != [] {
      CountsBits(bits, before, bytes[..|bytes| - 1]);
      OneBitsCount(bytes[|bytes| - 1]);
      WrapsOnce(before + SetBits(bytes[..|bytes| - 1]), OneBits(bytes[|bytes| - 1]));
    }
  }

  /** The count after any log is the number of set bits of all its payloads, modulo 2^64. */
  lemma {:induction false} CountIsExact(log: seq<RecordView>)
    ensures FoldAll(BitFold, Bits(0, ROLLING_START), log).ones == SetBitsOf(log) % U64
    decreases |log|
  {
    hide CountAll, SetBits, FoldBytes, LE;
    if log != [] {
      var before, r := log[..|log| - 1], log[|log| - 1];
      CountIsExact(before);
      var bits := FoldAll(BitFold, Bits(0, ROLLING_START), before);
      var fed := bits.(rolling := FoldBytes(bits.rolling, LE(r.position, 8) + LE(r.sequence, 8) + LE(|r.payload|, 8)));
      CountsBits(fed, SetBitsOf(before), r.payload);
    }
  }

  lemma Xor64IsInjective(a: bv64, b: bv64, x: bv64)
    ensures a ^ x == b ^ x ==> a == b
    ensures x ^ a == x ^ b ==> a == b
  {
  }

  lemma StepAddIsInjective(a: Byte, b: Byte)
    requires (a as bv64) + ROLLING_STEP == (b as bv64) + ROLLING_STEP
    ensures a == b
  {
  }

  function Rotated(r: bv64): bv64 {
    (r << 7) | (r >> 57)
  }

  function Stepped(b: Byte): bv64 {
    (b as bv64) + ROLLING_STEP
  }

  lemma RotatedApart(r: bv64, s: bv64)
    requires Rotated(r) == Rotated(s)
    ensures r == s
  {
  }

  lemma SteppedApart(a: Byte, b: Byte)
    requires Stepped(a) == Stepped(b)
    ensures a == b
  {
    StepAddIsInjective(a, b);
  }

  lemma FoldByteIs(r: bv64, b: Byte)
    ensures FoldByte(r, b) == Rotated(r) ^ Stepped(b)
  {
  }

  /** The rolling value keeps apart what differs before a byte, and what differs in it. */
  lemma RollingKeepsApart(r: bv64, s: bv64, a: Byte, b: Byte)
    ensures r != s ==> FoldByte(r, a) != FoldByte(s, a)
    ensures a != b ==> FoldByte(r, a) != FoldByte(r, b)
  {
    FoldByteIs(r, a);
    FoldByteIs(s, a);
    FoldByteIs(r, b);
    hide Rotated, Stepped, FoldByte;
    if FoldByte(r, a) == FoldByte(s, a) {
      Xor64IsInjective(Rotated(r), Rotated(s), Stepped(a));
      RotatedApart(r, s);
    }
    if FoldByte(r, a) == FoldByte(r, b) {
      Xor64IsInjective(Stepped(a), Stepped(b), Rotated(r));
      SteppedApart(a, b);
    }
  }

  lemma FoldOne(r: bv64, before: seq<Byte>, b: Byte)
    ensures FoldBytes(r, before + [b]) == FoldByte(FoldBytes(r, before), b)
  {
    hide FoldByte;
    assert (before + [b])[..|before|] == before;
  }

  lemma {:induction false} BytesRollApart(r: bv64, s: bv64, bytes: seq<Byte>)
    requires r != s
    ensures FoldBytes(r, bytes) != FoldBytes(s, bytes)
    decreases |bytes|
  {
    hide FoldByte;
    if bytes != [] {
      var before := bytes[..|bytes| - 1];
      BytesRollApart(r, s, before);
      RollingKeepsApart(FoldBytes(r, before), FoldBytes(s, before), bytes[|bytes| - 1], 0);
    }
  }

  lemma OneByteRolls(r: bv64, bytes: seq<Byte>, i: nat, b: Byte)
    requires i < |bytes| && b != bytes[i]
    ensures FoldBytes(r, bytes) != FoldBytes(r, bytes[i := b])
  {
    hide FoldByte;
    var before, after := bytes[..i], bytes[i + 1..];
    assert bytes == before + [bytes[i]] + after && bytes[i := b] == before + [b] + after;
    FoldBytesConcat(r, before + [bytes[i]], after);
    FoldBytesConcat(r, before + [b], after);
    FoldOne(r, before, bytes[i]);
    FoldOne(r, before, b);
    RollingKeepsApart(FoldBytes(r, before), 0, bytes[i], b);
    BytesRollApart(FoldBytes(r, before + [bytes[i]]), FoldBytes(r, before + [b]), after);
  }

  lemma {:induction false} CountAllRolls(bits: Bits, bytes: seq<Byte>)
    ensures CountAll(bits, bytes).rolling == FoldBytes(bits.rolling, bytes)
    decreases |bytes|
  {
    hide FoldByte, OneBits;
    if bytes != [] {
      CountAllRolls(bits, bytes[..|bytes| - 1]);
    }
  }

  /** Position, sequence and size, and then the payload. */
  lemma BitFoldRolls(bits: Bits, r: RecordView)
    ensures BitFold(bits, r).rolling
      == FoldBytes(bits.rolling, LE(r.position, 8) + LE(r.sequence, 8) + LE(|r.payload|, 8) + r.payload)
  {
    hide CountAll, FoldBytes, LE;
    var place := LE(r.position, 8) + LE(r.sequence, 8) + LE(|r.payload|, 8);
    CountAllRolls(bits.(rolling := FoldBytes(bits.rolling, place)), r.payload);
    FoldBytesConcat(bits.rolling, place, r.payload);
  }

  lemma {:induction false} RecordsRollApart(a: Bits, b: Bits, rest: seq<RecordView>)
    requires a.rolling != b.rolling
    ensures FoldAll(BitFold, a, rest).rolling != FoldAll(BitFold, b, rest).rolling
    decreases |rest|
  {
    hide FoldBytes, BitFold, LE;
    if rest != [] {
      var before, r := rest[..|rest| - 1], rest[|rest| - 1];
      RecordsRollApart(a, b, before);
      BitFoldRolls(FoldAll(BitFold, a, before), r);
      BitFoldRolls(FoldAll(BitFold, b, before), r);
      BytesRollApart(FoldAll(BitFold, a, before).rolling, FoldAll(BitFold, b, before).rolling,
        LE(r.position, 8) + LE(r.sequence, 8) + LE(|r.payload|, 8) + r.payload);
    }
  }

  ghost predicate RollingsDiffer(start: Bits, r: RecordView, q: RecordView) {
    forall rest: seq<RecordView> ::
      FoldAll(BitFold, BitFold(start, r), rest).rolling != FoldAll(BitFold, BitFold(start, q), rest).rolling
  }

  /** Changing any one byte of the payload, the position or the sequence changes the rolling value for
      good. */
  lemma RecordShows(start: Bits, r: RecordView, q: RecordView, i: nat, b: Byte)
    requires var bytes := LE(r.position, 8) + LE(r.sequence, 8) + LE(|r.payload|, 8) + r.payload;
             && i < |bytes| && b != bytes[i]
             && LE(q.position, 8) + LE(q.sequence, 8) + LE(|q.payload|, 8) + q.payload == bytes[i := b]
    ensures RollingsDiffer(start, r, q)
  {
    hide FoldBytes, BitFold, LE, FoldAll;
    BitFoldRolls(start, r);
    BitFoldRolls(start, q);
    OneByteRolls(start.rolling, LE(r.position, 8) + LE(r.sequence, 8) + LE(|r.payload|, 8) + r.payload, i, b);
    forall rest: seq<RecordView>
      ensures FoldAll(BitFold, BitFold(start, r), rest).rolling != FoldAll(BitFold, BitFold(start, q), rest).rolling
    {
      RecordsRollApart(BitFold(start, r), BitFold(start, q), rest);
    }
  }

  lemma PayloadRolls(start: Bits, r: RecordView, i: nat, b: Byte)
    requires i < |r.payload| && b != r.payload[i]
    ensures RollingsDiffer(start, r, r.(payload := r.payload[i := b]))
  {
    hide LE, RollingsDiffer;
    var q := r.(payload := r.payload[i := b]);
    var place := LE(r.position, 8) + LE(r.sequence, 8) + LE(|r.payload|, 8);
    assert place + q.payload == (place + r.payload)[24 + i := b];
    RecordShows(start, r, q, 24 + i, b);
  }

  // ---------------------------------------------------------------- accepting, collecting, releasing

  /** A module accepts a record exactly when it has not failed, the record is the next one and well
      formed, and its slot is free if it is a save; it fails exactly on the other defects, and a save
      that finds the slot taken changes nothing. */
  lemma AcceptsExactly<F>(decode: Decoder, fold: (F, RecordView) -> F, m: Module<F>, r: RecordView)
    ensures var (accepted, m') := Process(decode, fold, m, r);
      var usable := !m.state.failed && r.position == m.state.processedEnd && decode(r.payload) != Undecodable
                    && (decode(r.payload).Save? ==> decode(r.payload).generation == r.position);
      && (accepted <==> usable && !(decode(r.payload).Save? && m.capture.Some?))
      && (m'.state.failed <==> !usable)
      && (usable && !accepted ==> m' == m)
      && (accepted ==> m'.state == Folded(m.state.processedEnd + 1, fold(m.state.value, r), false))
      && (!accepted ==> m'.state.value == m.state.value && m'.capture == m.capture)
      && (accepted && !decode(r.payload).Save? ==> m'.capture == m.capture)
      && (accepted && decode(r.payload).Save? ==>
            m'.capture == Some(Capture(r.position, r.position, m'.state.processedEnd, r.sequence, m'.state)))
  {
  }

  /** What a collection answers. */
  lemma CollectAnswers<A, B>(generation: Option<Generation<A, B>>, hash: Module<A>, bits: Module<B>)
    ensures var status := CollectStatusOf(generation, hash, bits);
      && (status == GenerationInFlight <==> generation.Some?)
      && (status == MissingParticipant <==> generation == None && (hash.capture == None || bits.capture == None))
      && (status == Complete ==>
            && generation == None && hash.capture.Some? && bits.capture.Some?
            && hash.capture.value.position == bits.capture.value.position
            && hash.capture.value.processedEnd == bits.capture.value.processedEnd
            && hash.capture.value.state.processedEnd == bits.capture.value.state.processedEnd)
  {
  }

  /** A capture is released exactly by its own generation and end. */
  lemma ReleasesOwn<F>(m: Module<F>, generation: nat, end: nat)
    ensures var (ok, m') := Release(m, generation, end);
      && (ok <==> m.capture.Some? && m.capture.value.generation == generation && m.capture.value.processedEnd == end)
      && m' == (if ok then m.(capture := None) else m)
  {
  }
}
