/** Durability as a state machine: a producer, a persistence role that appends records piece by
    piece and syncs batches, and a consumer behind the durable frontier. A crash may come after
    any step and keeps the synced bytes and any prefix of the others. */
module WalDurability {
  import opened ByteWords
  import opened WalFormat
  import opened WalLog
  import opened WalScan
  import opened WalScanLaws
  import opened WalRecovery
  import opened Modular

  /** `appended` records are whole in the file, and `partial` bytes of the next one. */
  datatype State = State(published: seq<seq<Byte>>, tail: nat, durable: nat, appended: nat, partial: nat,
                         bytes: seq<Byte>, synced: nat, failed: bool)

  datatype Step =
    | Publish(payload: seq<Byte>)
    | Append(n: nat)
    | AppendFails
    | Sync
    | SyncFails
    | StoreDurable
    | Consume

  /** The record being appended. */
  function Pending(c: Config, s: State): seq<Byte>
    requires c.alignment > 0 && s.appended < |s.published|
  {
    RecordBytes(c, c.firstSequence + s.appended, s.published[s.appended])
  }

  predicate Enabled(c: Config, capacity: nat, s: State, step: Step)
    requires c.alignment > 0
  {
    match step
    case Publish(payload) => |payload| == c.payloadSize && |s.published| - s.tail < capacity
      && c.firstSequence + |s.published| < U64
    case Append(n) => !s.failed && s.appended < |s.published| && 0 < n && s.partial + n <= |Pending(c, s)|
    case AppendFails => true
    case Sync => !s.failed
    case SyncFails => true
    case StoreDurable => !s.failed && s.partial == 0 && s.synced == |s.bytes|
    case Consume => s.tail < s.durable
  }

  function Do(c: Config, capacity: nat, s: State, step: Step): State
    requires c.alignment > 0 && Enabled(c, capacity, s, step)
  {
    match step
    case Publish(payload) => s.(published := s.published + [payload])
    case Append(n) =>
      var rec := Pending(c, s);
      var bytes := s.bytes + rec[s.partial..s.partial + n];
      if s.partial + n == |rec| then s.(bytes := bytes, partial := 0, appended := s.appended + 1)
      else s.(bytes := bytes, partial := s.partial + n)
    case AppendFails => s.(failed := true)
    case Sync => s.(synced := |s.bytes|)
    case SyncFails => s.(failed := true)
    case StoreDurable => s.(durable := s.appended)
    case Consume => s.(tail := s.tail + 1)
  }

  /** A new log: the synced head, and nothing else. */
  function Begin(c: Config): State
    requires c.alignment > 0
  {
    State([], 0, 0, 0, 0, FileHead(c), |FileHead(c)|, false)
  }

  ghost predicate Inv(c: Config, s: State) {
    && c.alignment > 0 && Writable(c, s.published)
    && s.tail <= s.durable <= s.appended <= |s.published|
    && (s.partial > 0 ==> s.appended < |s.published| && s.partial < |Pending(c, s)|)
    && s.bytes == LogBytes(c, s.published[..s.appended]) + (if s.partial == 0 then [] else Pending(c, s)[..s.partial])
    && |LogBytes(c, s.published[..s.durable])| <= s.synced <= |s.bytes|
  }

  lemma Frontiers(c: Config, s: State)
    requires Inv(c, s)
    ensures s.tail <= s.durable <= s.appended <= |s.published|
  {
  }

  lemma BeginInv(c: Config)
    requires ValidConfig(c, 1) && Representable(c)
    ensures Inv(c, Begin(c))
  {
    hide FileHead, AlignUp, PowerOfTwo;
    RecordsNothing(c, c.firstSequence);
    var none := Begin(c).published;
    assert none[..0] == none;
    assert FileHead(c) + [] == FileHead(c);
  }

  lemma PublishKeeps(c: Config, capacity: nat, s: State, payload: seq<Byte>)
    requires Inv(c, s) && Enabled(c, capacity, s, Publish(payload))
    ensures Inv(c, Do(c, capacity, s, Publish(payload)))
  {
    hide AlignUp, PowerOfTwo, LogBytes, RecordBytes;
    var all := s.published + [payload];
    assert all[..s.appended] == s.published[..s.appended] && all[..s.durable] == s.published[..s.durable];
  }

  lemma AppendKeeps(c: Config, capacity: nat, s: State, n: nat)
    requires Inv(c, s) && Enabled(c, capacity, s, Append(n))
    ensures Inv(c, Do(c, capacity, s, Append(n)))
  {
    hide LogBytes, RecordBytes, Writable;
    var rec := Pending(c, s);
    var kept := LogBytes(c, s.published[..s.appended]);
    assert (if s.partial == 0 then [] else rec[..s.partial]) == rec[..s.partial];
    assert s.bytes + rec[s.partial..s.partial + n] == kept + rec[..s.partial + n];
    if s.partial + n == |rec| {
      LogSnoc(c, s.published, s.appended);
      assert rec[..|rec|] == rec;
    }
  }

  lemma LogSnoc(c: Config, payloads: seq<seq<Byte>>, k: nat)
    requires c.alignment > 0 && Writable(c, payloads) && k < |payloads|
    ensures LogBytes(c, payloads[..k + 1])
      == LogBytes(c, payloads[..k]) + RecordBytes(c, c.firstSequence + k, payloads[k])
  {
    hide LogBytes, RecordBytes, RecordsBytes, Writable;
    var front := payloads[..k + 1];
    WritablePrefix(c, payloads, k + 1);
    LogSplit(c, front, k);
    assert front[..k] == payloads[..k] && front[k + 1..] == [];
    RecordsNothing(c, c.firstSequence + k + 1);
  }

  lemma RecordsNothing(c: Config, sequence: nat)
    requires c.alignment > 0
    ensures RecordsBytes(c, sequence, []) == []
  {
  }

  lemma StepKeeps(c: Config, capacity: nat, s: State, step: Step)
    requires Inv(c, s) && Enabled(c, capacity, s, step)
    ensures Inv(c, Do(c, capacity, s, step))
  {
    match step
    case Publish(payload) => PublishKeeps(c, capacity, s, payload);
    case Append(n) => AppendKeeps(c, capacity, s, n);
    case _ => QuietKeeps(c, capacity, s, step);
  }

  lemma QuietKeeps(c: Config, capacity: nat, s: State, step: Step)
    requires Inv(c, s) && Enabled(c, capacity, s, step) && !step.Publish? && !step.Append?
    ensures Inv(c, Do(c, capacity, s, step))
  {
    hide LogBytes, RecordBytes, Writable;
  }

  // ---------------------------------------------------------------- every schedule and every crash

  ghost predicate Schedule(c: Config, capacity: nat, s: State, steps: seq<Step>)
    requires c.alignment > 0
    decreases |steps|
  {
    steps != [] ==> Enabled(c, capacity, s, steps[0]) && Schedule(c, capacity, Do(c, capacity, s, steps[0]), steps[1..])
  }

  ghost function Execute(c: Config, capacity: nat, s: State, steps: seq<Step>): State
    requires c.alignment > 0 && Schedule(c, capacity, s, steps)
    decreases |steps|
  {
    if steps == [] then s else Execute(c, capacity, Do(c, capacity, s, steps[0]), steps[1..])
  }

  lemma {:induction false} RunKeeps(c: Config, capacity: nat, s: State, steps: seq<Step>)
    requires c.alignment > 0 && Inv(c, s) && Schedule(c, capacity, s, steps)
    ensures Inv(c, Execute(c, capacity, s, steps))
    decreases |steps|
  {
    hide Enabled, Do, Inv;
    if steps != [] {
      StepKeeps(c, capacity, s, steps[0]);
      RunKeeps(c, capacity, Do(c, capacity, s, steps[0]), steps[1..]);
    }
  }

  /** What a crash can leave of the file: everything synced, and any prefix of the rest. */
  predicate CrashImage(s: State, image: seq<Byte>) {
    image <= s.bytes && |image| >= s.synced
  }

  /** Recovery of `image` succeeds and leaves the log of a prefix of the published payloads that
      holds at least everything below the durable frontier. */
  ghost predicate KeepsDurable(c: Config, s: State, image: seq<Byte>, k: nat)
    requires c.alignment > 0
  {
    var (result, kept) := Recover(c, image, Truncated);
    && (result.status == AlreadyClean || result.status == Recovered)
    && s.durable <= k <= |s.published| && kept == LogBytes(c, s.published[..k]) && result.records == k
  }

  lemma CrashKeepsDurable(c: Config, s: State, image: seq<Byte>) returns (k: nat)
    requires c.alignment > 0 && Inv(c, s) && CrashImage(s, image)
    ensures KeepsDurable(c, s, image, k)
  {
    hide LogBytes, RecordBytes, Writable, RecordsOffset, Stride, Span, Recover;
    var log, m := LogBytes(c, s.published), |image|;
    BytesArePrefix(c, s);
    assert image == s.bytes[..m] == log[..m];
    LogSize(c, s.published, s.durable);
    TailRecovery(c, s.published, m);
    k := WhichRecord(c, s.published, m);
    WhichIsQuotient(c, m, k);
    if k < s.durable {
      SpanMonotonic(c, k + 1, s.durable);
      SpanStep(c, k);
    }
  }

  lemma {:induction false} SpanMonotonic(c: Config, a: nat, b: nat)
    requires c.alignment > 0 && a <= b
    ensures Span(c, a) <= Span(c, b)
    decreases b - a
  {
    hide Stride;
    if a < b {
      SpanMonotonic(c, a, b - 1);
      SpanStep(c, b - 1);
    }
  }

  /** The file is always a prefix of the log of everything published. */
  lemma BytesArePrefix(c: Config, s: State)
    requires Inv(c, s)
    ensures s.bytes <= LogBytes(c, s.published)
  {
    hide LogBytes, RecordBytes, Writable, RecordsOffset, Stride;
    if s.partial == 0 {
      LogPrefix(c, s.published, s.appended);
    } else {
      var kept, rec, rest := AtRecord(c, s.published, s.appended);
      assert s.bytes == kept + rec[..s.partial];
    }
  }

  /** Record `i` of the recovered file is the payload that was published at position `i`. */
  ghost predicate ReadsBack(c: Config, s: State, image: seq<Byte>, i: nat)
    requires c.alignment > 0
  {
    && i < |s.published|
    && ReadAt(c, Recover(c, image, Truncated).1, RecordsOffset(c) + Span(c, i), c.firstSequence + i, false)
       == Record(s.published[i])
  }

  /** What recovery keeps is read back. */
  lemma DurableReadsBack(c: Config, s: State, image: seq<Byte>, k: nat, i: nat)
    requires c.alignment > 0 && Inv(c, s) && KeepsDurable(c, s, image, k) && i < k
    ensures ReadsBack(c, s, image, i)
  {
    hide LogBytes, Recover, RecordsOffset, Span, ReadAt, Writable, Inv;
    PublishedIsWritable(c, s);
    PrefixReadsBack(c, s.published, k, i);
  }

  lemma PublishedIsWritable(c: Config, s: State)
    requires Inv(c, s)
    ensures Writable(c, s.published)
  {
    hide Writable;
  }

  lemma PrefixReadsBack(c: Config, payloads: seq<seq<Byte>>, k: nat, i: nat)
    requires c.alignment > 0 && Writable(c, payloads) && i < k <= |payloads|
    ensures ReadAt(c, LogBytes(c, payloads[..k]), RecordsOffset(c) + Span(c, i), c.firstSequence + i, false)
      == Record(payloads[i])
  {
    hide LogBytes, RecordsOffset, Span, ReadAt, Writable;
    WritablePrefix(c, payloads, k);
    RecordReadsBack(c, payloads[..k], i);
  }

  /** End-to-end durability: for every schedule of publications, partial appends, append and sync
      failures, syncs and consumption, and every crash, recovery keeps every record below the
      durable frontier with its published payload; and nobody has consumed anything else. */
  lemma EndToEndDurability(c: Config, capacity: nat, steps: seq<Step>, image: seq<Byte>) returns (k: nat)
    requires c.alignment > 0 && ValidConfig(c, 1) && Representable(c) && Schedule(c, capacity, Begin(c), steps)
    requires CrashImage(Execute(c, capacity, Begin(c), steps), image)
    ensures var s := Execute(c, capacity, Begin(c), steps);
            && KeepsDurable(c, s, image, k) && s.tail <= s.durable <= k
            && forall i :: 0 <= i < k ==> ReadsBack(c, s, image, i)
  {
    hide Schedule, Execute, CrashImage, ReadsBack, Recover, LogBytes;
    var s := Execute(c, capacity, Begin(c), steps);
    BeginInv(c);
    RunKeeps(c, capacity, Begin(c), steps);
    k := CrashKeepsDurable(c, s, image);
    assert KeepsDurable(c, s, image, k);
    hide KeepsDurable;
    forall i | 0 <= i < k
      ensures ReadsBack(c, s, image, i)
    {
      DurableReadsBack(c, s, image, k, i);
    }
  }

  /** After the first failure the durable frontier never moves, and consumers stay below it. */
  lemma {:induction false} FailureFreezesDurable(c: Config, capacity: nat, s: State, steps: seq<Step>)
    requires c.alignment > 0 && s.failed && Schedule(c, capacity, s, steps) && s.tail <= s.durable
    ensures var s' := Execute(c, capacity, s, steps);
            s'.failed && s'.durable == s.durable && s'.tail <= s.durable && s'.bytes == s.bytes
    decreases |steps|
  {
    hide RecordBytes;
    if steps != [] {
      FailureFreezesDurable(c, capacity, Do(c, capacity, s, steps[0]), steps[1..]);
    }
  }

  // ---------------------------------------------------------------- calls as schedules

  /** `s'` is `s` after some schedule. */
  ghost predicate Reaches(c: Config, capacity: nat, s: State, s': State)
    requires c.alignment > 0
  {
    exists steps: seq<Step> :: Schedule(c, capacity, s, steps) && Execute(c, capacity, s, steps) == s'
  }

  lemma ReachesSelf(c: Config, capacity: nat, s: State)
    requires c.alignment > 0
    ensures Reaches(c, capacity, s, s)
  {
    assert Schedule(c, capacity, s, []) && Execute(c, capacity, s, []) == s;
  }

  lemma {:induction false} ExecuteSnoc(c: Config, capacity: nat, s: State, steps: seq<Step>, step: Step)
    requires c.alignment > 0 && Schedule(c, capacity, s, steps)
      && Enabled(c, capacity, Execute(c, capacity, s, steps), step)
    ensures Schedule(c, capacity, s, steps + [step])
    ensures Execute(c, capacity, s, steps + [step]) == Do(c, capacity, Execute(c, capacity, s, steps), step)
    decreases |steps|
  {
    hide Enabled, Do;
    if steps == [] {
      assert [step][1..] == [] && steps + [step] == [step];
      var t := Do(c, capacity, s, step);
      assert Schedule(c, capacity, t, []) && Execute(c, capacity, t, []) == t;
    } else {
      assert (steps + [step])[1..] == steps[1..] + [step];
      ExecuteSnoc(c, capacity, Do(c, capacity, s, steps[0]), steps[1..], step);
    }
  }

  /** One more step. */
  lemma ReachesNext(c: Config, capacity: nat, s: State, t: State, step: Step)
    requires c.alignment > 0 && Reaches(c, capacity, s, t) && Enabled(c, capacity, t, step)
    ensures Reaches(c, capacity, s, Do(c, capacity, t, step))
  {
    hide Enabled, Do, Schedule, Execute;
    var steps: seq<Step> :| Schedule(c, capacity, s, steps) && Execute(c, capacity, s, steps) == t;
    ExecuteSnoc(c, capacity, s, steps, step);
  }

  lemma PayloadSizes(c: Config, s: State, k: nat)
    requires Inv(c, s) && k < |s.published|
    ensures |s.published[k]| == c.payloadSize
  {
  }

  /** Part of the pending record has been appended: that is one `Append`, or nothing. */
  lemma AppendedPart(c: Config, capacity: nat, s0: State, s: State, bytes: seq<Byte>)
    requires c.alignment > 0 && Inv(c, s) && !s.failed && s.partial == 0 && s.appended < |s.published|
      && Reaches(c, capacity, s0, s)
    requires s.bytes <= bytes <= s.bytes + Pending(c, s)
    ensures var n := |bytes| - |s.bytes|;
            n > 0 ==>
              && Enabled(c, capacity, s, Append(n))
              && Inv(c, Do(c, capacity, s, Append(n))) && Reaches(c, capacity, s0, Do(c, capacity, s, Append(n)))
              && Do(c, capacity, s, Append(n)).bytes == bytes
    ensures |Pending(c, s)| > 0
  {
    hide Inv, Reaches, RecordBytes;
    var rec, n := Pending(c, s), |bytes| - |s.bytes|;
    PendingSize(c, s);
    assert bytes == s.bytes + rec[0..n];
    if n > 0 {
      ReachesNext(c, capacity, s0, s, Append(n));
      AppendKeeps(c, capacity, s, n);
    }
  }

  lemma PendingSize(c: Config, s: State)
    requires c.alignment > 0 && Inv(c, s) && s.appended < |s.published|
    ensures |Pending(c, s)| > 0
  {
    hide RecordBytes, LogBytes;
    RecordParts(c, c.firstSequence + s.appended, s.published[s.appended]);
  }
}
