/** The log facade: the ring, the persistence stage over it, and the durable frontier between
    them. Every call is a schedule of `WalDurability`. */
module Wals {
  import opened ByteWords
  import opened WalLog
  import opened WalScan
  import opened WalIo
  import opened WalCores
  import opened Sliders
  import D = WalDurability
  import opened Sequences
  import opened Modular

  /** Appends and syncs until the first failure, and never after it. */
  class PersistenceModule {
    const log: PhysicalLog
    var failed: bool
    var isOpen: bool

    constructor (log: PhysicalLog)
      ensures this.log == log && isOpen && !failed
    {
      this.log, failed, isOpen := log, false, true;
    }

    method Append(record: RecordView) returns (ok: bool)
      requires log.config.alignment > 0 && |record.payload| == log.config.payloadSize
      modifies `failed, log.file
      ensures log.file.synced == old(log.file.synced) && failed == !ok
      ensures !isOpen || old(failed) ==> !ok && log.file.bytes == old(log.file.bytes)
      ensures var rec := RecordBytes(log.config, record.sequence, record.payload);
              old(log.file.bytes) <= log.file.bytes <= old(log.file.bytes) + rec
                && (ok ==> log.file.bytes == old(log.file.bytes) + rec)
              && (isOpen && !old(failed) && log.file.bytes == old(log.file.bytes) + rec ==> ok)
    {
      hide RecordBytes;
      ok := isOpen && !failed;
      if ok {
        ok := log.AppendRecord(record.sequence, record.payload);
      }
      failed := !ok;
    }

    method Sync() returns (ok: bool)
      modifies `failed, log.file
      ensures log.file.bytes == old(log.file.bytes) && failed == !ok
      ensures log.file.synced == if ok then |log.file.bytes| else old(log.file.synced)
      ensures ok ==> isOpen && !old(failed)
    {
      ok := isOpen && !failed;
      if ok {
        ok := log.Sync();
      }
      failed := !ok;
    }
  }

  datatype SliderStatus = Processed | NothingToDo | UpstreamRegression | ProgressMismatch | InvalidRange
                        | ViewUnavailable | ModuleFailed | PublishFailed

  datatype DurabilityStatus = Durable | DurabilityIoError | DurabilityClosed

  datatype ConsumeStatus = Consumed | NothingDurable | ConsumeInvalidSize | ConsumeClosed

  datatype CloseStatus = Closed | PendingConsumption | PendingDurability | ClosedExhausted | CloseIoError
      | AlreadyClosed

  class Wal {
    const config: Config
    const core: WalCore
    const persistence: PersistenceModule
    var durable: nat
    var current: nat
    var isOpen: bool
    ghost var d: D.State

    ghost function File(): LogFile {
      persistence.log.file
    }

    /** The fields are a state of the durability machine, between two calls. */
    ghost predicate Valid()
      reads this, core, core.blocks, persistence, persistence.log.file
    {
      && config.alignment > 0 && persistence.log.config == config && core.payloadSize == config.payloadSize
      && core.firstSequence == config.firstSequence
      && core.Valid() && D.Inv(config, d) && Shows()
      && (!persistence.failed ==> d.partial == 0 && durable == current && d.synced == |d.bytes|)
      && (isOpen ==> core.isOpen && persistence.isOpen)
    }

    ghost predicate Shows()
      reads this, core, persistence, persistence.log.file
    {
      && d.published == core.published && d.tail == core.tail && d.durable == durable && d.appended == current
      && d.bytes == File().bytes && d.synced == File().synced && d.failed == persistence.failed
    }

    /** Opens over a new file. The arguments have passed the validation of `OpenWal`. */
    constructor (config: Config, capacity: nat, log: PhysicalLog)
      requires ValidConfig(config, capacity) && Representable(config) && config.alignment > 0
      requires log.config == config && log.file.bytes == FileHead(config) && log.file.synced == |log.file.bytes|
      ensures Valid() && isOpen && d == D.Begin(config) && core.capacity == capacity && fresh(core)
        && fresh(core.blocks) && fresh(persistence)
      ensures persistence.log == log && this.config == config
    {
      hide AlignUp, PowerOfTwo, FileHead, D.Inv;
      this.config := config;
      core := new WalCore(config.payloadSize, capacity, config.firstSequence);
      persistence := new PersistenceModule(log);
      durable, current, isOpen := 0, 0, true;
      d := D.Begin(config);
      new;
      ReaderConfig(config, capacity);
      D.BeginInv(config);
    }

    method TryPublish(payload: Payload) returns (status: PublishStatus, sequence: nat)
      requires Valid()
      modifies this, core, core.blocks
      ensures Valid() && isOpen == old(isOpen)
      ensures status == (
                if !isOpen then PublishClosed
                else if |payload| != config.payloadSize then InvalidPayloadSize
                else if old(core.sequenceExhausted) then SequenceExhausted
                else if persistence.failed then PublishIoError
                else if old(core.head) - core.tail == core.capacity then Full
                else if config.firstSequence + old(core.head) > MAX_SEQUENCE then SequenceExhausted
                else Published)
      ensures status == Published ==>
        sequence == config.firstSequence + |old(d).published| && d.published == old(d).published + [payload]
      ensures D.Reaches(config, core.capacity, old(d), d) && (status != Published ==> d == old(d))
    {
      hide D.Inv, D.Reaches, WalCore.Valid;
      D.ReachesSelf(config, core.capacity, d);
      sequence := 0;
      if !isOpen {
        status := PublishClosed;
      } else if |payload| != config.payloadSize {
        status := InvalidPayloadSize;
      } else if core.sequenceExhausted {
        status := SequenceExhausted;
      } else if persistence.failed {
        status := PublishIoError;
      } else {
        CoreFacts();
        status, sequence := core.TryPublish(payload);
        if status == Published {
          assert D.Enabled(config, core.capacity, d, D.Publish(payload));
          D.ReachesNext(config, core.capacity, d, d, D.Publish(payload));
          D.StepKeeps(config, core.capacity, d, D.Publish(payload));
          d := D.Do(config, core.capacity, d, D.Publish(payload));
        }
      }
    }

    lemma CoreFacts()
      requires core.Valid()
      ensures |core.published| == core.head && core.tail <= core.head <= core.tail + core.capacity
    {
    }

    /** Hands out the oldest durable record and reclaims it. */
    method TryConsume(size: nat) returns (status: ConsumeStatus, payload: Payload, sequence: nat)
      requires Valid()
      modifies this, core`tail
      ensures Valid() && isOpen == old(isOpen)
      ensures status == (
                if !isOpen then ConsumeClosed
                else if size != config.payloadSize then ConsumeInvalidSize
                else if old(core.tail) == durable then NothingDurable
                else Consumed)
      ensures if status == Consumed then
                && old(d).tail < old(d).durable <= |d.published| && d == old(d).(tail := old(d).tail + 1)
                && payload == d.published[old(d).tail] && sequence == config.firstSequence + old(d).tail
              else d == old(d)
      ensures D.Reaches(config, core.capacity, old(d), d)
    {
      hide D.Reaches, D.Inv, WalCore.Valid;
      D.ReachesSelf(config, core.capacity, d);
      D.Frontiers(config, d);
      payload, sequence := [], 0;
      if !isOpen {
        status := ConsumeClosed;
      } else if size != config.payloadSize {
        status := ConsumeInvalidSize;
      } else if core.tail == durable {
        status := NothingDurable;
      } else {
        CoreFacts();
        var position := core.tail;
        var access := core.TryView(position);
        if access.status != ViewOk {
          assert false;
        }
        payload, sequence := access.record.payload, access.record.sequence;
        var reclaimed := core.Reclaim(position + 1);
        D.ReachesNext(config, core.capacity, d, d, D.Consume);
        D.StepKeeps(config, core.capacity, d, D.Consume);
        d := D.Do(config, core.capacity, d, D.Consume);
        status := Consumed;
      }
    }

    /** In the middle of a batch: the records before `current` are whole in the file. */
    ghost predicate Appending(first: nat, s: D.State)
      reads this, core, core.blocks, persistence, persistence.log.file
    {
      && config.alignment > 0 && persistence.log.config == config && core.payloadSize == config.payloadSize
      && core.firstSequence == config.firstSequence
      && core.Valid() && D.Inv(config, d) && Shows() && isOpen && core.isOpen && persistence.isOpen
      && !persistence.failed && d.partial == 0 && durable == first <= current && D.Reaches(config, core.capacity, s, d)
    }

    /** Appends one record of the batch. */
    method AppendNext(ghost first: nat, ghost s: D.State) returns (ok: bool)
      requires Appending(first, s) && current < core.head
      modifies this, persistence, persistence.log.file
      ensures durable == old(durable) && isOpen == old(isOpen)
      ensures if ok then Appending(first, s) && current == old(current) + 1
              else
                && Valid() && persistence.failed && D.Reaches(config, core.capacity, s, d)
                && d.durable == old(d).durable
    {
      hide D.Inv, D.Reaches, WalCore.Valid, RecordBytes;
      CoreFacts();
      D.Frontiers(config, d);
      var access := core.TryView(current);
      if access.status != ViewOk {
        assert false;
      }
      D.PayloadSizes(config, d, current);
      ghost var before := d.bytes;
      ok := persistence.Append(access.record);
      ghost var n := |File().bytes| - |before|;
      D.AppendedPart(config, core.capacity, s, d, File().bytes);
      if ok {
        current := current + 1;
        d := D.Do(config, core.capacity, d, D.Append(n));
      } else {
        if n > 0 {
          d := D.Do(config, core.capacity, d, D.Append(n));
        }
        D.ReachesNext(config, core.capacity, s, d, D.AppendFails);
        D.StepKeeps(config, core.capacity, d, D.AppendFails);
        d := D.Do(config, core.capacity, d, D.AppendFails);
      }
    }

    /** The persistence stage over the ring: appends a batch of at most `maximum` records, then
        syncs it, and only then moves the durable frontier. */
    method ProcessAvailable(maximum: nat) returns (status: SliderStatus, processed: nat)
      requires Valid() && isOpen && !persistence.failed
      modifies this, persistence, persistence.log.file
      ensures Valid() && isOpen == old(isOpen) && D.Reaches(config, core.capacity, old(d), d)
      ensures status == Processed || status == NothingToDo || status == ModuleFailed || status == PublishFailed
      ensures persistence.failed <==> status == ModuleFailed || status == PublishFailed
      ensures var count := BoundedEnd(old(durable), core.head, maximum) - old(durable);
              if persistence.failed then durable == old(durable)
              else durable == old(durable) + count && processed == count && (status == NothingToDo <==> count == 0)
    {
      hide D.Inv, D.Reaches, D.Enabled, WalCore.Valid, RecordBytes;
      processed := 0;
      D.ReachesSelf(config, core.capacity, d);
      D.Frontiers(config, d);
      CoreFacts();
      if durable != current {
        assert false;
      }
      var available := core.head;
      if available < current {
        assert false;
      }
      var end := BoundedEnd(current, available, maximum);
      if end == current {
        return NothingToDo, 0;
      }
      ghost var first, s := durable, d;
      while current < end
        invariant Appending(first, s) && current <= end <= core.head && processed == current - first
      {
        var ok := AppendNext(first, s);
        if !ok {
          return ModuleFailed, processed;
        }
        processed := processed + 1;
      }
      var published := SyncAndPublish(first, s);
      status := if published then Processed else PublishFailed;
    }

    /** Makes the appended batch durable. */
    method SyncAndPublish(ghost first: nat, ghost s: D.State) returns (ok: bool)
      requires Appending(first, s)
      modifies this, persistence, persistence.log.file
      ensures Valid() && isOpen == old(isOpen) && D.Reaches(config, core.capacity, s, d) && ok == !persistence.failed
      ensures durable == if ok then old(current) else old(durable)
    {
      hide D.Inv, D.Reaches, WalCore.Valid;
      D.Frontiers(config, d);
      ok := persistence.Sync();
      if ok {
        D.ReachesNext(config, core.capacity, s, d, D.Sync);
        D.StepKeeps(config, core.capacity, d, D.Sync);
        d := D.Do(config, core.capacity, d, D.Sync);
        D.ReachesNext(config, core.capacity, s, d, D.StoreDurable);
        D.StepKeeps(config, core.capacity, d, D.StoreDurable);
        d := D.Do(config, core.capacity, d, D.StoreDurable);
        durable := current;
      } else {
        D.ReachesNext(config, core.capacity, s, d, D.SyncFails);
        D.StepKeeps(config, core.capacity, d, D.SyncFails);
        d := D.Do(config, core.capacity, d, D.SyncFails);
      }
    }

    /** Makes up to `batch` more records durable. After a failure nothing moves any more. */
    method AdvanceDurable(batch: nat) returns (status: DurabilityStatus, frontier: nat, records: nat)
      requires Valid()
      modifies this, persistence, persistence.log.file
      ensures Valid() && isOpen == old(isOpen) && D.Reaches(config, core.capacity, old(d), d)
      ensures status == if !isOpen then DurabilityClosed else if persistence.failed then DurabilityIoError else Durable
      ensures frontier == durable && (old(persistence.failed) ==> persistence.failed)
      ensures var count := if status == Durable then BoundedEnd(old(durable), core.head, batch) - old(durable) else 0;
              records == count && durable == old(durable) + count
    {
      hide D.Inv, D.Reaches, WalCore.Valid;
      D.ReachesSelf(config, core.capacity, d);
      if !isOpen {
        return DurabilityClosed, durable, 0;
      }
      if persistence.failed {
        return DurabilityIoError, durable, 0;
      }
      ghost var before := durable;
      var result, processed := ProcessAvailable(batch);
      if result == Processed || result == NothingToDo {
        return Durable, durable, processed;
      }
      return DurabilityIoError, durable, 0;
    }

    /** Closes once everything durable is consumed, and everything published is durable unless
        persistence has failed. `closes` says whether the log file can be closed. */
    method Close(closes: bool) returns (status: CloseStatus)
      requires Valid()
      modifies `isOpen, core`isOpen, persistence`isOpen
      ensures Valid() && d == old(d)
      ensures status == (
                if !old(isOpen) then AlreadyClosed
                else if core.tail != durable then PendingConsumption
                else if !persistence.failed && durable != core.head then PendingDurability
                else if !closes || persistence.failed then CloseIoError
                else if core.sequenceExhausted then ClosedExhausted
                else Closed)
      ensures isOpen == (status == PendingConsumption || status == PendingDurability)
    {
      hide D.Inv;
      if !isOpen {
        return AlreadyClosed;
      }
      if core.tail != durable {
        return PendingConsumption;
      }
      if !persistence.failed && durable != core.head {
        return PendingDurability;
      }
      isOpen := false;
      persistence.isOpen := false;
      core.Close();
      status := if !closes || persistence.failed then CloseIoError else if core.sequenceExhausted then ClosedExhausted
        else Closed;
    }
  }

  lemma ReaderConfig(c: Config, capacity: nat)
    requires ValidConfig(c, capacity)
    ensures ValidConfig(c, 1)
  {
    hide AlignUp, PowerOfTwo;
    var stride := AlignUp(c.payloadSize, c.alignment);
    assert stride * 1 <= stride * capacity;
  }
}
