/** The retained ring of payloads: a producer at the head, readers between tail and head, and a
    reclaimer at the tail. */
module WalCores {
  import opened ByteWords
  import opened Modular
  import opened Sequences

  type Payload = seq<Byte>


  datatype PublishStatus = Published | Full | InvalidPayloadSize | SequenceExhausted | PublishIoError | PublishClosed

  datatype ViewStatus = ViewOk | ViewClosed | Reclaimed | Unpublished

  datatype RecordView = RecordView(position: nat, sequence: nat, payload: Payload)

  datatype Access = Access(status: ViewStatus, record: RecordView)

  datatype ReclaimStatus = ReclaimOk | ReclaimClosed | InvalidPosition

  const NO_RECORD := RecordView(0, 0, [])

  class WalCore {
    const capacity: nat
    const payloadSize: nat
    const firstSequence: nat
    const blocks: array<Payload>
    var headSlot: nat
    var head: nat
    var tail: nat
    var sequenceExhausted: bool
    var isOpen: bool
    ghost var published: seq<Payload>

    /** Everything published and not reclaimed is in its slot. */
    ghost predicate Valid()
      reads this, blocks
    {
      && blocks.Length == capacity > 0 && 0 < firstSequence && tail <= head <= tail + capacity
      && headSlot == head % capacity && |published| == head && firstSequence + head <= MAX_SEQUENCE + 1
      && (forall p :: 0 <= p < head ==> |published[p]| == payloadSize)
      && Retained(blocks[..], published, tail, head)
    }

    /** A configuration with a zero size, capacity or sequence is refused before this. */
    constructor (payloadSize: nat, capacity: nat, firstSequence: nat)
      requires payloadSize > 0 && capacity > 0 && 0 < firstSequence <= MAX_SEQUENCE
      ensures Valid() && isOpen && published == [] && tail == 0 && fresh(blocks) && !sequenceExhausted
      ensures this.payloadSize == payloadSize && this.capacity == capacity && this.firstSequence == firstSequence
    {
      this.payloadSize, this.capacity, this.firstSequence := payloadSize, capacity, firstSequence;
      blocks := new Payload[capacity](_ => []);
      headSlot, head, tail := 0, 0, 0;
      sequenceExhausted, isOpen, published := false, true, [];
    }

    method TryPublish(payload: Payload) returns (status: PublishStatus, sequence: nat)
      requires Valid()
      modifies this, blocks
      ensures Valid() && isOpen == old(isOpen) && tail == old(tail)
      ensures status == (
                if !isOpen then PublishClosed
                else if |payload| != payloadSize then InvalidPayloadSize
                else if old(sequenceExhausted) then SequenceExhausted
                else if old(head) - tail == capacity then Full
                else if firstSequence + old(head) > MAX_SEQUENCE then SequenceExhausted
                else Published)
      ensures if status == Published
        then published == old(published) + [payload] && sequence == firstSequence + old(head)
              else published == old(published)
      ensures sequenceExhausted == (old(sequenceExhausted) || (status == SequenceExhausted && isOpen))
    {
      sequence := 0;
      if !isOpen {
        status := PublishClosed;
      } else if |payload| != payloadSize {
        status := InvalidPayloadSize;
      } else if sequenceExhausted {
        status := SequenceExhausted;
      } else if head - tail == capacity {
        status := Full;
      } else if head > MAX_SEQUENCE - firstSequence {
        sequenceExhausted := true;
        status := SequenceExhausted;
      } else {
        ghost var before := blocks[..];
        blocks[headSlot] := payload;
        PublishKeepsRetained(before, published, tail, head, payload);
        headSlot := NextSlot(headSlot);
        sequence := firstSequence + head;
        head := head + 1;
        published := published + [payload];
        status := Published;
      }
    }

    /** The slot after `slot`, which is also that of the position after. */
    method NextSlot(slot: nat) returns (next: nat)
      requires capacity > 0 && slot == head % capacity
      ensures next == (head + 1) % capacity
    {
      NextSlotIs(head, capacity);
      next := slot + 1;
      if next == capacity {
        next := 0;
      }
    }

    /** A read-only view of a retained position. */
    method TryView(position: nat) returns (access: Access)
      requires Valid()
      ensures access.status == (
                if !isOpen then ViewClosed
                else if position < tail then Reclaimed
                else if position >= head then Unpublished
                else ViewOk)
      ensures access.status == ViewOk ==>
        position < |published| && access.record == RecordView(position, firstSequence + position, published[position])
    {
      if !isOpen {
        access := Access(ViewClosed, NO_RECORD);
      } else if position < tail {
        access := Access(Reclaimed, NO_RECORD);
      } else if position >= head {
        access := Access(Unpublished, NO_RECORD);
      } else {
        access := Access(ViewOk, RecordView(position, firstSequence + position, blocks[position % capacity]));
      }
    }

    method Reclaim(end: nat) returns (status: ReclaimStatus)
      requires Valid()
      modifies `tail
      ensures Valid()
      ensures status == if !isOpen then ReclaimClosed else if end < old(tail) || end > head then InvalidPosition
        else ReclaimOk
      ensures tail == if status == ReclaimOk then end else old(tail)
    {
      if !isOpen {
        status := ReclaimClosed;
      } else if end < tail || end > head {
        status := InvalidPosition;
      } else {
        tail := end;
        status := ReclaimOk;
      }
    }

    method Close()
      requires Valid()
      modifies `isOpen
      ensures Valid() && !isOpen
    {
      isOpen := false;
    }
  }

  ghost predicate Retained(blocks: seq<Payload>, published: seq<Payload>, tail: nat, head: nat) {
    |blocks| > 0 && head == |published| && forall p :: tail <= p < head ==> blocks[p % |blocks|] == published[p]
  }

  lemma PublishKeepsRetained(blocks: seq<Payload>, published: seq<Payload>, tail: nat, head: nat, payload: Payload)
    requires Retained(blocks, published, tail, head) && tail <= head < tail + |blocks|
    ensures Retained(blocks[head % |blocks| := payload], published + [payload], tail, head + 1)
  {
    var blocks' := blocks[head % |blocks| := payload];
    forall p | tail <= p < head + 1
      ensures blocks'[p % |blocks'|] == (published + [payload])[p]
    {
      if p < head {
        DistinctSlots(p, head, |blocks|);
      }
    }
  }
}
