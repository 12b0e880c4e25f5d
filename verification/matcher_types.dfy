/** Commands, events and snapshot images of the matcher. */
module MatcherTypes {
  import opened BookTypes

  /** The incoming order of a `NewLimit` carries its quantity as `remaining`. */
  datatype Command =
    | NoCommand
    | Unrecognized
    | NewLimit(order: OrderView)
    | SaveSnapshot
    | LoadSnapshot(saveSequence: nat, epoch: nat)
    | Shutdown
    | StartReplay
    | StopReplay

  datatype CommandEnvelope = CommandEnvelope(sequence: nat, client: nat, command: Command)

  datatype RejectReason = NoReject | RejectInvalidQuantity | RejectBookInsertFailed | RejectUnknownCommand

  datatype FatalReason =
    | NoFatal
    | CommandReaderFatal
    | EventWriterFatal
    | CommandProducedNoEvent
    | NonMonotonicOrderId
    | BookEraseFailedAfterExecution
    | BookUpdateFailedAfterExecution
    | BookInsertFailedAfterExecution
    | SnapshotCaptureFailed
    | SnapshotLoadUnavailable
    | SnapshotLoadInvalid

  datatype Event =
    | OrderAccepted(id: OrderId)
    | OrderRejected(id: OrderId, reject: RejectReason)
    | Trade(taker: OrderId, maker: OrderId, takerOwner: OwnerId, makerOwner: OwnerId, price: PriceTick,
        quantity: Quantity)
    | OrderRested(rested: OrderView)
    | OrderDone(id: OrderId)
    | SnapshotSaved
    | SnapshotLoaded(saveSequence: nat, epoch: nat)
    | ShutDown
    | MatcherFatal(reason: FatalReason, offending: OrderId, lastOrderId: OrderId)
    | ReplayStarted
    | ReplayStopped

  datatype EventEnvelope =
    EventEnvelope(sequence: nat, client: nat, commandSequence: nat, index: nat, isLast: bool, payload: Event)

  datatype Mode = Live | Replay | Restoring

  datatype ProcessStatus = Continue | Stop | Fatal

  datatype RunStatus = Stopped | RunFatal | StillRunning

  datatype SnapshotStatus = SnapshotOk | Unavailable | InvalidSnapshot | SnapshotCapacityExceeded | SnapshotFatal

  datatype Image =
    Image(saveSequence: nat, epoch: nat, lastOrderId: OrderId, nextEvent: nat, config: Config, orders: seq<OrderView>)

  /** What the snapshot store answers to the command being processed. */
  datatype StoreReply = StoreReply(captured: SnapshotStatus, loaded: SnapshotStatus, image: Image)
}
