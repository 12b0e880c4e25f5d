/** Scalars and result values of the resting-order book. */
module BookTypes {

  type OrderId = nat
  type OwnerId = nat
  type PriceTick = p: nat | p < 0x1_0000_0000
  type Quantity = q: nat | q < 0x1_0000_0000

  /** The sentinel of every slot index: the end of a list, or "no slot". */
  const INVALID: nat := 0xFFFF_FFFF

  /** The largest pool: one below the sentinel. */
  const MAX_CAPACITY: nat := 0xFFFF_FFFE

  function Min(x: int, y: int): int {
    if y < x then y else x
  }

  ghost predicate NoRepeats(s: seq<nat>) {
    forall i, j :: 0 <= i < j < |s| ==> s[i] != s[j]
  }

  datatype Option<+T> = None | Some(value: T)

  datatype Side = Bid | Ask

  function Opposite(side: Side): Side {
    if side == Bid then Ask else Bid
  }

  datatype Config = Config(minPrice: PriceTick, maxPrice: PriceTick, maxOrders: nat)
  {
    predicate InRange(price: PriceTick) {
      minPrice <= price <= maxPrice
    }
  }

  /** A resting order as the book hands it out and as a snapshot stores it. */
  datatype OrderView = OrderView(id: OrderId, owner: OwnerId, side: Side, price: PriceTick, remaining: Quantity)

  datatype InsertStatus = InsertOk | DuplicateOrderId | CapacityExhausted | PriceOutOfRange | InvalidQuantity

  datatype EraseResult = Erased(removed: OrderView) | EraseNotFound

  datatype SetResult = SetOk(previous: Quantity) | SetNotFound | SetInvalidQuantity

  datatype RestoreStatus = RestoreOk | RestoreDuplicate | RestoreCapacityExceeded | RestorePriceOutOfRange
      | RestoreInvalidQuantity
}
