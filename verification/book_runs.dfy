/** Whole runs of the book against the reference book. */
module BookRuns {
  import opened BookTypes
  import R = ReferenceBooks
  import Q = BookQueues
  import OrderBooks

  datatype Operation =
    | Insert(order: OrderView)
    | Erase(id: OrderId)
    | SetRemaining(id: OrderId, remaining: Quantity)
    | Clear
    | Restore(orders: seq<OrderView>)
    | Best(side: Side)
    | Snapshot(size: nat)
    | OrderCount

  datatype Reply =
    | Inserted(status: InsertStatus)
    | ErasedAs(erased: EraseResult)
    | SetAs(set_: SetResult)
    | Cleared
    | RestoredAs(restored: RestoreStatus, count: nat)
    | BestIs(best: Option<OrderView>)
    | SnapshotIs(ok: bool, image: seq<OrderView>)
    | CountIs(orderCount: nat)

  /** What the reference book answers, and the reference book afterwards. */
  ghost function Reference(b: R.Book, op: Operation): (Reply, R.Book) {
    match op
    case Insert(order) => (Inserted(R.InsertStatusOf(b, order)), R.Insert(b, order))
    case Erase(id) => (ErasedAs(R.EraseResultOf(b, id)), R.Erase(b, id))
    case SetRemaining(id, remaining) => (SetAs(R.SetResultOf(b, id, remaining)), R.SetRemaining(b, id, remaining))
    case Clear => (Cleared, R.Empty(b.config))
    case Restore(orders) => (RestoredAs(Q.Restore(b, orders).0, Q.Restore(b, orders).1), Q.Restore(b, orders).2)
    case Best(side) => (BestIs(R.Best(b, side)), b)
    case Snapshot(size) =>
      (if size >= |b.byId| then SnapshotIs(true, Q.Snapshot(b)) else SnapshotIs(false, []), b)
    case OrderCount => (CountIs(|b.byId|), b)
  }

  ghost function ReferenceRun(b: R.Book, ops: seq<Operation>): (seq<Reply>, R.Book)
    decreases |ops|
  {
    if ops == [] then ([], b)
    else
      var (reply, b1) := Reference(b, ops[0]);
      var (replies, b2) := ReferenceRun(b1, ops[1..]);
      ([reply] + replies, b2)
  }

  /** An insert, erase or update that is refused changes nothing. */
  lemma RefusedChangesNothing(b: R.Book, op: Operation)
    ensures var (reply, b') := Reference(b, op);
      match op
      case Insert(_) => reply.status != InsertOk ==> b' == b
      case Erase(_) => reply.erased == EraseNotFound ==> b' == b
      case SetRemaining(_, _) => !reply.set_.SetOk? ==> b' == b
      case _ => true
  {
    hide R.Best, Q.Restore, Q.Snapshot;
  }

  /** One operation on a book. */
  method Apply(book: OrderBooks.OrderBook, op: Operation) returns (reply: Reply)
    requires book.Valid()
    modifies book.Repr()
    ensures book.Valid() && (reply, book.model) == Reference(old(book.model), op)
  {
    hide OrderBooks.OrderBook.Valid, R.Best, Q.Restore, Q.Snapshot, R.Insert, R.Erase, R.SetRemaining;
    match op
    case Insert(order) =>
      var status := book.Insert(order);
      reply := Inserted(status);
    case Erase(id) =>
      var erased := book.Erase(id);
      reply := ErasedAs(erased);
    case SetRemaining(id, remaining) =>
      var result := book.SetRemaining(id, remaining);
      reply := SetAs(result);
    case Clear =>
      ModelConfig(book);
      book.Clear();
      reply := Cleared;
    case Restore(orders) =>
      var status, count := book.Restore(orders);
      reply := RestoredAs(status, count);
    case Best(side) =>
      var best := book.Best(side);
      reply := BestIs(best);
    case Snapshot(size) =>
      var ok, image := Image(book, size);
      reply := SnapshotIs(ok, image);
    case OrderCount =>
      var count := book.OrderCount();
      reply := CountIs(count);
  }

  /** The image in a buffer of `size` orders. */
  method Image(book: OrderBooks.OrderBook, size: nat) returns (ok: bool, image: seq<OrderView>)
    requires book.Valid()
    ensures ok == (size >= |book.model.byId|) && image == if ok then Q.Snapshot(book.model) else []
  {
    hide OrderBooks.OrderBook.Valid, Q.Snapshot;
    assert forall x :: x in book.Repr() ==> allocated(x);
    var out := new OrderView[size](_ => OrderView(0, 0, Bid, 0, 0));
    var copied;
    ok, copied := book.SnapshotInto(out);
    image := out[..copied];
  }

  lemma ModelConfig(book: OrderBooks.OrderBook)
    requires book.Valid()
    ensures book.model.config == book.config
  {
    book.ConfigOf();
  }

  /** For every configuration, hash and sequence of operations, a new book answers each of them
      exactly as the reference book does. */
  method RunFromEmpty(config: Config, hash: OrderId -> nat, ops: seq<Operation>) returns (replies: seq<Reply>)
    requires config.maxOrders <= MAX_CAPACITY
    ensures replies == ReferenceRun(R.Empty(config), ops).0
  {
    hide OrderBooks.OrderBook.Valid, Reference;
    var book := new OrderBooks.OrderBook(config, hash);
    ghost var whole := ReferenceRun(R.Empty(config), ops);
    replies := [];
    assert ops[0..] == ops && replies + whole.0 == whole.0;
    for i := 0 to |ops|
      invariant book.Valid() && fresh(book.Repr())
      invariant replies + ReferenceRun(book.model, ops[i..]).0 == whole.0
    {
      assert ops[i..][0] == ops[i] && ops[i..][1..] == ops[i + 1..];
      var reply := Apply(book, ops[i]);
      ghost var rest := ReferenceRun(book.model, ops[i + 1..]).0;
      assert replies + ([reply] + rest) == (replies + [reply]) + rest;
      replies := replies + [reply];
    }
  }
}
