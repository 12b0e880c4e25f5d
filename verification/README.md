# A verified model of the exchange core

A Dafny model of four connected parts of the exchange, with proofs of what they promise: the
fixed-capacity order book, the matcher on top of it, the two ring transports, and the write-ahead
log. `dafny verify dfyconfig.toml` checks everything.

Where the program changes state in place, so does the model: classes with arrays and fields, and
methods with the program's loops and branches. Each method is proved against a specification
function, and the theorems are about those functions and about all runs built from them.

- **Order book.** `OrderIdIndexes` is the open-addressing index with backward-shift deletion, for an
  arbitrary hash. Its invariant is a cut: some position of the circular table that no probe path
  crosses, which also covers a full table. `OrderPools` is the slot pool with its freelist, `SideBooks` one
  side with intrusive FIFOs, level masks, the segment bitmap and the cached best segment. `OrderBooks`
  is the facade. It refines `ReferenceBooks`, the map from price to a FIFO of ids that the program's own
  tests use as the reference (`exchange/order_book/tests/reference_order_book.hpp`). `BookQueues`
  and `BookSnapshots` give the price-time queue and the canonical image; `BookLaws` says what the
  answers of the book mean in terms of the orders it holds, and `BookValidation` is
  `validate_invariants`.
- **Matcher.** `Matchers` is the class: event batch with one event held back, the greedy loop, sticky
  fatal states, replay modes with deferred cursor changes. `MatcherSpec` says what one command
  does, `Matching` has the closed form of the loop, `MatcherEvents` reads the published events
  against the price-time queue, `MatcherLaws` and `ReplayLaws` have the theorems about runs. The snapshot store and the event writer are parameters: what the store answers, and
  which attempts the writer accepts.
- **Transports.** `CommandRing` is the command pipeline as a system of five roles whose steps are
  single memory accesses with possibly stale reads; `CommandPipelines` is the class, each call
  of which is a schedule of those steps. `WalCores` is the retained ring, `WalChain` any number of
  chained one-position sliders over it, `Sliders` the checks a slider makes on entry.
  `CaptureGenerations` and `CaptureModules` are the snapshot demonstration: two stateful modules with
  one capture slot each, and their coordinator; `CaptureLaws` says what they compute.
- **Log.** `WalFormat`, `WalLog` and `WalScan` give the bytes and what reading makes of them,
  `Crc32` and `Crc32Laws` the checksum, `WalIo` the writer, reader, scanner and recovery step by step,
  `WalRecovery` the theorems on whole, cut and damaged logs (`FieldDamage` finds the damaged field),
  `WalScanBounds` those on any other bytes and the layout of a log, `Wals` the facade and `WalDurability`
  durability through crashes. `Codecs` and `CodecIo` are the payload codecs, `CodecLayout` their bytes
  (written with `Pieces`). `WalReplay`, `WalReplayLaws` and
  `WalReplayIo` replay a recorded command log into the pipeline and compare the replayed events with
  a recorded event log.

Identifiers, positions and sequences are natural numbers; prices, quantities and slots have their
32-bit range, and words of bitmaps their 64 bits. Sequence exhaustion is modelled where the
program checks it. A file is its bytes and the length that is synced; how far a write gets and whether a
sync succeeds is arbitrary.

One place where the program and its documentation differ: `exchange/matcher/WAL_PAYLOAD_FORMAT.md`
lines 32-33 and 65 describe body fields of StartReplay, StopReplay and SaveSnapshot that
`exchange/matcher/src/codec.cpp` (lines 91-92 and 344-350) does not write. The model follows the code.

One promise of the pipeline fails, and the model shows where. `publish_risk` and `publish_reserve`
(`exchange/matcher/src/command_pipeline.cpp` lines 217-218 and 260-263) read the command from their
slot after they have stored their frontier, when the stages behind them may already have released it
to the producer. `LateReads.TakenOverBeforeRead` is a schedule in which the call returns the sequence
of another command. `CommandRing.LateRead` says exactly when that happens, and
`CommandRing.UnconsumedIsIntact` gives a guard that excludes it. Nothing else depends on that
read: order, results and durability hold in every schedule (`CommandRing.RunIsSafe`). The sequence that
the methods `PublishRisk` and `PublishReserve` return is proved for calls that are not interrupted.

Two more results are conditions rather than plain promises. A partly executed order can fail to rest:
exactly when its limit price is out of range (`Matching.PartlyExecutedRests`,
`MatcherLaws.FatalCauses`; an input is in `MatcherLaws.RestsOutOfRange`). The modes of persistence and
matcher can part: exactly at a start with the largest sequence (`ReplayLaws.LargestStartParts`), or at a
restoring load that passes the checks of only one of them (`ReplayLaws.ModesStayTogether`).

## Model

| member | source | states |
|---|---|---|
| OrderIdIndexes.OrderIdIndex.BucketCountFor | exchange/order_book/include/fexma/order_book/order_id_index.hpp:205-213 | The bucket count is the smallest power of two above twice the capacity, and 1 for capacity 0. |
| OrderIdIndexes.OrderIdIndex.constructor | exchange/order_book/include/fexma/order_book/order_id_index.hpp:46-51 | A new index, for any hash function, is valid, maps nothing, and has more buckets than ids can be stored. |
| OrderIdIndexes.OrderIdIndex.Clear | exchange/order_book/include/fexma/order_book/order_id_index.hpp:58-63 | Clearing leaves a valid index that maps nothing. |
| OrderIdIndexes.OrderIdIndex.Find | exchange/order_book/include/fexma/order_book/order_id_index.hpp:69-88 | The probe loop returns the slot the finite map holds for the id, or the invalid slot; for any hash, wrapped clusters and a full table included. |
| OrderIdIndexes.OrderIdIndex.Insert | exchange/order_book/include/fexma/order_book/order_id_index.hpp:94-118 | Duplicate exactly when the id is mapped, otherwise Full exactly when every bucket is taken, otherwise Ok; only Ok changes the map, by this one entry. |
| OrderIdIndexes.OrderIdIndex.EraseAndGet | exchange/order_book/include/fexma/order_book/order_id_index.hpp:132-154 | Returns what `Find` would and removes exactly that entry from the map. |
| OrderIdIndexes.OrderIdIndex.EraseAt | exchange/order_book/include/fexma/order_book/order_id_index.hpp:235-265 | The backward-shift repair, whatever the cluster and wherever it wraps, loses and duplicates nothing: the map afterwards lacks exactly the erased id, and every probe path is intact again. |
| OrderIdIndexes.ShiftKeepsPlaces | exchange/order_book/include/fexma/order_book/order_id_index.hpp:246-259 | The shift condition is right: moving a candidate whose home lies at or before the hole, and only the hole moving with it, keeps every other entry reachable. |
| OrderIdIndexes.AbsentAtEmpty | exchange/order_book/include/fexma/order_book/order_id_index.hpp:76-84 | Meeting an empty bucket on the probe path of an id proves the id is not in the map. |
| OrderPools.OrderPool.Create | exchange/order_book/include/fexma/order_book/detail/order_pool.hpp:270-275 | Exactly the capacities up to 2^32 - 2 are accepted. |
| OrderPools.OrderPool.InitializeFreelist | exchange/order_book/include/fexma/order_book/detail/order_pool.hpp:233-245 | The freelist threads every slot once, none in use. |
| OrderPools.OrderPool.Emplace | exchange/order_book/include/fexma/order_book/detail/order_pool.hpp:105-122 | Fails exactly when no slot is free and then changes nothing; otherwise takes a slot that was not in use and writes only that one, with cleared links. |
| OrderPools.OrderPool.Release | exchange/order_book/include/fexma/order_book/detail/order_pool.hpp:124-143 | Returns a slot in use to the freelist and changes nothing else; ignores any other slot. |
| OrderPools.OrderPool.ValidateFreelist | exchange/order_book/include/fexma/order_book/detail/order_pool.hpp:163-205 | Answers true if and only if the links form an acyclic list of exactly the counted free slots; a cyclic or short list is rejected. |
| SideBooks.SideBook.Append | exchange/order_book/include/fexma/order_book/side_book.hpp:68-95 | Adds the slot behind its price level and nowhere else; masks, bitmap, cached best, counts and totals agree with the FIFOs again; no other order, no visible field of any order, changes. |
| SideBooks.SideBook.Remove | exchange/order_book/include/fexma/order_book/side_book.hpp:97-136 | Takes the slot out of its FIFO, keeping the order of the others; afterwards it is on no level, and masks, bitmap, cached best, counts and totals agree again. |
| SideBooks.SideBook.SetRemaining | exchange/order_book/include/fexma/order_book/side_book.hpp:138-154 | Changes one remaining quantity in place: FIFOs keep their order and the totals move by the difference. |
| SideBooks.SideBook.BestOrder | exchange/order_book/include/fexma/order_book/side_book.hpp:156-162 | Invalid exactly when no level has orders; otherwise the oldest order of the best level, lowest ask or highest bid. |
| SideBooks.SideBook.BestPrice | exchange/order_book/include/fexma/order_book/side_book.hpp:164-173 | The price of the best occupied level, and 0 for an empty side. |
| SideBooks.BestOffset | exchange/order_book/include/fexma/order_book/price_segment.hpp:29-37 | The lowest set bit of the mask for asks, the highest for bids. |
| SideBooks.SideBook.UpdateBestAfterInsert | exchange/order_book/include/fexma/order_book/side_book.hpp:244-259 | The cached best segment becomes the better of itself and the segment inserted into. |
| SideBooks.SideBook.FirstOccupiedSegment | exchange/order_book/include/fexma/order_book/side_book.hpp:290-300 | Finds the lowest occupied segment across all bitmap words, or that there is none. |
| SideBooks.SideBook.LastOccupiedSegment | exchange/order_book/include/fexma/order_book/side_book.hpp:302-312 | Finds the highest occupied segment across all bitmap words, or that there is none. |
| PriceLevels.BestBitIsBestLevel | exchange/order_book/include/fexma/order_book/side_book.hpp:156-173 | If masks and cached best agree with the FIFOs, the best bit of the best segment is the best level of the whole side. |
| OrderBooks.OrderBook.constructor | exchange/order_book/src/order_book.cpp:16-21 | A new book represents the empty reference book. |
| OrderBooks.OrderBook.Insert | exchange/order_book/src/order_book.cpp:23-53 | One if and only if per status, over the ids held, their number and the configuration: zero quantity first, then a price out of range, then a known id, then a full book, and otherwise Ok. Ok adds exactly this order, and the book then represents the reference book after that insert; a refused insert changes nothing visible. |
| OrderBooks.OrderBook.Best | exchange/order_book/src/order_book.cpp:55-62 | The order the reference book calls best. |
| OrderBooks.OrderBook.Erase | exchange/order_book/src/order_book.cpp:64-71 | Not found exactly when the id is not held; otherwise the order comes back as it is and exactly it is taken out. The book afterwards is the reference one. |
| OrderBooks.OrderBook.SetRemaining | exchange/order_book/src/order_book.cpp:73-93 | A zero quantity is refused first, then an unknown id; otherwise the previous quantity is returned and exactly this quantity changes. The book afterwards is the reference one. |
| OrderBooks.OrderBook.Clear | exchange/order_book/src/order_book.cpp:95-100 | The book represents the empty reference book again. |
| OrderBooks.OrderBook.SnapshotInto | exchange/order_book/src/order_book.cpp:102-114 | Refused, with the buffer untouched, exactly when the buffer is too small; otherwise the buffer starts with the canonical image: bids then asks, each by ascending price, oldest first. |
| OrderBooks.OrderBook.SnapshotSideInto | exchange/order_book/src/order_book.cpp:228-246 | Writes one side of the image behind what was copied before, and nothing else. |
| OrderBooks.OrderBook.Restore | exchange/order_book/src/order_book.cpp:116-145 | Status, number of restored orders and resulting book are those of the reference: an image larger than the capacity is refused and leaves the book alone; otherwise the book is cleared and filled in order, and a refused order leaves the orders inserted before it. |
| OrderBooks.OrderBook.OrderCount | exchange/order_book/src/order_book.cpp:147-149 | The number of orders of the reference book, which is the length of its image. |
| OrderBooks.OrderBook.RemoveActiveOrder | exchange/order_book/src/order_book.cpp:257-268 | Unlinking and releasing an active slot is the reference erase of its id and returns the order as it was. |
| BookRefinement.RestRepresents | exchange/order_book/src/order_book.cpp:23-53 | The refinement step of insertion: filling a free slot and appending it to its level represents the reference book with that order at the end of its price. |
| BookRefinement.EraseRepresents | exchange/order_book/src/order_book.cpp:257-268 | The refinement step of removal, for the index map and both sides together. |
| BookRefinement.BestIsBestKey | exchange/order_book/tests/reference_order_book.hpp:106-118 | The best level of the slot FIFOs is the best key of the reference map. |
| BookRuns.RunFromEmpty | exchange/order_book/src/order_book.cpp:23-149 | For every sequence of insert, best, erase, set_remaining, clear, restore, snapshot and order_count from construction, with any hash: every reply equals the reference book's. |
| BookRuns.RefusedChangesNothing | exchange/order_book/src/order_book.cpp:23-93 | A refused insert, erase or set_remaining leaves the reference book, and so the book, as it was. |
| BookLaws.DuplicateUntilErased | exchange/order_book/src/order_book.cpp:23-53 | Over runs: once an order was inserted, and until its id is erased, the book cleared or an image restored, every further insert of the id with positive quantity and price in range is a duplicate. |
| BookLaws.ErasedIsNoDuplicate | exchange/order_book/src/order_book.cpp:23-71 | After an erase of an id, inserting it is never a duplicate. |
| BookLaws.RoomIsGiven | exchange/order_book/src/order_book.cpp:31-46 | A new id with positive quantity and price in range is taken if and only if fewer orders rest than the capacity; otherwise the capacity is exhausted. |
| BookLaws.EraseUndoesInsert | exchange/order_book/src/order_book.cpp:23-71 | Inserting and erasing an order gives back the order as it was inserted and the book as it was before, queue positions included. |
| BookLaws.SetIsUndone | exchange/order_book/src/order_book.cpp:64-93 | An update reports the previous quantity, setting that again restores the book, and an erase in between returns the order with the new quantity. |
| BookLaws.SetRefusals | exchange/order_book/src/order_book.cpp:64-93 | Exactly when an update or an erase is refused, and as what. |
| BookLaws.FirstDefectDecides | exchange/order_book/src/order_book.cpp:116-145 | An image that is too large is refused as a whole. Otherwise its first order with a zero quantity, a price out of range or an id used before decides the status; the count is the place of that order, and the book then holds exactly the orders before it. |
| BookLaws.ImageOrder | exchange/order_book/src/order_book.cpp:102-114 | An image is a block of bids and then a block of asks, each with prices that never fall. |
| BookSnapshots.SnapshotIds | exchange/order_book/src/order_book.cpp:102-114 | An image holds exactly the ids of the book. |
| BookSnapshots.SelectSnapshot | exchange/order_book/src/order_book.cpp:228-246 | Reading one price back out of an image gives its FIFO, oldest first. |
| BookSnapshots.RestoreSnapshot | exchange/order_book/src/order_book.cpp:102-145 | Round trip: restoring an image into any book of the same configuration succeeds and yields the very book it was taken from, whatever the slot layouts. |
| BookQueues.BestIsFirst | exchange/order_book/tests/reference_order_book.hpp:106-118 | The best order is the head of the price-time queue. |
| BookQueues.RestoresExactly | exchange/order_book/src/order_book.cpp:116-145 | Restoring succeeds if and only if the image has no more orders than the capacity, distinct ids, positive quantities and prices in range. |
| BookValidation.ValidateInvariants | exchange/order_book/src/order_book.cpp:151-221 | Returns true on every valid book, none of the branches that return false being reachable; every public operation keeps books valid, so it does in every reachable state. |
| BookValidation.ValidateSide | exchange/order_book/src/order_book.cpp:270-399 | Returns true on every valid side: links, totals, masks, bitmap and cached best pass all its comparisons. |
| BookValidation.SlotHasOnePlace | exchange/order_book/src/order_book.cpp:151-221 | Each slot is on exactly one place: in use, on exactly one level of one side and indexed by its id; otherwise on the freelist and on no level. |
| BookValidation.TotalsAreExact | exchange/order_book/src/order_book.cpp:270-399 | Every level's count and total quantity are the exact ones of its FIFO. |
| BookValidation.TotalsFit | exchange/order_book/src/order_book.cpp:270-399 | A side's total is the sum of its levels' and cannot overflow 64 bits. |
| Matching.FillsClosedForm | exchange/matcher/include/fexma/matcher/matcher.hpp:306-395 | Closed form of the greedy loop: it consumes a prefix of the opposite price-time queue, every maker filled but possibly the last, at maker prices, for min(quantity, crossing quantity) in total. |
| Matching.MatchingConserves | exchange/matcher/include/fexma/matcher/matcher.hpp:306-395 | Traded plus unfilled quantity is the incoming quantity; unfilled quantity remains only when everything that crosses has traded. |
| Matching.ApplyFillsQueues | exchange/matcher/include/fexma/matcher/matcher.hpp:326-365 | After matching, the opposite queue lacks exactly the consumed prefix, with the last maker reduced; the own side is untouched and the book well formed. |
| Matching.MatchStep | exchange/matcher/include/fexma/matcher/matcher.hpp:326-365 | One iteration moves the loop along the closed form, and the erase or update of the best maker succeeds. |
| Matching.MatchEnd | exchange/matcher/include/fexma/matcher/matcher.hpp:326-365 | When the loop stops, the fills, the book and the remaining quantity are those of the closed form. |
| Matching.PartlyExecutedRests | exchange/matcher/include/fexma/matcher/matcher.hpp:373-395 | A partly executed order fails to rest exactly when its limit price is out of range: never for lack of capacity, a duplicate id or a zero quantity. |
| Matching.OrderKeepsUncrossed | exchange/matcher/include/fexma/matcher/matcher.hpp:306-406 | An uncrossed book is uncrossed after matching and after the rest of the order is inserted. |
| QueueEffects.QueueAfterRest | exchange/order_book/src/order_book.cpp:23-53 | Inserting puts the order at one place of its side's price-time queue and leaves both the others' order and the opposite queue alone. |
| QueueEffects.QueueAfterEraseBest | exchange/order_book/src/order_book.cpp:64-71 | Erasing the best order drops the head of its queue and nothing else. |
| QueueEffects.QueueAfterSetBest | exchange/order_book/src/order_book.cpp:73-93 | Reducing the best order keeps its place at the head. |
| Matchers.CommandEventBatch.Add | exchange/matcher/include/fexma/matcher/matcher.hpp:199-209 | Holds the new event back and publishes the previous one as not final; after a writer failure nothing more is accepted. |
| Matchers.CommandEventBatch.Finish | exchange/matcher/include/fexma/matcher/matcher.hpp:211-213 | On success the writer's log has grown by all events of the command, indexed from 0, only the last final, with consecutive sequences. |
| Matchers.CommandEventBatch.PublishPending | exchange/matcher/include/fexma/matcher/matcher.hpp:223-233 | Publishes the held event with the next index and sequence; the log is then exactly the envelopes so far. |
| Matchers.Matcher.Match | exchange/matcher/include/fexma/matcher/matcher.hpp:326-365 | The loop terminates; if the writer accepts, events, book and remaining quantity are those of the closed form, and otherwise the accepted events are a prefix of them. |
| Matchers.Matcher.ProcessNewLimit | exchange/matcher/include/fexma/matcher/matcher.hpp:306-395 | Accepts, matches, rests or rejects as specified, with the fatal cases of the id order and of resting; the erase-failed and update-failed branches are unreachable. |
| Matchers.Matcher.ProcessSaveSnapshot | exchange/matcher/include/fexma/matcher/matcher.hpp:244-262 | Hands the store the canonical image of the present book, last id and event cursor, and is fatal exactly when the capture fails. |
| Matchers.Matcher.ProcessLoadSnapshot | exchange/matcher/include/fexma/matcher/matcher.hpp:264-304 | Adopts an image that fits (configuration, save sequence, epoch) and restores; every other answer of the store is fatal with its own reason. |
| Matchers.Matcher.ApplyDeferredReplayTransition | exchange/matcher/include/fexma/matcher/matcher.hpp:443-457 | Mode, resume point and event cursor change only after the command's last event. |
| Matchers.Matcher.Process | exchange/matcher/include/fexma/matcher/matcher.hpp:88-161 | One command: the log grows by a prefix of the command's events, all of them if the writer accepts, and then state and status are those of the specification step; a writer failure leaves a prefix without a final event and is fatal; a fatal matcher does nothing. |
| Matchers.Matcher.Run | exchange/matcher/include/fexma/matcher/matcher.hpp:59-86 | The run loop over any feed of commands, empty reads and read failures: state, event stream and result are those of the specified loop, or a prefix of the stream after a writer failure. |
| MatcherLaws.ServeIsRun | exchange/matcher/include/fexma/matcher/matcher.hpp:59-161 | The specified loop is the plain run over the commands it processes, which are the first of those read, so everything proved of runs holds of the loop. |
| MatcherLaws.ServedRunIsSound | exchange/matcher/include/fexma/matcher/matcher.hpp:59-161 | The event stream of the loop is framed, its end state is sound, and without loads its sequences are consecutive. |
| MatcherLaws.StartIsSound | exchange/matcher/include/fexma/matcher/matcher.hpp:33-52 | A new matcher is sound: book well formed, uncrossed, no id above the last. |
| MatcherLaws.RunKeepsSound | exchange/matcher/include/fexma/matcher/matcher.hpp:88-161 | In every run whose loaded images were saved before, every state is sound; in particular the book never crosses and holds no id above `last_order_id`. |
| MatcherLaws.FatalCauses | exchange/matcher/include/fexma/matcher/matcher.hpp:88-161 | Exactly which command is fatal and why, for every reason (if and only if); command-produced-no-event, erase-failed and update-failed never happen, and resting after execution fails only for a price out of range. |
| MatcherLaws.RestsOutOfRange | exchange/matcher/include/fexma/matcher/matcher.hpp:366-393 | The inputs of that failure: a book with one bid, and an ask for more than its quantity at a price below the range. |
| MatcherLaws.EventCount | exchange/matcher/include/fexma/matcher/matcher.hpp:306-395 | Every command has an event; a limit order at most 2m + 2 for m resting opposite orders; every other command exactly one. |
| MatcherEvents.AcceptedReports | exchange/matcher/include/fexma/matcher/matcher.hpp:306-395 | What an accepted order publishes, read off its events alone: accepted first; then trades, the i-th with the i-th order of the opposite price-time queue, carrying the ids and owners of both and the price of the resting order, for min(quantity, crossing quantity) in total; a resting order is reported done right behind exactly the trade that exhausts it; last, done, rested with the quantity left, rejected or fatal, each under its exact condition. |
| MatcherEvents.AcceptedChanges | exchange/matcher/include/fexma/matcher/matcher.hpp:306-406 | The queues afterwards are determined by the published trades and the last event: the opposite queue loses what was traded, and the own queue gains exactly the order reported as rested. |
| MatcherEvents.PublishedReports | exchange/matcher/include/fexma/matcher/matcher.hpp:188-242 | The published log of an accepted order in any reachable state is that report. |
| MatcherEvents.EnvelopesSay | exchange/matcher/include/fexma/matcher/matcher.hpp:223-242 | Every envelope names the client and sequence of its command, its index, whether it is last, and the next event sequence. |
| MatcherEvents.OtherEvents | exchange/matcher/include/fexma/matcher/matcher.hpp:88-161 | The one event of every other command, and that book and last id stay, except that an order with a zero quantity is rejected and still becomes the last id, and that a load takes over the saved ones. |
| MatcherEvents.LoadIsAccepted | exchange/matcher/include/fexma/matcher/matcher.hpp:264-304 | A load succeeds if and only if the store has an image of this configuration, save sequence and epoch, whose orders can be restored. |
| MatcherEvents.StatusIs | exchange/matcher/include/fexma/matcher/matcher.hpp:88-161 | A command answers fatal exactly with a fatal reason and stop exactly for a shutdown, and the loop goes on exactly otherwise. |
| MatcherLaws.RunIsFramed | exchange/matcher/include/fexma/matcher/matcher.hpp:188-242 | Over every run: per command indices 0, 1, ..., the final flag on exactly the last, consecutive sequences within the command. |
| MatcherLaws.RunIsConsecutive | exchange/matcher/include/fexma/matcher/matcher.hpp:415-423 | Over every run without loads the event sequences count up from the cursor without a gap. |
| MatcherLaws.FatalIsFinal | exchange/matcher/include/fexma/matcher/matcher.hpp:88-92 | A fatal matcher never changes and never publishes again. |
| ReplayLaws.AfterLoad | exchange/matcher/include/fexma/matcher/matcher.hpp:264-304 | Loading an image in any state, mode and book yields the saved book and last id, with the event cursor and mode the loading mode asks for. |
| ReplayLaws.ExactReplay | exchange/matcher/include/fexma/matcher/matcher.hpp:244-304 | From any later live state, StartReplay, LoadSnapshot of the image, then the commands after the save publish exactly the same envelopes again and reach the same book. |
| ReplayLaws.ExactReplayOfRun | exchange/matcher/include/fexma/matcher/matcher.hpp:88-161 | The same for one whole run from an empty matcher with an honest store: before, save, commands, anything later, then the replay. |
| ReplayLaws.ModesStayTogether | exchange/matcher/src/replay.cpp:39-68 | Persistence and matcher modes that agree still agree after a command if and only if it is not one of two kinds: a start at the largest sequence, or a restoring load that passes the matcher's checks (store answer, image asked for, orders restorable) but not persistence's (pipeline open, resume point known), or the other way round. |
| ReplayLaws.PolicyAnswers | exchange/matcher/src/replay.cpp:39-68 | Exactly when a durable command is an invalid transition (anything but a load while restoring, or a start at the largest sequence) or fails for the pipeline, and the mode and resume point of every other answer; a refused command changes neither. |
| ReplayLaws.LargestStartParts | exchange/matcher/src/replay.cpp:45-50 | The first kind happens: from a new matcher, a start with the largest sequence puts the matcher into replay while persistence stays live. |
| ReplayLaws.ReplayKeepsResumePoints | exchange/matcher/src/replay.cpp:39-68 | While replaying, whatever is replayed short of a stop, both resume points and the live cursor stay as they were. |
| ReplayLaws.EpisodeIsTransparent | exchange/matcher/include/fexma/matcher/matcher.hpp:443-457 | A whole episode (save, start, replayed commands, stop, load) ends with book, last id and event cursor as right after the start, both modes live, and the live command cursor at the start's sequence plus one. |
| ReplayLaws.EpisodeKeepsModes | exchange/matcher/src/replay.cpp:39-68 | After every command of the episode the two modes agree: live, then replay, then restoring, then live. |
| ReplayPersistence.ReplayPersistenceState.NextAction | exchange/matcher/src/replay.cpp:34-37 | Appends and syncs exactly in live mode. |
| ReplayPersistence.ReplayPersistenceState.OnDurableCommand | exchange/matcher/src/replay.cpp:39-68 | Mode and resume point after each durable command; the pipeline's live cursor is restored exactly at a restoring load, and otherwise untouched. |
| WalReplayIo.WalFileReplaySource.Open | exchange/matcher/src/replay.cpp:135-157 | Rejects bad ranges and configurations, and otherwise passes over the records before the first one asked for, on any file. |
| WalReplayIo.WalFileReplaySource.PublishNextCommand | exchange/matcher/src/replay.cpp:159-198 | Offers the pending or next recorded command; what the pipeline gains, and the source's new state, are those of the specification for the answer the pipeline had to give; the live cursor is untouched. |
| WalReplayLaws.OpensAt | exchange/matcher/src/replay.cpp:135-157 | A well-formed log opens, and the wanted record is reached exactly when the log has all those before it. |
| WalReplayLaws.OpenAnswers | exchange/matcher/src/replay.cpp:135-157 | What opening a source answers to bad arguments, a second opening and a bad log, in this order, each if and only if; the first two leave the source as it was. |
| WalReplayLaws.FetchAnswers | exchange/matcher/src/replay.cpp:159-198 | What a source answers before any record of any log, commands or not: a record that is no encoding of a command is reported with its sequence and passed over without handing anything on; the record behind the last one asked for completes the source. |
| WalReplayLaws.DeliversInOrder | exchange/matcher/src/replay.cpp:159-198 | From any point, for every sequence of pipeline answers: accepted commands are the recorded ones in order, each exactly once, as many as were accepted. |
| WalReplayLaws.ReplayDelivers | exchange/matcher/src/replay.cpp:135-198 | The same from opening on, for the recorded range asked for, and the source is complete exactly when the last of it was accepted. |
| WalReplayIo.EventWalComparator.Open | exchange/matcher/src/replay.cpp:200-226 | As for the source; a comparison begins only when the first record was reached. |
| WalReplayIo.EventWalComparator.Publish | exchange/matcher/src/replay.cpp:228-256 | Accepts an event exactly when the next record decodes and the event encodes to its very bytes under its own sequence; the first refusal is final. |
| WalReplayIo.EventWalComparator.FinishComparison | exchange/matcher/src/replay.cpp:258-268 | Complete exactly when nothing was refused and the last sequence was reached. |
| WalReplayLaws.ComparatorIsExact | exchange/matcher/src/replay.cpp:228-268 | From any point: a stream of events passes if and only if it is, event for event, the recorded one up to the last sequence. |
| WalReplayLaws.CompareOne | exchange/matcher/src/replay.cpp:228-256 | The verdict on one event before record k: accepted if and only if it is that record within the range; otherwise unexpected behind the range, missing at the end of the log, and a mismatch else. |
| WalReplayLaws.FinishAnswers | exchange/matcher/src/replay.cpp:258-268 | Ending a comparison early reports the first sequence that is missing. |
| WalReplayLaws.VerdictIsExact | exchange/matcher/src/replay.cpp:200-268 | The same from opening on. |
| WalReplayLaws.ReplayPassesComparison | exchange/matcher/src/replay.cpp:200-268 | End to end: if the event log recorded what the commands after a save published, replaying them from the image passes the comparison. |
| CommandRing.StepKeeps | exchange/matcher/src/command_pipeline.cpp:100-283 | Every access of every role to shared memory, the stages' late reads included, with stale reads of the frontier it depends on, keeps the invariant of the ring. |
| CommandRing.RunIsSafe | exchange/matcher/src/command_pipeline.cpp:100-283 | In every interleaving: tail <= reserve <= risk <= durable <= head <= tail + capacity, and the matcher has received exactly a prefix of the published commands, in order, each with its own two results, and nothing not yet durable. |
| CommandRing.NoOverlap | exchange/matcher/src/command_pipeline.cpp:100-283 | The late reads of the two stages apart, no slot is written while another role may read or write it: not the producer's against anything unconsumed, not the stages' against each other, against the matcher or against persistence, whose copies and last read lie between durable and head. |
| CommandRing.LateRead | exchange/matcher/src/command_pipeline.cpp:217-218 | A property the code does not have for the late reads: after storing its frontier a stage reads its slot once more. That slot is still written for its own position if and only if the producer has not begun to write the command one whole ring later; it holds the published command then, and that later command otherwise. |
| CommandRing.LateReadLive | exchange/matcher/src/command_pipeline.cpp:260-263 | In a live stream the sequence a stage call returns is its own command's if and only if the slot had not been taken over by then. |
| CommandRing.UnconsumedIsIntact | exchange/matcher/src/command_pipeline.cpp:198-264 | A guard a caller can rely on: while the matcher has not consumed the position, the late read finds the stage's own command. |
| LateReads.TakenOverBeforeRead | exchange/matcher/src/command_pipeline.cpp:198-219 | The input that shows it: with one slot, from opening on, a schedule of the pipeline's own accesses after which risk's read for the first live command finds the second, and the call returns the wrong sequence. |
| CommandRing.HistoryGrows | exchange/matcher/src/command_pipeline.cpp:100-283 | What was published, stored and delivered is never taken back. |
| CommandRing.FailureIsTerminal | exchange/matcher/src/command_pipeline.cpp:100-178 | After a persistence failure, set by any role at any time, the durable frontier can move at most once more, by a store that had passed its check before, and never when none is in flight; at most the publication in flight is still published; nothing at or above the frontier is delivered. |
| CommandRing.LiveSequences | exchange/matcher/src/command_pipeline.cpp:45-70 | With live publication the matcher receives consecutive sequences from the first (or from a restored cursor on), none twice, none beyond the largest. |
| CommandRing.CountingStarts | exchange/matcher/src/command_pipeline.cpp:86-98 | A new ring counts from its first sequence and a restored cursor from the restored one, even when a replayed command is being published. |
| CommandPipelines.PublishRuns | exchange/matcher/src/command_pipeline.cpp:100-123 | A publication call is a schedule of ring steps that adds exactly its command to the history. |
| CommandPipelines.DurableRuns | exchange/matcher/src/command_pipeline.cpp:147-171 | Advancing durability is a schedule of ring steps after which persistence has stored exactly the published prefix. |
| CommandPipelines.CommandPipeline.Open | exchange/matcher/src/command_pipeline.cpp:13-43 | Status by precedence; a new ring is empty and counts from the first sequence. |
| CommandPipelines.CommandPipeline.TryPublish | exchange/matcher/src/command_pipeline.cpp:45-70 | Status by precedence (closed, failed, exhausted, full); on success the command gets the live sequence, which then advances or is exhausted; otherwise nothing changes. |
| CommandPipelines.CommandPipeline.TryReplay | exchange/matcher/src/command_pipeline.cpp:72-84 | The command keeps its own sequence and the live cursor stays. |
| CommandPipelines.CommandPipeline.RestoreLiveSequence | exchange/matcher/src/command_pipeline.cpp:86-98 | Sets the live cursor and nothing else. |
| CommandPipelines.CommandPipeline.CopyPendingForPersistence | exchange/matcher/src/command_pipeline.cpp:125-145 | Returns the published command that far behind the durable frontier, or Empty. |
| CommandPipelines.CommandPipeline.PublishDurable | exchange/matcher/src/command_pipeline.cpp:147-171 | Moves the durable frontier by a valid count, and by nothing after a failure. |
| CommandPipelines.CommandPipeline.FailPersistence | exchange/matcher/src/command_pipeline.cpp:173-178 | Sets the failure flag and nothing else. |
| CommandPipelines.CommandPipeline.TryReadForRisk | exchange/matcher/src/command_pipeline.cpp:180-196 | The oldest durable command not yet checked for risk, or Empty. |
| CommandPipelines.CommandPipeline.PublishRisk | exchange/matcher/src/command_pipeline.cpp:198-219 | Records the decision for that command and advances by one; a pending decision is refused. The returned sequence is the command's own for an uninterrupted call; for others see `CommandRing.LateRead`. |
| CommandPipelines.CommandPipeline.TryReadForReserve | exchange/matcher/src/command_pipeline.cpp:221-239 | The oldest risk-checked command with its own risk result, or Empty. |
| CommandPipelines.CommandPipeline.PublishReserve | exchange/matcher/src/command_pipeline.cpp:241-264 | Records the reserve decision and advances by one; for the returned sequence the same holds. |
| CommandPipelines.CommandPipeline.TryConsume | exchange/matcher/src/command_pipeline.cpp:266-283 | Delivers the oldest fully checked slot and frees it. |
| WalCores.WalCore.TryPublish | exchange/wal/src/core.cpp:124-146 | Status by precedence, the exhaustion of sequences included; on success the payload is retained at the head under its own sequence, otherwise nothing is published. |
| WalCores.WalCore.TryView | exchange/wal/src/core.cpp:148-160 | Reclaimed, unpublished or the payload and sequence published at that position. |
| WalCores.WalCore.Reclaim | exchange/wal/src/core.cpp:162-169 | Moves the tail exactly to positions between tail and head. |
| WalCores.PublishKeepsRetained | exchange/wal/src/core.cpp:124-146 | Publishing over the wrapped ring overwrites no retained position. |
| Sliders.BoundedEnd | exchange/wal/include/fexma/wal/slider.hpp:123-143 | The bounded policy acquires all that is available or exactly its maximum, whichever is less. |
| Sliders.EntryIsDecided | exchange/wal/include/fexma/wal/slider.hpp:240-257 | With either policy the range is never invalid, and the entry checks fail exactly when own frontier and position differ or the upstream lies behind. |
| WalChain.StepKeeps | exchange/wal/include/fexma/wal/slider.hpp:240-300 | Every step of producer, any stage and reclaimer, with stale reads, keeps the chain's invariant. |
| WalChain.RunIsSafe | exchange/wal/include/fexma/wal/slider.hpp:240-300 | For every schedule: tail <= last <= ... <= first <= head, and every module has accepted positions 0, 1, 2, ..., each once, with the published payload and sequence, across wraparound and refusals. |
| WalChain.ChainOrdered | exchange/wal/include/fexma/wal/slider.hpp:240-300 | Frontiers never increase along the chain. |
| WalChain.ViewAlwaysOk | exchange/wal/include/fexma/wal/slider.hpp:264-268 | No stage ever finds its position reclaimed or unpublished. |
| WalChain.SliderNeverFails | exchange/wal/include/fexma/wal/slider.hpp:240-285 | In every reachable state a call finds no progress mismatch, no upstream regression and no invalid range, and no publication is refused. |
| WalChain.NoOverlap | exchange/wal/include/fexma/wal/slider.hpp:262-281 | While a stage works on a viewed record, its slot is neither reclaimed nor the one the producer may be writing, and still holds what was published. |
| Crc32.Crc32Bytes | exchange/wal/src/physical_wal_file.cpp:125-138 | The nested loops compute the reflected CRC-32 of section 8 of RFC 1952; which polynomial that is, `Crc32Laws.Residue` and `Crc32Laws.CheckValue` say. |
| Crc32.FoldInjective | exchange/wal/src/physical_wal_file.cpp:125-138 | Each CRC step is injective in the register, so different registers stay different over any bytes. |
| Crc32.OneByteChanges | exchange/wal/src/physical_wal_file.cpp:125-138 | Changing one byte anywhere changes the checksum. |
| Crc32Laws.Residue | exchange/wal/src/physical_wal_file.cpp:125-138 | The residue theorem: for all bytes, the register after the bytes and the four little-endian bytes of their checksum is the constant 0xDEBB20E3. |
| Crc32Laws.Linear | exchange/wal/src/physical_wal_file.cpp:125-138 | Any number of register steps is linear over exclusive or. |
| Crc32Laws.CheckValue | exchange/wal/src/physical_wal_file.cpp:125-138 | The checksum of the nine characters 123456789 is the published check value 0xCBF43926. |
| WalFormat.NumberOfLE | exchange/wal/src/physical_wal_file.cpp:21-70 | Little-endian numbers of any width are read back as written. |
| WalFormat.UnpackOfPack | exchange/wal/src/physical_wal_file.cpp:173-239 | Headers are read back field by field as written. |
| WalFormat.PackOfUnpack | exchange/wal/src/physical_wal_file.cpp:173-239 | Bytes of the right length are the encoding of the fields read from them. |
| WalIo.PutLE | exchange/wal/src/physical_wal_file.cpp:21-41 | The shift loop writes the little-endian bytes at the offset and nothing else. |
| WalIo.GetLE | exchange/wal/src/physical_wal_file.cpp:43-70 | The shift loop reads the little-endian number. |
| WalLog.SealedIsIntact | exchange/wal/src/physical_wal_file.cpp:140-150 | A header sealed with the checksum of itself with a zero checksum field passes its own check. |
| WalLog.DamageIsSeen | exchange/wal/src/physical_wal_file.cpp:140-150 | One changed byte anywhere in a sealed header, its checksum included, fails the check. |
| WalLog.AlignUp | exchange/wal/src/physical_wal_file.cpp:152-171 | The least multiple of the alignment that is at least the size. |
| WalScanBounds.FileLayout | exchange/wal/src/physical_wal_file.cpp:173-203 | A log byte for byte: the fields of the file header with their values, widths and order, its checksum, zeros up to the alignment, and then the records. |
| WalScanBounds.RecordLayout | exchange/wal/src/physical_wal_file.cpp:350-379 | A record byte for byte: magic, version, header size, sequence, payload checksum, header checksum, payload, zeros up to the stride. |
| WalScanBounds.LittleEndian | exchange/wal/src/physical_wal_file.cpp:21-41 | Byte i of an encoded number is its digit i to the base 256. |
| WalIo.PhysicalLog.Create | exchange/wal/src/physical_wal_file.cpp:283-348 | An existing file is refused untouched; on success the file is exactly the sealed header and its padding, synced, and its directory too; otherwise a prefix of that. |
| WalIo.PhysicalLog.AppendRecord | exchange/wal/src/physical_wal_file.cpp:350-379 | Appends a prefix of the record's bytes, all of them exactly on success; a payload of the wrong size changes nothing. |
| WalIo.PhysicalLog.Sync | exchange/wal/src/physical_wal_file.cpp:381-393 | On success everything written is synced. |
| WalIo.WalReader.ReadZeroPadding | exchange/wal/src/reader.cpp:47-69 | Reads padding in chunks; incomplete and non-zero padding are told apart as specified. |
| WalIo.WalReader.Open | exchange/wal/src/reader.cpp:90-174 | Already open, configuration invalid, the first of the header errors in order, or an open reader at the first record. |
| WalIo.WalReader.ReadNext | exchange/wal/src/reader.cpp:176-258 | Closed, wrong buffer size, or the record, the end or the first error at the present offset; an error is final; the last sequence is read once and then exhausted. |
| WalIo.ScanWal | exchange/wal/src/reader.cpp:282-322 | The loop computes the scan of the file: status, error, record count, last sequence and last valid offset. |
| WalIo.RecoverIncompleteTail | exchange/wal/src/recovery.cpp:42-100 | Result and remaining bytes are those of the specified recovery, whether truncation and its sync succeed or fail. |
| WalScanLaws.ReadWhole | exchange/wal/src/reader.cpp:176-258 | A whole record is read with its payload. |
| WalScanLaws.ReadCut | exchange/wal/src/reader.cpp:71-82 | A record cut anywhere reads as an incomplete tail, with the error that names the part it was cut in. |
| WalScanLaws.ReadDamaged | exchange/wal/src/reader.cpp:176-258 | A record with one changed byte reads as corrupted, with the error of the part the byte lies in: magic, version, header size, header checksum, payload checksum or padding. |
| WalRecovery.WholeLog | exchange/wal/src/reader.cpp:282-322 | A well-formed log scans clean with all its records, even through the largest sequence. |
| WalRecovery.RecordReadsBack | exchange/wal/src/reader.cpp:176-258 | Record k of a log is read at its own offset and sequence with its own payload. |
| WalRecovery.RecoverAnything | exchange/wal/src/recovery.cpp:42-100 | For any bytes: recovery follows the scan and keeps its error, counts and offset, touches nothing unless the tail is incomplete, reports the sizes before and after, leaves what then scans clean with the same records, and is idempotent. |
| WalRecovery.TailRecovery | exchange/wal/src/recovery.cpp:42-100 | Every truncation of a well-formed log to length m: below the records offset refused unchanged; otherwise exactly floor((m - offset) / stride) records are left, and every field of the result is stated, the removed bytes and the kept error included. |
| WalRecovery.DamageIsDetected | exchange/wal/src/reader.cpp:282-322 | Any single changed byte anywhere in a well-formed log is reported as corrupted with the error of its place, counting exactly the records before it, and recovery leaves the file untouched. |
| WalScanBounds.GapIsCorruption | exchange/wal/src/reader.cpp:71-82 | Whole records, then an intact record of another sequence, then anything: corrupted with exactly those records counted, and recovery leaves the file alone. |
| WalScanBounds.TailIsShort | exchange/wal/src/recovery.cpp:42-100 | For any bytes at all: an incomplete tail is shorter than one stride, so recovery never removes a whole record. |
| WalScanBounds.FailedTruncation | exchange/wal/src/recovery.cpp:66-100 | A failed truncation removes nothing; after a failed sync the tail is gone, but neither is reported as recovered. |
| WalScanBounds.OtherLogIsRefused | exchange/wal/src/reader.cpp:90-174 | A log of one configuration is refused as one of any other configuration, with an identity mismatch, and recovery leaves it alone. |
| FieldDamage.OneFieldChanges | exchange/wal/src/physical_wal_file.cpp:173-239 | One changed byte of a header changes exactly the field it lies in. |
| Wals.PersistenceModule.Append | exchange/wal/src/persistence.cpp:43-50 | Appends unless closed or failed before; a failure latches and leaves at most part of the record. |
| Wals.PersistenceModule.Sync | exchange/wal/src/persistence.cpp:52-59 | Syncs unless closed or failed before; a failure latches. |
| Wals.Wal.TryPublish | exchange/wal/src/wal.cpp:44-54 | Status by precedence, persistence failure included; on success the payload joins the published history. |
| Wals.Wal.ProcessAvailable | exchange/wal/include/fexma/wal/slider.hpp:240-285 | The persistence instance: the frontier moves by the whole batch or, after any failure, not at all; the mismatch and regression branches are dead. |
| Wals.Wal.SyncAndPublish | exchange/wal/include/fexma/wal/persistence_slider.hpp:13-26 | The batch is held until it is synced and then published in one step. |
| Wals.Wal.AdvanceDurable | exchange/wal/src/wal.cpp:56-66 | Appends, syncs and publishes up to a batch; after the first failure it reports the failure and moves nothing. |
| Wals.Wal.TryConsume | exchange/wal/src/wal.cpp:68-84 | Delivers the next position below the durable frontier, with its payload and sequence, and nothing else. |
| Wals.Wal.Close | exchange/wal/src/wal.cpp:91-110 | Refused while consumption or durability is pending; otherwise closed, saying whether persistence or closing the file had failed or sequences were exhausted. |
| Wals.ReaderConfig | exchange/wal/src/config.cpp:44-65 | A configuration valid for a ring is valid for readers. |
| WalDurability.CrashKeepsDurable | exchange/wal/src/recovery.cpp:42-100 | From any reachable state, every crash that keeps the synced bytes and any prefix of the others recovers to a prefix of the published payloads that includes everything durable. |
| WalDurability.EndToEndDurability | exchange/wal/src/wal.cpp:44-84 | For every schedule of publications, partial appends, failures, syncs and consumption, and every crash: recovery succeeds, keeps every record below the durable frontier, every kept record reads back its published payload, and nothing else has been consumed. |
| WalDurability.FailureFreezesDurable | exchange/wal/src/persistence.cpp:43-59 | After the first failure neither frontier nor file ever changes, and consumers stay below the frontier. |
| CaptureModules.HashChainModule.Process | exchange/snapshot_demo/include/fexma/snapshot_demo/hash_chain.hpp:40-80 | One record: refused for good if malformed or out of order, refused for now if a save finds the slot taken, otherwise folded, and captured if it is a save. |
| CaptureModules.HashChainModule.MixRecord | exchange/snapshot_demo/include/fexma/snapshot_demo/hash_chain.hpp:110-119 | The byte loops compute the fold of the record into the digest. |
| CaptureLaws.RecordIsMixed | exchange/snapshot_demo/include/fexma/snapshot_demo/hash_chain.hpp:60-66 | A record is mixed in as a marker, its position, sequence, size and payload, in this order. |
| CaptureLaws.PayloadShows | exchange/snapshot_demo/include/fexma/snapshot_demo/hash_chain.hpp:60-66 | Changing any one byte of a payload changes the digest, and no equal records that follow make it the same again. |
| CaptureLaws.PlaceShows | exchange/snapshot_demo/include/fexma/snapshot_demo/hash_chain.hpp:60-66 | The same for any one byte of the position or of the sequence. |
| CaptureLaws.FoobarDigest | exchange/snapshot_demo/include/fexma/snapshot_demo/hash_chain.hpp:109-119 | The mixing of bytes is FNV-1a with 64 bits: from its offset, the characters foobar give the published value 0x85944171F73967E8. |
| CaptureLaws.AcceptsExactly | exchange/snapshot_demo/include/fexma/snapshot_demo/hash_chain.hpp:40-80 | Exactly when a module accepts, refuses for now or fails, and its state and capture after each. |
| CaptureModules.HashChainModule.ReleaseCapture | exchange/snapshot_demo/include/fexma/snapshot_demo/hash_chain.hpp:92-100 | Frees the slot exactly for the matching generation and position. |
| CaptureModules.HashChainModule.RestoreQuiescent | exchange/snapshot_demo/include/fexma/snapshot_demo/hash_chain.hpp:103-107 | The module holds the given state and no capture. |
| CaptureModules.BitAccumulatorModule.Process | exchange/snapshot_demo/include/fexma/snapshot_demo/bit_accumulator.hpp:42-83 | As for the hash chain, with the bit count and rolling value. |
| CaptureModules.BitAccumulatorModule.CountPayload | exchange/snapshot_demo/include/fexma/snapshot_demo/bit_accumulator.hpp:63-67 | The payload loop counts the bits and folds the bytes. |
| CaptureLaws.CountIsExact | exchange/snapshot_demo/include/fexma/snapshot_demo/bit_accumulator.hpp:63-67 | The count is the number of set bits of all payloads of the log, modulo 2^64, set bits being the positions i with bit i not zero. |
| CaptureLaws.RecordShows | exchange/snapshot_demo/include/fexma/snapshot_demo/bit_accumulator.hpp:60-67 | Changing any one byte of position, sequence or payload changes the rolling value, whatever equal records follow. |
| CaptureLaws.PayloadRolls | exchange/snapshot_demo/include/fexma/snapshot_demo/bit_accumulator.hpp:60-67 | The same for a payload byte, stated on the record. |
| CaptureModules.BitAccumulatorModule.ReleaseCapture | exchange/snapshot_demo/include/fexma/snapshot_demo/bit_accumulator.hpp:97-105 | Frees the slot exactly for the matching generation and position. |
| CaptureModules.BitAccumulatorModule.RestoreQuiescent | exchange/snapshot_demo/include/fexma/snapshot_demo/bit_accumulator.hpp:108-112 | The module holds the given state and no capture. |
| CaptureModules.CaptureGenerationCoordinator.Collect | exchange/snapshot_demo/include/fexma/snapshot_demo/capture_generation.hpp:41-72 | Status by precedence; a generation is taken exactly when both captures agree. |
| CaptureModules.CaptureGenerationCoordinator.ReleaseGeneration | exchange/snapshot_demo/include/fexma/snapshot_demo/capture_generation.hpp:78-99 | Releases both captures or nothing at all. |
| CaptureLaws.CollectAnswers | exchange/snapshot_demo/include/fexma/snapshot_demo/capture_generation.hpp:41-72 | A collection is in flight exactly while a generation is held, misses a participant exactly without both captures, and is complete only when positions and ends agree. |
| CaptureLaws.ReleasesOwn | exchange/snapshot_demo/include/fexma/snapshot_demo/capture_generation.hpp:78-99 | A capture is released exactly by its own generation and end, and nothing else changes. |
| CaptureGenerations.ProcessKeeps | exchange/snapshot_demo/include/fexma/snapshot_demo/hash_chain.hpp:40-80 | Processing keeps the module at the fold of a prefix of the log; it is failed afterwards exactly when that record is malformed. |
| CaptureGenerations.FinalState | exchange/snapshot_demo/include/fexma/snapshot_demo/hash_chain.hpp:40-80 | A module that is at the end of the log or has failed has the one state, flag included, that the log leads to. |
| CaptureGenerations.NeverMismatch | exchange/snapshot_demo/include/fexma/snapshot_demo/capture_generation.hpp:41-72 | No collection ever finds the two captures to differ, and what it takes are the two states after the same prefix of the log. |
| CaptureGenerations.ReleaseSucceeds | exchange/snapshot_demo/include/fexma/snapshot_demo/capture_generation.hpp:78-99 | Releasing a held generation always finds both captures. |
| CaptureGenerations.RunIsSafe | exchange/snapshot_demo/include/fexma/snapshot_demo/capture_generation.hpp:41-99 | For every schedule of publishing, processing, collecting and releasing: no mismatch, every held generation pairs two states of one prefix, and backpressure never changes the final states. |
| Codecs.CommandRoundTrip | exchange/matcher/src/codec.cpp:67-160 | Every encodable command is decoded from its encoding, in both versions. |
| Codecs.CommandCanonical | exchange/matcher/src/codec.cpp:109-160 | Whatever a command decoder accepts encodes to the very same bytes: it accepts exactly what the encoder produces. |
| Codecs.CommandVersionsAgree | exchange/matcher/src/codec.cpp:333-384 | Version 2 agrees with version 1 on all version 1 can encode and decode, and adds only the two replay commands. |
| CodecLayout.CommandLayout | exchange/matcher/src/codec.cpp:67-107 | Every command byte for byte: fields, widths, order, tags and padding; the others are refused by their type. |
| CodecLayout.CommandRefusals | exchange/matcher/src/codec.cpp:109-160 | Exactly which bytes a command decoder refuses, and as what. |
| CodecLayout.CommandAccepted | exchange/matcher/src/codec.cpp:109-160 | A command decoder accepts if and only if the bytes are what some command encodes to. |
| Codecs.EventRoundTrip | exchange/matcher/src/codec.cpp:162-331 | Every encodable event is decoded from its encoding, in both versions. |
| Codecs.EventCanonical | exchange/matcher/src/codec.cpp:242-331 | Whatever an event decoder accepts encodes to the very same bytes. |
| Codecs.EventVersionsAgree | exchange/matcher/src/codec.cpp:386-447 | Version 2 agrees with version 1 on all version 1 can encode and decode, and adds only the two replay events. |
| CodecLayout.EventLayout | exchange/matcher/src/codec.cpp:162-240 | Every event byte for byte: fields, widths, order, tags and padding. |
| CodecLayout.EnumerationCodes | exchange/matcher/include/fexma/matcher/types.hpp:242-300 | The numbers of the reject and fatal reasons. |
| CodecLayout.EventRefusals | exchange/matcher/src/codec.cpp:242-331 | Exactly which bytes an event decoder refuses, and as what: size, final flag, type, then the enumerations of the body. |
| CodecLayout.EventAccepted | exchange/matcher/src/codec.cpp:242-331 | An event decoder accepts if and only if the bytes are what some event encodes to. |
| CodecIo.EncodeCommand | exchange/matcher/src/codec.cpp:67-107 | The field-by-field encoder produces the packed row of its command, or refuses the buffer size or the type. |
| CodecIo.DecodeCommand | exchange/matcher/src/codec.cpp:109-160 | The field-by-field decoder reports the specified first error or the canonical command. |
| CodecIo.EncodeEvent | exchange/matcher/src/codec.cpp:162-240 | The field-by-field encoder produces the packed rows of its event, or refuses the buffer size or the type. |
| CodecIo.DecodeEvent | exchange/matcher/src/codec.cpp:242-331 | The field-by-field decoder reports the specified first error or the canonical event. |

## Left out

- OrderBooks.OrderBook.constructor: asks for a capacity of at most 2^32 - 2, where the program throws; `OrderPools.OrderPool.Create` states which capacities are accepted.
- OrderIdIndexes.OrderIdIndex.constructor: a default-constructed index with no buckets is not modelled; the book never uses one. Probe statistics are left out.
- OrderBooks.OrderBook.SnapshotSideInto: walks levels in one loop where the program nests segment and offset; the destination-full check inside it cannot fail after the check in `snapshot_into` and is not repeated.
- WalCores.WalCore.constructor: asks for a valid configuration, where the program returns InvalidConfig; `WalLog.ValidConfig` is the check, and readers and scanner report it.
- Wals.Wal.constructor: starts from a created log; opening it is `WalIo.PhysicalLog.Create`, and failures of allocation are left out.
- MatcherLaws.RunIsConsecutive: assumes no loads, because a load while replaying or restoring moves the event cursor by design; what it moves it to is stated by `ReplayLaws.AfterLoad`.
- MatcherLaws.RunKeepsSound: assumes that loaded images were saved before; the program does not check more than configuration, sequence, epoch and restorability of an image either.
- CommandRing.LiveSequences: restoring the cursor in the middle of a live publication is a data race on a plain field in the program; such a schedule is a schedule of the model (`RunIsSafe` covers it), but sequences are counted only from a restoration outside live publication.
- CaptureGenerations.RunIsSafe: captures are released through the coordinator only, which is how the program is meant to be used.
- CodecIo.EncodeCommand: enumerations have only their declared values; a raw byte out of range, an event without a type, and the part of the buffer an encoder fills before it refuses a type, are not modelled. Encoders build their bytes as values; writing into a span is `WalIo.PutLE`.
- WalIo.WalReader.ReadNext: errors of the operating system while reading are not modelled; nor are handles and renames.
- WalIo.PhysicalLog.Create: whether the name exists and whether the directory can be synced are parameters; an adapter that is open already is not modelled.
- Matchers.EventWriter.Publish: the log records the accepted envelopes only; a writer that keeps an envelope it reports as failed is not modelled.
- Storage allocation failure, moves, poisoning of freed slots and `noexcept` carry no property beyond memory management.
- Wraparound of 64-bit positions, ids and event sequences; the exhaustion checks of the program are modelled.
- Memory orders weaker than stale monotone reads with visibility of what was published before.
- The replay manifest, configuration and checkpoint hashes (`replay.cpp` lines 16-30 and 78-133): comparing fields, and hashes of which only collision claims would be interesting.
- Snapshot sink and loader, the snapshot file format and the byte layout of application records: input and output, and copying of fields; decoding a record is a parameter.
- Other instances of the slider template, the consumer of the demonstration, timings, capture durations, benchmarks, examples and utilities.
