# Verified core of the market-data and order-book toolkit

This project models six components of the repository in Dafny and proves what they promise.

- **Call auction** (`PriceLevels`, `AuctionClearing`, `AuctionMatching`, `AuctionDepth`,
  `AuctionEngine`). An order book keeps bids and asks in price levels. On every insert it looks for
  a clearing price by scanning prefix sums, counts trades by an independent greedy walk over the
  orders, and displays five levels per side from a mixture of both. The source never compares the
  two computations. Here they are proved to agree: the walk trades exactly the scanned volume, that
  volume is the maximum over all integer prices, and each displayed size is what the walk leaves.
- **Rings** (`MpscRing`, `CachedRing`, `FlaggedRing`, `IndexQueues`, with `BoundedFifo` and
  `Modular`, `Options`). The concurrent rings are machines of atomic steps under any interleaving and any
  number of producers; theorems hold for every run. The mask-indexed and the modulo-indexed queue
  are objects over a ring array and are proved to answer alike on every operation sequence.
- **Reactor** (`Timers`, `TimerSchedule`, `EventLoop`, `ConnectionOutput`, `ByteBuffers`). The timer wheel, which
  expires a task when its last shared pointer is dropped, is proved to be a table of deadlines. The
  task queue with its eventfd loses no wake-up. A connection writes what it accepted, in order. The
  two sliding buffers are byte queues of bounded capacity.
- **Packet pool** (`PacketPool`). Ownership of 2000 packet buffers among free list, receiver, four
  rings and four workers; a pigeonhole bound on the dispatch loop follows from conservation.
- **Framing** (`Codec`, `Framing`, `SharedFraming`). A length-prefixed stream decoder over a compacting
  buffer, fed in arbitrary pieces, the byte-offset codecs, and what becomes of several connections
  that share the one buffer.
- **FIX 4.2** (`FixText`, `Fix42`, `FixValidation`). Serialise, parse, checksum and validate
  tag=value messages; the checksum is that of Appendix B of the FIX 4.2 specification.

Where a promise fails on some inputs, the code is kept as it is, the failing family is exhibited, and
the exact condition is proved:

- the auction's tie-break is least among the quoted prices, and among all integer prices exactly
  under `LeastImbalanceAnywhereIff`;
- the multi-producer ring, whose static assertion admits one slot, keeps ticket order exactly from
  two slots on (`OrderedIffTwoSlots`);
- `WakeupLostIff` says of every run whether it leaves a wake-up lost. Losing one takes the branch
  that returns on `EINTR` without retrying the eventfd write; the eventfd is non-blocking, so that
  branch is reached only if the kernel interrupts such a write;
- a shutdown flushes what was accepted exactly when it finds no release queued or nothing unsent
  (`ShutdownFlushesIff`);
- a task is found by its id exactly under `FoundIff`; the schedule of `FiresOnSchedule` holds for every
  task on every run, and can be read off the id alone when no live id is re-added (`FiresById`;
  `LiveReAddBreaksSchedule` shows a run where it cannot);
- the shared receive buffer serves a newcomer's frames exactly when nobody else's bytes are left in it
  (`ServesNewcomerIff`; `FramesMix` shows two connections' frames mixing);
- a task's delay is its timeout exactly for timeouts 1 to 60 (`DelayIsTimeout`);
- a FIX message is parsed back exactly when no value holds the separator (`RoundTripIff`), and it is
  validated exactly under `AcceptedIff`, because the validator stops summing at the first "10=" it
  finds; `StopsAtTrailerIff` says for which messages that is the trailer;
- bytes in the framing buffer are never decoded again exactly when they start with a foreign type or
  a length that is negative as a 32-bit integer (`StuckIffStalled`).

## Model

| member | source | states |
|---|---|---|
| `PriceLevels.AddOrderIsPriceTimeInsert` | obr/src/full_order.cpp:478-487 | adding an order to the level map gives, flattened, the price-time list with the order behind every order of the same or a better price |
| `PriceLevels.AddOrderSideOk` | obr/src/full_order.cpp:478-487 | an insert keeps levels sorted by the comparator, non-empty, and each level's quantity equal to the sum of its orders |
| `PriceLevels.LowerBound` | obr/src/full_order.cpp:232-233 | `lower_bound`: everything before it precedes the price, the level there does not |
| `PriceLevels.SubscriptPresent` | obr/src/full_order.cpp:228-234 | `operator[]` on a price that has a level leaves the map unchanged |
| `PriceLevels.LevelMeasures` | obr/src/full_order.cpp:206-216 | cumulative level quantities are the demand or supply curve just before and at the level's price |
| `PriceLevels.QuantityBeforeMonotone` | obr/src/full_order.cpp:206-216 | the curves are monotone in the comparator's order and bounded by the side's total |
| `AuctionClearing.FeasibleIsMaximal` | obr/src/full_order.cpp:236-254 | every feasible price attains the maximum over all integer prices of min(bids at or above, asks at or below) |
| `AuctionClearing.CanDealIsFeasible` | obr/src/full_order.cpp:236-247 | the nested branches that set `ok` decide exactly feasibility |
| `AuctionClearing.FeasibleBookPriceExists` | obr/src/full_order.cpp:218-312 | every crossed book has a feasible quoted price inside the crossing range |
| `AuctionClearing.FeasibleInRange` | obr/src/full_order.cpp:222-226 | every feasible price of a crossed book lies between best ask and best bid and trades a positive volume, so the scans' stopping rule skips none |
| `AuctionClearing.ConsiderKeepsBest` | obr/src/full_order.cpp:254-266 | one scan iteration keeps: the running optimum is the first seen price of least imbalance among the feasible ones, with its true curve values |
| `AuctionClearing.ScanFinds` | obr/src/full_order.cpp:218-312 | on a crossed book the scans always end with a deal price |
| `AuctionClearing.ChosenIsLeast` | obr/src/full_order.cpp:40-45 | the price chosen by `operator>` over the scan order minimises the imbalance among all feasible quoted prices |
| `AuctionClearing.TiesGoToHighestBid` | obr/src/full_order.cpp:218-312 | among equally good quoted prices the scans choose the highest bid price, and the lowest ask price if no bid price ties |
| `AuctionClearing.LeastImbalanceAnywhereIff` | obr/src/full_order.cpp:40-45 | that price is least among all integer prices if and only if some quoted price has as much bid above it as ask below it, or no unquoted price balances both sides |
| `AuctionClearing.LeastImbalanceAnywhereFails` | obr/src/full_order.cpp:40-45 | a concrete book on which an unquoted price has smaller imbalance |
| `AuctionMatching.OrderIterator.Begin` | obr/src/full_order.cpp:112-119 | the iterator starts at the first order |
| `AuctionMatching.OrderIterator.AdvanceToValid` | obr/src/full_order.cpp:161-173 | skips exhausted levels without passing an order |
| `AuctionMatching.OrderIterator.Current` | obr/src/full_order.cpp:121-123 | yields the order at its position of the price-time concatenation of the levels |
| `AuctionMatching.OrderIterator.Next` | obr/src/full_order.cpp:129-135 | moves on by exactly one order, and stays at the end |
| `AuctionMatching.OrderIterator.EndMeansAll` | obr/src/full_order.cpp:147-151 | the end test holds exactly when every order has been passed |
| `AuctionMatching.Settle` | obr/src/full_order.cpp:336-352 | after a trade steps past exactly the used-up order, copies the next one, and reports the end exactly when it is reached |
| `AuctionMatching.MatchOrders` | obr/src/full_order.cpp:321-356 | the walk stops where the best remaining bid is below the best remaining ask or a side is used up, both sides stand at the traded quantity, one trade is counted per cumulative break of either side, at most buys + sells - 1 |
| `AuctionMatching.StoppedIsMaximal` | obr/src/full_order.cpp:327-330 | where the walk stops no price could trade more |
| `AuctionMatching.WalkIsMaximal` | obr/src/full_order.cpp:321-356 | the walk trades exactly the maximal volume over all prices |
| `AuctionDepth.DepthConserves` | obr/src/full_order.cpp:361-386 | what is left of a side and what was traded add up to the side |
| `AuctionDepth.IteratorLevel` | obr/src/full_order.cpp:361-362 | the level under the iterator is the first one the walk did not use up |
| `AuctionDepth.ShownIsLeft` | obr/src/full_order.cpp:364-386 | taking the scan's remainder at the deal price and raw levels elsewhere shows exactly what the walk leaves |
| `AuctionEngine.BuildPrefixSums` | obr/src/full_order.cpp:204-216 | entry k holds the quantity before level k, the sentinel the total |
| `AuctionEngine.LookupMeasures` | obr/src/full_order.cpp:232-235 | a lookup yields the quantity strictly before a price and, with the level there, up to it, also for prices without a level |
| `AuctionEngine.OrderBook.BidQuantityAt` | obr/src/full_order.cpp:228-228 | the bid lookup with `operator[]`'s effect on the map |
| `AuctionEngine.OrderBook.AskQuantityAt` | obr/src/full_order.cpp:276-276 | the ask lookup with `operator[]`'s effect on the map |
| `AuctionEngine.OrderBook.ScanBids` | obr/src/full_order.cpp:218-267 | the result is the best of the crossing bid prices and the book is unchanged |
| `AuctionEngine.OrderBook.ScanAsks` | obr/src/full_order.cpp:269-312 | the result is the best of all crossing prices in scan order and the book is unchanged |
| `AuctionEngine.OrderBook.ShowSide` | obr/src/full_order.cpp:363-386 | the five cells of a side show the levels the walk leaves, best first or best last, zero beyond |
| `AuctionEngine.OrderBook.ClearCrossed` | obr/src/full_order.cpp:201-386 | for a crossed book the status satisfies `Reports` and the book is unchanged |
| `AuctionEngine.OrderBook.FlushStatus` | obr/src/full_order.cpp:194-386 | all fields zero unless crossed; else deal price first of least imbalance, volume positive and maximal over all integer prices, turnover, exact trade count, depth exactly as left by the walk with best bid below best ask; book unchanged |
| `AuctionEngine.OrderBook.InsertOrder` | obr/src/full_order.cpp:478-490 | the order joins its side, an unknown side is ignored, and the status reports the new book |
| `AuctionEngine.ScanSettles` | obr/src/full_order.cpp:314-315 | after both scans the optimum is set, feasible, of least imbalance and positive volume |
| `AuctionEngine.WalkSettles` | obr/src/full_order.cpp:206-356 | the greedy walk's total equals the scanned volume, is maximal over all prices, and leaves the best bid below the best ask |
| `AuctionEngine.ReportedTieBreak` | obr/src/full_order.cpp:218-314 | the reported deal price is the highest bid price among the equally good ones, else the lowest ask price |
| `AuctionEngine.ShownBestBidBelowBestAsk` | obr/src/full_order.cpp:363-386 | where prices fit in 32 bits the best bid cell is below the best ask cell, and a best cell is zero exactly when its side is used up |
| `AuctionEngine.LevelsArePriceTime` | obr/src/full_order.cpp:478-487 | over every insert sequence each side is well formed and its flattened levels are the price-time list of the orders |
| `AuctionEngine.InsertAll` | obr/src/full_order.cpp:478-490 | feeding a whole sequence of orders builds exactly the two sides that sequence determines |
| `MpscRing.NextKeepsInv` | ihs/include/kk.hpp:358-417 | every atomic step of any thread keeps the protocol invariant |
| `MpscRing.PopsInTicketOrder` | ihs/include/kk.hpp:350-417 | in every run of any number of producers pop has returned exactly the first claimed items in ticket order, each once |
| `MpscRing.SlotsAreExclusive` | ihs/include/kk.hpp:363-393 | in every run no slot is owned by two producers and the consumer never reads an owned slot |
| `MpscRing.FullOnlyWhenFull` | ihs/include/kk.hpp:365-382 | push gives up only if every slot holds a claimed, unreleased ticket at its sequence load |
| `MpscRing.TicketsRespectCalls` | ihs/include/kk.hpp:358-395 | in every run, when a push has won its ticket before another push begins, the later call's ticket is larger and carries its item, so pops follow the order of the calls |
| `MpscRing.GivesUpOnlyWhenFull` | ihs/include/kk.hpp:363-394 | in every run, whatever the step, a push that ends without having written ends because every slot holds a claimed, unreleased ticket |
| `MpscRing.FullPushGivesUp` | ihs/include/kk.hpp:365-382 | in every run a push with the current tail in hand gives up if and only if the ring is full |
| `MpscRing.PushCompletes` | ihs/include/kk.hpp:358-395 | in every run, on a ring that is not full, a producer about to push or within a push without a ticket brings its item in by its own steps: next claimed, published, nothing else changed |
| `MpscRing.PopCompletes` | ihs/include/kk.hpp:408-416 | in every run an item found ready is returned by the three remaining steps and its slot is given back |
| `MpscRing.NothingIsLost` | ihs/include/kk.hpp:398-406 | pop's check succeeds exactly when the head ticket is claimed and nobody is still filling it |
| `MpscRing.OneSlotLosesOrder` | ihs/include/kk.hpp:335-417 | a run of a one-slot ring whose first pop returns the second item |
| `MpscRing.OrderedIffTwoSlots` | ihs/include/kk.hpp:335-417 | ticket order holds in all runs exactly for rings of at least two slots |
| `BoundedFifo.AcceptedConserves` | ihs/include/kk.hpp:197-228 | whatever a bounded queue accepts conserves items and order |
| `CachedRing.StepRefines` | ihs/include/kk.hpp:198-228 | every step is a step of a queue of capacity N-1 or invisible, refusals included |
| `CachedRing.RingIsFifo` | ihs/include/kk.hpp:198-228 | every interleaving refines the queue of capacity N-1; the cached head is never ahead of the head |
| `CachedRing.TailSlotIsFree` | ihs/include/kk.hpp:203-210 | the producer's slot holds no live item, however stale the cached head |
| `CachedRing.NoLiveOverwrite` | ihs/include/kk.hpp:203-211 | in every run constructing an item leaves every live slot and the queue as they were |
| `CachedRing.EnqueueEnds` | ihs/include/kk.hpp:199-213 | in every run an enqueue ends only by putting the item it began with, or refused on a full queue, and the head is read again exactly when the cached one leaves no room |
| `CachedRing.ChecksAreExact` | ihs/include/kk.hpp:204-227 | in every run the refreshed check refuses exactly at N-1 items, the consumer finds nothing exactly when none is queued and comes back only with the front item |
| `CachedRing.EnqueueCompletes` | ihs/include/kk.hpp:199-213 | in every run the producer's own steps bring an enqueue to its end: the item is queued if fewer than N-1 are, and refused otherwise |
| `CachedRing.DequeueCompletes` | ihs/include/kk.hpp:216-228 | in every run a waiting consumer's own steps return the front item, and refuse exactly when the queue is empty |
| `FlaggedRing.StepRefines` | ihs/include/q.hpp:26-77 | every step is a step of a queue of capacity N-1 or invisible |
| `FlaggedRing.RingIsFifo` | ihs/include/q.hpp:26-77 | every interleaving refines the queue of capacity N-1 |
| `FlaggedRing.NotReadyIsUnreachable` | ihs/include/q.hpp:58-66 | once head was seen to differ from tail the ready test always succeeds |
| `FlaggedRing.PushEnds` | ihs/include/q.hpp:26-44 | in every run a push is refused exactly at N-1 items and otherwise ends only by putting the item it began with |
| `FlaggedRing.PopEnds` | ihs/include/q.hpp:55-77 | in every run the consumer finds nothing exactly when nothing is queued and comes back only with the front item |
| `FlaggedRing.PushCompletes` | ihs/include/q.hpp:26-44 | in every run the producer's own steps bring a push that is not refused to its end: the item is queued |
| `FlaggedRing.PopCompletes` | ihs/include/q.hpp:55-77 | in every run a waiting consumer's own steps return the front item, and refuse exactly when the queue is empty |
| `IndexQueues.MaskIsMod` | ihs/include/lq.hpp:36-36 | masking with 2^k - 1 is the remainder by 2^k |
| `IndexQueues.MaskedDifference` | ihs/include/lq.hpp:81-85 | the 64-bit wrapping subtract-and-mask equals the two-case formula |
| `IndexQueues.ModuloEnqueueIsAppend` | ihs/include/lock_queue.hpp:18-29 | for any capacity: appends, and refuses exactly when one cell short of full |
| `IndexQueues.ModuloDequeueIsFront` | ihs/include/lock_queue.hpp:31-40 | for any capacity: removes the front, and refuses exactly when empty |
| `IndexQueues.ModuloQueueIsList` | ihs/include/lock_queue.hpp:18-46 | for any capacity the modulo form answers every operation sequence as a bounded list does |
| `IndexQueues.EnqueueIsAppend` | ihs/include/lq.hpp:34-49 | the mask form appends exactly as the modulo form does |
| `IndexQueues.DequeueIsFront` | ihs/include/lq.hpp:52-66 | the mask form removes the front exactly as the modulo form does |
| `IndexQueues.SizeIsLength` | ihs/include/lock_queue.hpp:42-46 | both size formulas give the number of elements |
| `IndexQueues.QueuesAgree` | ihs/include/lq.hpp:34-85 | on every operation sequence both queues answer exactly as a bounded list |
| `IndexQueues.MaskQueue.Enqueue` | ihs/include/lq.hpp:34-49 | the object appends, or refuses and keeps its contents |
| `IndexQueues.MaskQueue.Dequeue` | ihs/include/lq.hpp:52-66 | the object removes and returns the front, or nothing when empty |
| `IndexQueues.MaskQueue.Size` | ihs/include/lq.hpp:81-85 | the number of elements |
| `IndexQueues.ModuloQueue.Push` | ihs/include/lock_queue.hpp:18-29 | the object of any capacity appends, or refuses and keeps its contents |
| `IndexQueues.ModuloQueue.Pop` | ihs/include/lock_queue.hpp:31-40 | the object of any capacity removes and returns the front, or nothing when empty |
| `IndexQueues.ModuloQueue.Size` | ihs/include/lock_queue.hpp:42-46 | the number of elements |
| `PacketPool.NextKeepsInv` | ihs/src/what.cpp:211-261 | every atomic step of receiver and workers, inside a push or pop included, conserves the buffers and keeps what each thread has seen of its ring current |
| `PacketPool.EachBufferOnce` | ihs/src/what.cpp:38-58 | in every run, in the middle of pushes and pops too, each of the 2000 buffers is in exactly one place and nothing else is anywhere |
| `PacketPool.OnlyOneFull` | ihs/src/what.cpp:165-170 | a full ring leaves room in every other ring |
| `PacketPool.AtMostOneFull` | ihs/src/what.cpp:75-83 | in every run at most one ring is full |
| `PacketPool.DispatchWithinTwo` | ihs/src/what.cpp:255-261 | in every run the second check at the latest finds room, and the room is still there when the tail is stored |
| `PacketPool.PacketReachesRing` | ihs/src/what.cpp:226-261 | in every run a received packet's buffer is brought by the receiver's own steps, with at most two checks, behind the contents of the first ring with room at or behind the worker index; the index stands one further, nothing else changes |
| `PacketPool.WorkerHandsBack` | ihs/src/what.cpp:104-116 | in every run a polling worker's own steps take the front buffer of its ring and give it back to the pool; with an empty ring it polls on |
| `PacketPool.RingsAreQueues` | ihs/src/what.cpp:75-92 | in every run a step changes a ring's contents only by the receiver's append or its own worker's removal of the front, which the worker then holds |
| `PacketPool.PoolIsQueue` | ihs/src/what.cpp:45-58 | in every run acquiring takes the pool's first buffer, if any, and a failed receive puts the buffer last |
| `PacketPool.ReadIsTaken` | ihs/src/what.cpp:85-92 | in every run the head store takes out exactly the buffer read before |
| `Timers.ClearExpires` | muduo/server.hpp:603-608 | clearing a slot destroys exactly the tasks whose last pointers are there, runs the callback of each one not cancelled once, and releases their ids |
| `Timers.OpsKeepSound` | muduo/server.hpp:666-695 | every operation, a caller's release of a live id included, leaves every `timers_` entry on a live task |
| `Timers.WeakPointersLock` | muduo/server.hpp:672-689 | in all runs, re-adds and releases of live ids included, no refresh or cancel locks a dead pointer |
| `Timers.DelayIsTimeout` | muduo/server.hpp:669-669 | the wheel's delay is the timeout exactly for timeouts 1 to 60 |
| `Timers.TickRelated` | muduo/server.hpp:729-732 | a step of the wheel is a tick of the deadline table: same callbacks, each once |
| `Timers.WheelIsTable` | muduo/server.hpp:666-732 | on every run, re-adds and releases of live ids included, the wheel runs in each operation exactly the callbacks of a table of deadlines, each once |
| `TimerSchedule.TableTells` | muduo/server.hpp:666-695 | on every run the table holds of each add what the operations alone say: alive, deadline, cancelled, found by its id |
| `TimerSchedule.FiresOnSchedule` | muduo/server.hpp:603-732 | on every run of a new wheel the callback of an add's task runs in an operation if and only if that is the tick a whole delay after the add, or after the last refresh that found the task, and no cancel found it |
| `TimerSchedule.CallbacksAreDueTasks` | muduo/server.hpp:729-732 | on every run the callbacks of an operation are those of the tasks due then, each once, and as many |
| `TimerSchedule.OncePerAdd` | muduo/server.hpp:603-608 | an add makes its callback run at most once in a whole run |
| `TimerSchedule.FoundIff` | muduo/server.hpp:666-695 | an id leads to an add's task exactly while there was no newer add and no release of the id and neither the task nor an older one of the id expired |
| `TimerSchedule.FiresById` | muduo/server.hpp:603-732 | without live re-adds the schedule can be read off the id: a whole delay after its add or last refresh, unless cancelled since |
| `TimerSchedule.LiveReAddBreaksSchedule` | muduo/server.hpp:666-671 | a run that re-adds a live id: the older task's callback still runs, and the newer task stays alive but can no longer be found |
| `TimerSchedule.Drive` | muduo/server.hpp:631-732 | a new wheel object put through any run returns, operation by operation, exactly the callbacks due |
| `Timers.TimerWheel.AddTimerTask` | muduo/server.hpp:666-671 | the object's new state is the added wheel, still sound |
| `Timers.TimerWheel.RefreshTimerTask` | muduo/server.hpp:672-681 | the object's new state is the refreshed wheel, still sound |
| `Timers.TimerWheel.CancelTimerTask` | muduo/server.hpp:682-689 | the object's new state is the cancelled wheel, still sound |
| `Timers.TimerWheel.ReleaseTimerTask` | muduo/server.hpp:690-695 | the object's new state is the wheel without that id in `timers_`, still sound |
| `Timers.TimerWheel.DropPointer` | muduo/server.hpp:603-608 | dropping one shared pointer destroys the task exactly if it was the last |
| `Timers.TimerWheel.ClearSlot` | muduo/server.hpp:731-731 | drops the current slot's pointers one by one, returning the callbacks run |
| `Timers.TimerWheel.Step` | muduo/server.hpp:729-732 | moves the hand and clears that slot, returning the callbacks run |
| `EventLoop.ExecutedInPushOrder` | muduo/server.hpp:791-798 | in every run executed, taken and queued tasks are the pushed tasks in order, each once |
| `EventLoop.WakeupNeverLost` | muduo/server.hpp:846-879 | in every run without interrupted writes a loop waiting with tasks queued has a positive counter or a pending write |
| `EventLoop.PushesAreExecutedInOrder` | muduo/server.hpp:791-879 | in every run executed, taken and queued tasks are exactly the tasks of the run's pushes, in order |
| `EventLoop.WriteAdds` | muduo/server.hpp:858-868 | a write adds one to the counter, up to 2^64 - 2, and ends its thread's push |
| `EventLoop.RoundClears` | muduo/server.hpp:765-775 | a woken loop reads the eventfd; a round without further pushes ends asleep with counter zero and no task left |
| `EventLoop.InterruptedWriteLosesWakeup` | muduo/server.hpp:858-868 | a run through the `EINTR` branch that leaves a queued task without a wake-up |
| `EventLoop.WakeupLostIff` | muduo/server.hpp:791-879 | every run leaves a wake-up lost if and only if the loop is back in its wait, a task was pushed after the last swap, every push has had its write, and no write since the last read went through |
| `EventLoop.QueuedTasksRun` | muduo/server.hpp:765-879 | from every state of a run without interrupted writes, the pending writes and the loop's own steps lead to a state in which all pushed tasks have been executed in push order |
| `ConnectionOutput.StreamIsPreserved` | muduo/server.hpp:1088-1144 | until release, written bytes followed by the buffer are the accepted bytes, and a non-empty buffer has write interest on |
| `ConnectionOutput.ShutdownFlushesIff` | muduo/server.hpp:1145-1163 | every byte accepted before a shutdown is written before the release, however the run goes on, if and only if the shutdown finds no release queued or nothing unsent |
| `ConnectionOutput.LateShutdownDrops` | muduo/server.hpp:1145-1171 | a run that reaches a shutdown which does not flush |
| `ConnectionOutput.DrainedIsReleased` | muduo/server.hpp:1098-1106 | in every run a connection that is shutting down with nothing left to write has its release queued |
| `ConnectionOutput.ShutdownEnds` | muduo/server.hpp:1088-1163 | in every run, after a shutdown any write events that take all unsent bytes lead to a queued release with every accepted byte written; one event can |
| `ConnectionOutput.WriteMovesFirst` | muduo/server.hpp:1089-1106 | in every run a write event moves exactly the first unsent bytes to the socket |
| `ConnectionOutput.Connection.SendInLoop` | muduo/server.hpp:1138-1144 | appends the bytes and turns write interest on, unless disconnected |
| `ConnectionOutput.Connection.WriteHandler` | muduo/server.hpp:1098-1106 | takes the written bytes off the front; when none is left turns write interest off and, while disconnecting, queues the release |
| `ConnectionOutput.Connection.SendEach` | muduo/server.hpp:1148-1152 | the message callback's sends, joined in order, unless disconnected |
| `ConnectionOutput.Connection.ShutdownInLoop` | muduo/server.hpp:1145-1163 | disconnecting; the callback's sends are buffered; the release is queued exactly if nothing is unsent |
| `ConnectionOutput.Connection.CloseHandler` | muduo/server.hpp:1109-1115 | the callback's sends, then one more queued release |
| `ConnectionOutput.Connection.WriteError` | muduo/server.hpp:1091-1097 | the callback's sends, then one more queued release |
| `ConnectionOutput.Connection.EstablishedInLoop` | muduo/server.hpp:1130-1137 | connected, nothing else changes |
| `ConnectionOutput.Connection.ReleaseInLoop` | muduo/server.hpp:1164-1170 | disconnected, released, write interest off, one queued release less |
| `ByteBuffers.BufferCapacityBounded` | muduo/server.hpp:79-129 | in every run the capacity is at most the initial one or twice the peak number of live bytes |
| `ByteBuffers.SimpleCapacityBounded` | muduo/include/SimpleBuffer.hpp:20-77 | the same for the compacting, doubling buffer |
| `ByteBuffers.RunBoth` | muduo/include/SimpleBuffer.hpp:20-77 | on every run of appends and in-bounds reads both objects hold exactly the reference byte queue, within the capacity bound |
| `ByteBuffers.Buffer.EnsureWritableSpaceEnough` | muduo/server.hpp:95-112 | as it is when the tail has room, slid to the front when that is enough, else grown at the tail by exactly what is missing; contents unchanged |
| `ByteBuffers.Buffer.WriteAndPushOffSet` | muduo/server.hpp:114-129 | appends the bytes to the queue |
| `ByteBuffers.Buffer.ReadAndPushOffSet` | muduo/server.hpp:161-175 | removes and returns the front bytes |
| `ByteBuffers.SimpleBuffer.Compact` | muduo/include/SimpleBuffer.hpp:71-78 | moves the live bytes to the front, contents unchanged |
| `ByteBuffers.SimpleBuffer.EnsureCapacity` | muduo/include/SimpleBuffer.hpp:50-69 | as it is, compacted, or moved to a block of twice the size or of what is needed; contents unchanged |
| `ByteBuffers.SimpleBuffer.Write` | muduo/include/SimpleBuffer.hpp:20-26 | appends the bytes to the queue |
| `ByteBuffers.SimpleBuffer.Advance` | muduo/include/SimpleBuffer.hpp:28-38 | drops the front bytes, resetting or compacting |
| `Codec.EncodePacket` | muduo/protocol.hpp:8-20 | writes the type, the data length in four little-endian bytes and each data byte plus 0x4A or 0x51 by turns, and nothing behind; leaves the output untouched when they do not fit |
| `Codec.EncodeFrame` | muduo/example/main.cpp:61-73 | the same with a length that counts the header |
| `Codec.DecodeInto` | muduo/protocol.hpp:22-39 | too short, header only, or the whole packet: exactly what each case writes, with the length field and the offsets taken off spelled out |
| `Codec.PacketRoundTrip` | muduo/protocol.hpp:8-39 | decoding an encoded packet, with anything behind it, gives type, length and data back |
| `Codec.DecodeTimeStamp` | muduo/example/main.cpp:139-151 | the eight bytes, 0x4A or 0x51 taken off by turns, as a little-endian number |
| `Codec.StampRoundTrip` | muduo/example/main.cpp:120-150 | every 64-bit time survives the header |
| `Codec.EncodeHeaderWithTimeStamp` | muduo/example/main.cpp:114-125 | type 3, the length in little-endian bytes, and the time in eight little-endian bytes plus 0x4A or 0x51 by turns |
| `Framing.FrontIs` | muduo/example/main.cpp:88-112 | the decoder's decision byte by byte: type 2, a little-endian length that is not negative, and as many bytes |
| `Framing.ParseResumes` | muduo/example/main.cpp:88-112 | decoding a longer stream resumes where decoding its front stopped |
| `Framing.ChunkIndependence` | muduo/example/main.cpp:173-195 | for every byte stream and every way of cutting it, bodies and buffered rest are those of the whole stream |
| `Framing.FramesArrive` | muduo/example/main.cpp:173-195 | frames and part of a last one, cut anyhow: the bodies in order, each once, and exactly the partial frame in the buffer |
| `Framing.ParseLosesNothing` | muduo/example/main.cpp:88-112 | the bodies framed again, followed by the rest, are the bytes received |
| `Framing.StuckIffStalled` | muduo/example/main.cpp:94-101 | kept bytes are never decoded, whatever follows, if and only if they start with a foreign type or a negative length |
| `Framing.ClientDataArrives` | muduo/example/main.cpp:61-112 | what the client's encoder framed is, cut up, decoded and unshifted, the client's data |
| `Framing.CubeServer.Decode` | muduo/example/main.cpp:88-112 | takes the header off exactly when a frame is complete; the timestamp read stays inside the buffer's block |
| `Framing.CubeServer.RelayFrame` | muduo/example/main.cpp:179-192 | one turn of the loop sends a stamped header and the body, and leaves what follows the frame |
| `Framing.CubeServer.OnMessage` | muduo/example/main.cpp:173-195 | for each body a 13-byte header with its length and time and then the body; over the whole life of the connection what was relayed and what is buffered are the stream decoder's result for everything received |
| `SharedFraming.CleanHandoversDeliver` | muduo/example/main.cpp:173-198 | with one buffer for all connections, each is sent exactly the bodies of its own bytes if every connection has ended a frame when another takes over |
| `SharedFraming.ServesNewcomerIff` | muduo/example/main.cpp:173-198 | a connection that takes over has every whole frame served right if and only if nobody else's bytes are left in the buffer |
| `SharedFraming.FramesMix` | muduo/example/main.cpp:173-198 | two connections whose frames mix: the second is sent a byte of its own header as a body |
| `FixText.StoiOfTagText` | ihs/src/fix42.cpp:241-283 | every 32-bit tag, negative ones included, is read back from its text |
| `FixText.StoiIs` | ihs/src/fix42.cpp:283-283 | reading a tag: leading space, a sign, the longest run of digits, ignored when empty or out of the 32-bit range |
| `Fix42.SerializeBody` | ihs/src/fix42.cpp:235-243 | the entries in ascending tag order without tags 8, 9 and 10 |
| `Fix42.SerializedIs` | ihs/src/fix42.cpp:246-257 | the text of a message letter by letter, the length field's value being the body's length |
| `Fix42.BodyIs` | ihs/src/fix42.cpp:236-243 | the body, entry by entry from the largest tag down, without 8, 9 and 10 |
| `Fix42.Serialize` | ihs/src/fix42.cpp:234-258 | "8=FIX.4.2", "9=" with the body's length, the body and "10=" with the byte sum modulo 256 in three digits, each closed by the separator |
| `FixText.ByteSumIs` | ihs/src/fix42.cpp:555-558 | the byte sum, byte by byte |
| `Fix42.CalculateChecksum` | ihs/src/fix42.cpp:554-565 | the byte sum modulo 256 in three digits, although the running sum wraps at 32 bits |
| `Fix42.Deserialize` | ihs/src/fix42.cpp:260-294 | every separator-terminated field with a readable tag is stored, the last one winning; fails exactly when none is |
| `Fix42.DecodedIs` | ihs/src/fix42.cpp:267-291 | parsing goes field by field up to the separator; what is not closed by one is ignored |
| `Fix42.PutIs` | ihs/src/fix42.cpp:275-288 | a field is stored under the tag in front of its first '=', and ignored without '=' or without a readable tag |
| `Fix42.RoundTrip` | ihs/src/fix42.cpp:234-294 | parsing a serialised message gives its fields with 8, 9 and 10 set to version, true body length and checksum |
| `Fix42.RoundTripIff` | ihs/src/fix42.cpp:234-294 | it does so if and only if no value holds the separator |
| `Fix42.ParsedTrailer` | ihs/src/fix42.cpp:234-294 | parsing a serialised message gives under 8 the version, under 9 the body's length, and under 10 the three-digit byte sum modulo 256 of everything before the trailer |
| `FixValidation.ValidatesIff` | ihs/src/fix42.cpp:519-552 | every message, however made, is accepted if and only if it has the required tags, the version, mirrored ids, and under 10 the three-digit byte sum modulo 256 of what stands before the first "10=" |
| `FixValidation.AcceptedIff` | ihs/src/fix42.cpp:519-552 | a serialised message is accepted if and only if it is complete, addressed to the receiver, and the bytes between the first "10=" and the trailer sum to zero modulo 256 |
| `FixValidation.HeaderMentions` | ihs/src/fix42.cpp:544-544 | "10=" occurs before the trailer if and only if some tag ends in 10 or some value contains it |
| `FixValidation.StopsAtTrailerIff` | ihs/src/fix42.cpp:544-545 | the validator sums exactly the checksummed bytes if and only if no tag ends in 10 and no value contains "10=" |
| `FixValidation.UnambiguousIsAccepted` | ihs/src/fix42.cpp:519-552 | such a message is accepted if and only if it is complete and addressed to the receiver |
| `FixValidation.TrailingTenTag` | ihs/src/fix42.cpp:543-549 | a complete message whose last tag ends in 10 is accepted exactly when 159 plus that value's byte sum is a multiple of 256 |
| `FixValidation.CompleteYetRejected` | ihs/src/fix42.cpp:543-549 | a concrete complete message that is turned away |

## Left out

- Machine widths of the auction: quantity sums, the turnover product and trade counts are unbounded; displayed prices and sizes are truncated to 32 bits explicitly. Prices lie strictly between 0 and the largest 64-bit integer, which the prefix sums use as sentinels, and quantities are positive.
- Printing of the status, order cancellation and the reconstructor around the order book.
- `size()` of the cached-head ring, which loads head and tail separately.
- Weak memory: the rings, the pool and the event loop interleave atomic steps sequentially consistently, and ticket counters are unbounded. A spurious failure of the weak exchange is a step of its own.
- Masked ring indices in `MpscRing`, `CachedRing` and `FlaggedRing` are written as remainders; `MaskIsMod` justifies it for the power-of-two sizes the source asserts.
- Both `MPSCQueue` classes, which write a slot before owning it, and `SPSCRingBuffer` in ihs/include/kk.hpp.
- Packet contents and burst accounting of the pool's receiver, and worker shutdown.
- Timer callbacks that call back into the wheel, reading the timerfd, and the queueing of wheel operations on the loop.
- `SubReactor`'s timers and send path, inactive-connection release, connection callbacks other than what they send, sockets and epoll. A message callback that shuts the connection down is not modelled.
- `Framing.CubeServer` is a server with a single connection; what the one `buffer_` of the source (muduo/example/main.cpp:198) does to several connections is the subject of `SharedFraming`, on values.
- Writing a `Buffer` into itself.
- Bodies of negative size: a frame length below five has no defined behaviour in the source; `Framing.CubeServer.OnMessage` stops there and says so. Bodies of fewer than eight bytes are relayed, and the timestamp logged for them, which the source reads from the bytes behind, is unspecified.
- Codec.EncodePacket: data longer than 2^32 - 6 bytes, where the 32-bit size test wraps, is excluded; the same holds for `Codec.EncodeFrame`.
- Codec.DecodeInto: a length field within five of 2^32 makes the source read out of bounds; that case is excluded.
- Byte order: integers are copied to the wire little-endian. Clock readings are parameters.
- A FIX message's characters stand for bytes (taken modulo 256 in the checksum); sessions, sequence numbers, the receive loop that splits on every separator, and ihs/src/encoder.cpp and ihs/src/parser.cpp are not modelled.
