# An order book for the NSE MTBT feed, modelled and proved

The program keeps one limit order book per contract from a multicast feed. Receivers put messages into lock-free
ring buffers; one consumer merges them by stream and sequence number and applies them to the books. This project
models that path in Dafny and proves what it keeps.

| Part | Files | What is proved |
|---|---|---|
| Level lists | `Orders` | the intrusive doubly linked FIFO is a sequence; add and remove at any place |
| Skip list of levels | `SkipLists`, `PriceTrees` | for any node heights the multi-level chain is exactly a sorted finite map from price to level |
| Id index | `OrderMaps`, `Core`, `Bits` | a finite map with buckets of eight; the hash is a bijection |
| Pool | `Allocators` | pooled orders hang on nothing |
| One contract | `Contracts` | trees, lists and index together are one mathematical book after every handler |
| The book | `Books`, `BookInvariants`, `Actions` | invariants over every run of messages |
| Id view | `Views` | side, price and quantity by id, a function of the messages on every run |
| Totals | `Totals`, `Feeds` | exactly when totals stay exact, step by step and over whole feeds; conservation; what a fill takes |
| Abstract book | `SimpleBooks` | refinement of id → (side, price, quantity) plus a queue of ids per side and price |
| Trade cancel | `RoundTrips` | exactly when cancelling a trade restores the book |
| Ring buffer | `SpscQueues`, `RingBuffers` | linearizability of every interleaving of micro-steps; the code as one such schedule |
| Sequence merger | `Mergers`, `MergerRuns`, `MergerDrains`, `SequenceMergers` | conservation, per-stream order, draining, k-way merge; the code |
| Rings and merger | `Pipelines` | the rings' micro-steps and the merger as one system that refines the merger's machine |
| Message meanings | `Meanings` | what each message type does to orders, index, queues and totals, written out from its own fields |
| Message handler | `Outcomes`, `MessageHandlers`, `Sessions` | contracts, pool and merger share nothing; what each message and the main loop make of every book |
| Rings, merger and books | `Markets` | from Enqueue to the books over every interleaving |

The proof has three layers. Classes with the source's own fields (orders, levels, nodes, buckets, contracts, the
handler) are tied by their contracts to a mathematical book whose keys are order objects (`Books.Book`): each
handler's new book is a function of the old one. Over that book the lemmas range over all runs, with any ids, any
failing `Put` and any behaviour of the pool. The abstract book of ids comes last, and
`MessageHandlers.MessageHandler.BookRefined` joins all three: throughout the life of a contract its trees, lists and
index hold exactly what the abstract book says, if and only if ids were new, buckets had room and no quantity
overflowed. What one call does is stated on the book before and after it, as acts on the book (`Outcomes.Applied`), so
that the theorems about steps and runs hold of the code's messages and of its main loop, and once more from the
message's own fields, naming none of the handlers' functions (`Meanings.Meant`). Objects rather than ids are the keys
of the middle layer because the same id may be carried by two linked orders.

Threads are modelled by interleaving their atomic steps, since Go's atomic operations are sequentially consistent. A
pool may hand out any pooled object or a new one, and may forget pooled objects at any time. Machine integers wrap where
the source's do.

Properties that hold only under a condition are stated with it, as an if-and-only-if:

- Every linked order is the one its id finds until a new order comes under a live id or into a full bucket, whatever the
  quantities; an orphan is never found again (`MessageHandlers.MessageHandler.NoOrphans`, `SimpleBooks.RunClean`,
  `SimpleBooks.DuplicateLeavesOrphan`, `SimpleBooks.FullBucketLeavesOrphan`).
- Trees, lists and index hold the abstract book until that happens or the quantity of a fill or restore overflows
  (`MessageHandlers.MessageHandler.BookRefined`, `SimpleBooks.RunRefines`).
- A fill of q on a resting Q lowers its level's total by min(q, Q) until the difference or the total overflows
  (`Totals.FillTakesMin`, `MessageHandlers.MessageHandler.FillsTakeMin`).
- A level total is the sum of its orders until an int32 difference or an int64 sum overflows (`Totals.StepExact`,
  `Totals.RestoreOverflows`). Over a feed of at most 2^31 acts the int64 sums never do, and the int32 differences are a
  function of the messages (`Feeds.AlwaysExactIff`).
- A trade and its cancellation restore the book exactly when each order id in the message is zero, or finds an order
  that survives its fill or is what the message describes (`RoundTrips.RoundTrip`). An id the book does not hold comes
  back as an order that never was (`RoundTrips.PhantomOrder`); a full fill at another price comes back at the message's
  (`RoundTrips.OtherPriceLost`); one order named on both sides has a condition of its own
  (`RoundTrips.TwiceRoundTrip`). `Sessions.TradeThenCancel` states the same of the code.
- The ring buffer is right until item number 2^64 (`SpscQueues.NextInv`, `RingBuffers.WrapHidesItem`).
- Per-stream order holds exactly until a stream that awaits number 2^32 - 1 finds it at the oldest head
  (`MergerRuns.RunOrdered`, `MergerRuns.WrapRestartsStream`). The delivered numbers themselves go on increasing until
  the next delivery on that stream, and fail there (`MergerRuns.IncreasesUntilLast`).
- A call of the merger panics exactly when it polls fewer than four queues over a gap of one to eight
  (`MergerDrains.GetNextExactly`, `MergerDrains.SmallGapPanics`).
- Removing a level is safe exactly when it is empty, which the source does not check (`Actions.RemoveLevelPlaced`,
  `Contracts.Contract.RemoveLevel`).

Where the code and its own text disagree, the model follows the code. The comment on `handleTrade` promises to handle
the spread trade 'K', but `ProcessMessage` has no case for it, so it does nothing. `GetNextMessage` speaks of the
oldest timestamp but compares (SeqNo, StreamID). `tests/performance_test.go:251-252` expects one stream to be drained
before the other, which the code does not do. `remove` is described as deleting a level if it is empty but does not
look.

## Model

| member | source | states |
|---|---|---|
| Core.FastHash64Bijective | internal/core/types.go:165-172 | the hash of a 64-bit key has a two-sided inverse, for every key |
| Core.SlotCollision | internal/orderbook/orderbook.go:65-66 | two ids share a bucket exactly when their hashes agree in the masked bits, and never when all 64 bits are kept |
| Bits.PowerOfTwoTest | internal/core/spsc_queue.go:27-30 | the constructor's bit test accepts exactly the powers of two |
| Bits.AndMaskIsMod | internal/core/spsc_queue.go:53-53 | masking an index is taking it modulo the buffer length |
| OrderMaps.OrderMap.constructor | internal/orderbook/orderbook.go:41-61 | the table is empty and its size the least power of two that reaches the capacity |
| OrderMaps.LeastPowerExact | internal/orderbook/orderbook.go:41-46 | a capacity that is a power of two is taken as it is |
| OrderMaps.OrderMap.Get | internal/orderbook/orderbook.go:64-74 | lookup in the finite map the buckets stand for |
| OrderMaps.OrderMap.Put | internal/orderbook/orderbook.go:77-97 | update of that map; false, and no change, exactly when the id is absent and its bucket holds eight; still an index exactly when the order carries the id it is stored under |
| OrderMaps.OrderMap.Delete | internal/orderbook/orderbook.go:100-116 | removal from that map, reporting whether the id was there |
| OrderMaps.HoldsDeleted | internal/orderbook/orderbook.go:106-111 | shifting the rest of a bucket down by one leaves it packed with exactly the other ids |
| OrderMaps.ShiftDown | internal/orderbook/orderbook.go:106-111 | the places behind the removed one move down by one and the last becomes nil |
| OrderMaps.HoldsCount | internal/orderbook/orderbook.go:35-38 | a bucket's count is the number of ids of the map that hash to it |
| OrderMaps.OrderMap.SizeBounded | internal/orderbook/orderbook.go:35-54 | the index holds as many orders as its bucket counts add up to, at most eight times the number of buckets |
| Orders.AddOrderToLevel | internal/orderbook/orderbook.go:270-284 | the level's list becomes the old sequence with the order at its tail; the total grows by its quantity |
| Orders.RemoveOrderFromLevel | internal/orderbook/orderbook.go:287-314 | the level's list becomes the old sequence without that place, wherever it was; an order with no level is left alone |
| Orders.JoinedLinked | internal/orderbook/orderbook.go:294-304 | joining the two neighbours of a place gives the list of the sequence without it |
| Allocators.OrderAllocator.AllocateOrder | internal/orderbook/allocator.go:38-43 | an order with every field reset, new or pooled before and pooled no longer, for any behaviour of the pool |
| Allocators.OrderAllocator.FreeOrder | internal/orderbook/allocator.go:46-52 | an order that is not pooled yet joins the pool with all three links nil, so that nothing is handed out twice |
| PriceTrees.Rng.RandomLevel | internal/orderbook/orderbook.go:253-267 | the height is the number of odd draws before the first even one, at most 16 |
| PriceTrees.HeightIsOddRun | internal/orderbook/orderbook.go:253-267 | a drawn height is the number of odd draws before the first even one, at most 16, and the generator has moved by exactly the draws made |
| PriceTrees.NextParity | internal/orderbook/orderbook.go:264-267 | the low bit of the generator alternates |
| PriceTrees.SeededDraw | internal/orderbook/orderbook.go:253-267 | from seed 1 a height takes at most two draws, is 0 at first and 1 ever after |
| PriceTrees.SeedHeights | internal/orderbook/orderbook.go:253-267 | the whole sequence of heights from seed 1 is 0, 1, 1, ... |
| PriceTrees.PriceTree.constructor | internal/orderbook/orderbook.go:151-170 | a new tree is a valid skip list of no levels |
| PriceTrees.PriceTree.Walk | internal/orderbook/orderbook.go:198-200 | walking right on one level stops at the last node on it before the price |
| PriceTrees.PriceTree.Predecessors | internal/orderbook/orderbook.go:211-220 | the search records, on every level, the last node before the price |
| PriceTrees.PriceTree.Find | internal/orderbook/orderbook.go:194-207 | the first node not before the price, nil when there is none: the price's own node exactly when the tree has the price |
| PriceTrees.InsertedChain | internal/orderbook/orderbook.go:210-242 | a node put at its rank keeps the chain strictly sorted and equal to the map with the new price |
| PriceTrees.SplicedThreaded | internal/orderbook/orderbook.go:238-241 | after the pointer updates every forward pointer, on every level, reaches the next node tall enough, for any height |
| PriceTrees.Splice | internal/orderbook/orderbook.go:222-241 | inserting a node of any height up to the maximum gives the skip list of the enlarged map |
| PriceTrees.PriceTree.Insert | internal/orderbook/orderbook.go:210-242 | the map gains the price; a tree of drawn heights stays at height one |
| PriceTrees.PriceTree.GetOrCreate | internal/orderbook/orderbook.go:173-191 | the price's level, unchanged when present, else a new or recycled empty one added to the map |
| PriceTrees.PriceTree.First | internal/orderbook/orderbook.go:322-324 | the first node carries the best key, and is missing only when there is none |
| PriceTrees.PriceTree.GetBestBid | internal/orderbook/orderbook.go:317-326 | the level of the greatest price; nil exactly for an ask tree or an empty one |
| PriceTrees.PriceTree.GetBestAsk | internal/orderbook/orderbook.go:329-338 | the level of the least price; nil exactly for a bid tree or an empty one |
| PriceTrees.RemovedChain | internal/orderbook/orderbook.go:341-369 | the chain without a node is strictly sorted and equal to the map without its price |
| PriceTrees.BypassedThreaded | internal/orderbook/orderbook.go:357-360 | after the pointer updates every level skips the removed node and nothing else |
| PriceTrees.BypassGuard | internal/orderbook/orderbook.go:358-358 | the loop test holds exactly on the levels the removed node reaches |
| PriceTrees.Shrink | internal/orderbook/orderbook.go:363-365 | maxLevel comes down to the height of the tallest node left |
| PriceTrees.PriceTree.Remove | internal/orderbook/orderbook.go:341-369 | the map loses the price, its level is pooled unseen, and an absent price changes nothing |
| BookInvariants.AdmitWellFormed | internal/orderbook/message_handler.go:106-141 | a new order keeps the book well formed, even under a live id or when Put fails |
| BookInvariants.RepriceWellFormed | internal/orderbook/message_handler.go:159-173 | a price change keeps the book well formed and touches only that order's price |
| BookInvariants.RequantifyWellFormed | internal/orderbook/message_handler.go:176-182 | a quantity change keeps the book well formed, even when the int32 difference wraps |
| BookInvariants.ModifyWellFormed | internal/orderbook/message_handler.go:143-185 | a modification keeps the book well formed |
| BookInvariants.TakeOutWellFormed | internal/orderbook/message_handler.go:202-208 | a cancellation keeps the book well formed |
| BookInvariants.FillWellFormed | internal/orderbook/message_handler.go:267-279 | one leg of a trade keeps the book well formed, over-fills included |
| BookInvariants.RestoreWellFormed | internal/orderbook/message_handler.go:282-314 | one leg of a trade cancel keeps the book well formed |
| Actions.UnknownRules | Docs/MTBT_FO_NNF_PROTOCL_6.7_0.txt:379-391 | modifying an unknown order is adding it, cancelling one does nothing |
| Actions.ReviseRules | internal/orderbook/message_handler.go:159-182 | the same price keeps every queue; another price moves the order to the tail of that price on its own side, and only these two queues change |
| Actions.RunWellFormed | internal/orderbook/message_handler.go:81-314 | over every run each linked order is once in the one level of its side and price, every id finds a linked order that carries it, and no bucket exceeds eight |
| Actions.OthersUntouched | internal/orderbook/message_handler.go:106-314 | a message leaves every order that carries another id, and every other index entry, as they were |
| Actions.QueueDiscipline | internal/orderbook/message_handler.go:106-314 | in one step a level's queue stays, loses one order or gains one at its tail: no order overtakes another |
| Actions.RemoveLevelPlaced | internal/orderbook/orderbook.go:341-369 | taking a level out of a tree keeps every linked order in a level exactly when the level is empty |
| Totals.StepExact | internal/orderbook/message_handler.go:106-314 | totals that are the sums of their orders stay so exactly when no int32 difference and no int64 sum of the step overflows |
| Totals.MoveExact | internal/orderbook/message_handler.go:159-182 | the same for a change of price and quantity together, where an overflow in between may cancel out |
| Totals.FillExact | internal/orderbook/message_handler.go:267-279 | the same for one leg of a trade |
| Totals.RestoreOverflows | internal/orderbook/message_handler.go:285-290 | a restore beyond the largest int32 wraps the quantity and breaks the total |
| Totals.FillTakesMin | internal/orderbook/message_handler.go:267-279 | a fill of q on a resting Q lowers its level's total by exactly min(q, Q) exactly when difference and sum fit, and never another level's |
| Totals.StepConserves | internal/orderbook/message_handler.go:106-314 | one step moves the sum of all level totals by what it adds, changes, restores, cancels or can fill |
| Feeds.FeedOverflowsNothing | internal/orderbook/message_handler.go:106-314 | at most 2^31 acts whose int32 differences fit, a condition on the messages, overflow no int64 total either |
| Feeds.FeedConserves | internal/orderbook/message_handler.go:106-314 | from an empty book and over every such feed totals stay exact and their sum is what the messages added less what they took |
| Feeds.AlwaysExactIff | internal/orderbook/message_handler.go:106-314 | over every such run totals are exact throughout exactly when every int32 difference the messages ask for fits |
| Feeds.RunNonNegative | internal/orderbook/message_handler.go:106-314 | messages without negative quantities never make a negative order |
| Views.StepView | internal/orderbook/message_handler.go:106-314 | what the index knows after a step depends only on what it knew and on the message |
| Views.RunView | internal/orderbook/message_handler.go:81-314 | what the index knows is a function of the messages over every run, duplicates, full buckets and overflow included |
| SimpleBooks.StepClean | internal/orderbook/message_handler.go:127-138 | the levels and the index hold the same orders after a step exactly when it admits no live id and its Put succeeds |
| SimpleBooks.OrphanStays | internal/orderbook/message_handler.go:106-314 | an order that its id does not find is never found again, and never leaves |
| SimpleBooks.RunClean | internal/orderbook/message_handler.go:106-314 | over every run, overflow included, the levels and the index hold the same orders at the end exactly when they did at first and every admission was of a new id with room |
| SimpleBooks.DuplicateLeavesOrphan | internal/orderbook/message_handler.go:106-141 | two new orders under one id leave the first where no id finds it |
| SimpleBooks.FullBucketLeavesOrphan | internal/orderbook/message_handler.go:106-141 | nine new orders with new ids that share a bucket: the ninth rests where no id finds it |
| SimpleBooks.StepRefines | internal/orderbook/message_handler.go:81-314 | a step of the book is the step of the abstract book of ids and queues, with index and levels still in agreement, exactly when ids are new, buckets have room and the quantity fits |
| SimpleBooks.RunRefines | internal/orderbook/message_handler.go:81-314 | the abstract book describes the book throughout a run exactly when every message of the run is such |
| SimpleBooks.AgreesAtEnd | internal/orderbook/message_handler.go:81-314 | and then the final book is the abstract run's |
| RoundTrips.CancelledView | internal/orderbook/message_handler.go:212-314 | what is known of every id after a trade and its cancellation, for any ids on its two sides |
| RoundTrips.CancelledLevel | internal/orderbook/message_handler.go:212-314 | every level's total and queue afterwards: survivors keep their place, orders filled up leave theirs, orders the cancel makes stand at the tail of the message's price |
| RoundTrips.RoundTrip | internal/orderbook/message_handler.go:212-314 | ids, sides, prices, quantities, totals and counts all come back exactly when each id of the message is zero, or finds an order that survives its fill or agrees with the message |
| RoundTrips.TwiceRoundTrip | internal/orderbook/message_handler.go:212-314 | one order named on both sides comes back exactly when it survives both fills or is a buy at the message's price of twice its quantity |
| RoundTrips.FeedRoundTrip | internal/orderbook/message_handler.go:81-314 | the same for a T message followed by a C message with the same data |
| Outcomes.OutcomeOthers | internal/orderbook/message_handler.go:106-314 | over any messages, an order whose id none of them names keeps all its fields |
| Outcomes.NoneOvertakes | internal/orderbook/message_handler.go:106-314 | over any messages, an order whose id none of them names stays ahead of every order behind it and of every later one |
| Outcomes.OutcomeOfRevise | internal/orderbook/message_handler.go:143-185 | what a modification message for a known id makes of every queue, of the index and of the orders |
| Outcomes.FedAllIs | internal/orderbook/message_handler.go:81-104 | the acts filed under a token are those of the messages to it, in order |
| Meanings.AdmitMeans | internal/orderbook/message_handler.go:115-138 | an order that was in no level joins the tail of the queue of its side byte and price with the given fields; its id finds it exactly when known or its bucket holds fewer than eight; that total grows by the quantity; nothing else changes |
| Meanings.ModifyMeans | internal/orderbook/message_handler.go:149-184 | a known order takes price and quantity and keeps id and side; its queues and totals change as at an old or at another price, and nothing else |
| Meanings.CancelMeans | internal/orderbook/message_handler.go:194-208 | a known order leaves the book, the index and its queue, its quantity leaves that total, and nothing else changes |
| Meanings.FillMeans | internal/orderbook/message_handler.go:267-279 | id zero and unknown ids are ignored; an order with something left keeps its place with the rest; any other is gone with what it had |
| Meanings.RestoreMeans | internal/orderbook/message_handler.go:282-314 | id zero is ignored; a known order takes the quantity back in place; an unknown one is a new order of the given side, price and quantity |
| Meanings.AppliedMeans | internal/orderbook/message_handler.go:81-255 | N, G, M, H, X, J, T and C mean these things for the fields the message carries, at the token it carries; every other message leaves every book alone |
| RoundTrips.PartialRoundTrip | internal/orderbook/message_handler.go:212-290 | when both orders survive, the very same book comes back |
| RoundTrips.OtherPriceLost | internal/orderbook/message_handler.go:292-300 | a full fill at another price than the order's own does not come back |
| RoundTrips.PhantomOrder | internal/orderbook/message_handler.go:291-313 | on an empty book a trade of buy 7 changes nothing and its cancellation leaves an order |
| Contracts.Contract.constructor | internal/orderbook/message_handler.go:369-374 | a new contract stands for the empty book |
| Contracts.Contract.LevelFound | internal/orderbook/message_handler.go:179-181 | a linked order points to the level object of its side and price, so the nil guards never fail |
| Contracts.Contract.PlantLevel | internal/orderbook/message_handler.go:129-137 | GetOrCreate on the tree the side selects changes no level in use |
| Contracts.Contract.NewOrder | internal/orderbook/message_handler.go:115-138 | trees, lists and index become the book with the order admitted; the object was in no level |
| Contracts.Contract.ModifyOrder | internal/orderbook/message_handler.go:149-184 | trees, lists and index become the modified book |
| Contracts.Contract.CancelOrder | internal/orderbook/message_handler.go:194-208 | trees, lists and index become the book without the order, which is pooled; an unknown id changes nothing |
| Contracts.Contract.FillOrder | internal/orderbook/message_handler.go:267-279 | trees, lists and index become the filled book; the order joins the pool exactly when nothing of it is left |
| Contracts.Contract.RestoreOrder | internal/orderbook/message_handler.go:282-314 | trees, lists and index become the restored book |
| Contracts.Contract.RemoveLevel | internal/orderbook/orderbook.go:341-369 | taking out an empty level leaves a valid contract without it; from another level its orders point to a level that is pooled and in no tree |
| Contracts.Contract.Perform | internal/orderbook/message_handler.go:106-314 | any act turns the book into what the act says, and claims only pooled and new objects |
| Contracts.Contract.PoolApart | internal/orderbook/message_handler.go:202-208 | no pooled order is linked in a level or found by an id |
| Contracts.Contract.LinkedFields | internal/orderbook/message_handler.go:129-138 | a linked order carries its record's fields and hangs in the bid tree exactly when its side byte is 66 ('B') and in the ask tree exactly when it is not, at its own price |
| Contracts.Contract.FoundIsLinked | internal/orderbook/message_handler.go:150-208 | an order the index finds carries that id and hangs in exactly one level, at its price in the tree of its side byte |
| Contracts.Contract.LevelIsList | internal/orderbook/orderbook.go:270-314 | every level is one list from first to last order, its total the book's; its count is the length and its total the sum of the quantities, both up to overflow |
| Contracts.Contract.BestBid | internal/orderbook/orderbook.go:317-326 | the best bid level is filed under its price and no linked order with side byte 66 has a higher one; nil exactly when the tree has no level |
| Contracts.Contract.BestAsk | internal/orderbook/orderbook.go:329-338 | the best ask level is filed under its price and no linked order with another side byte has a lower one; nil exactly when the tree has no level |
| SpscQueues.NewInv | internal/core/spsc_queue.go:27-36 | a buffer is made exactly for size zero and the powers of two, and starts in order |
| SpscQueues.CellsApart | internal/core/spsc_queue.go:53-72 | positions less than a buffer apart use different slots, so a write never hits a slot still to be read |
| SpscQueues.FullExact | internal/core/spsc_queue.go:44-48 | the full test is right for every value of the counters, wrapped sums included |
| SpscQueues.NextInv | internal/core/spsc_queue.go:39-103 | every micro-step keeps the index chain and the slots between tail and head, exactly until item 2^64 |
| SpscQueues.NextRefines | internal/core/spsc_queue.go:39-103 | each micro-step does to a bounded queue what it reports: full is full, empty is empty, the item is the front, a depth is within bounds |
| SpscQueues.RunLinearizes | internal/core/spsc_queue.go:39-96 | every interleaving is a history of the bounded queue |
| SpscQueues.DeliversInOrder | internal/core/spsc_queue.go:39-79 | dequeued items are a prefix of accepted ones and at most the buffer's length is in flight |
| SpscQueues.RemovesWhatWasSeen | internal/core/spsc_queue.go:61-96 | the next item removed is the one last peeked, whatever is enqueued in between |
| RingBuffers.RingBuffer.Enqueue | internal/core/spsc_queue.go:39-58 | a call alone is a schedule of the protocol; it succeeds exactly when there is room |
| RingBuffers.RingBuffer.Dequeue | internal/core/spsc_queue.go:61-79 | a call alone is a schedule of the protocol; it removes and returns the front |
| RingBuffers.RingBuffer.Peek | internal/core/spsc_queue.go:82-96 | a call alone is a schedule of the protocol; it returns the front and keeps it |
| RingBuffers.RingBuffer.Depth | internal/core/spsc_queue.go:99-103 | the number of items |
| RingBuffers.EnqueueAlone | internal/core/spsc_queue.go:39-58 | the schedule in which only the producer moves accepts exactly when the queue is not full, stale caches or not |
| RingBuffers.TakeAlone | internal/core/spsc_queue.go:61-96 | the schedule in which only the consumer moves takes exactly when the queue is not empty |
| RingBuffers.WrapHidesItem | internal/core/spsc_queue.go:39-79 | from a new buffer, a schedule of 2^64 enqueues after which a consumer that caught up is told the buffer is empty while it holds an item |
| Mergers.ScanOldest | internal/orderbook/sequencer.go:48-56 | the scan holds a head with the least number, and among these the least stream; none only when all queues are empty |
| Mergers.UpdateAnnounces | internal/orderbook/sequencer.go:203-213 | a last number more than one ahead of the last applied one becomes the awaited number and counts as a gap; any other changes nothing |
| Mergers.DiscardShrinks | internal/orderbook/sequencer.go:97-101 | each recursion of GetNextMessage has fewer queued messages, so it ends |
| MergerRuns.StepConserves | internal/orderbook/sequencer.go:42-102 | every step keeps the account of messages and the held message at the head of its queue, despite enqueues |
| MergerRuns.NothingLost | internal/orderbook/sequencer.go:42-102 | over every interleaving each accepted message is delivered once, discarded once below the number awaited, or still queued |
| MergerRuns.StepOrdered | internal/orderbook/sequencer.go:62-102 | a step keeps every stream in order exactly unless it settles on number 2^32 - 1 of a stream that awaits it; heartbeats included |
| MergerRuns.RunOrdered | internal/orderbook/sequencer.go:42-213 | over every interleaving all streams stay in order exactly when no step does that |
| MergerRuns.IncreasesUntilLast | internal/orderbook/sequencer.go:42-213 | over every interleaving the delivered numbers of each stream strictly increase exactly when nothing is delivered on a stream after its number 2^32 - 1 |
| MergerRuns.DeliversInOrder | internal/orderbook/sequencer.go:42-213 | over every interleaving of enqueues, calls and heartbeats the delivered numbers of a stream strictly increase |
| MergerRuns.WrapRestartsStream | internal/orderbook/sequencer.go:66-75 | from an empty queue, three calls deliver number 2^32 - 1 and then number 1 of the same stream |
| MergerRuns.QuietCall | internal/orderbook/sequencer.go:42-102 | a call in which no other thread moves does what the function says |
| MergerDrains.GetNextOutcome | internal/orderbook/sequencer.go:42-140 | a call never grows the queues, shrinks them when it delivers, returns nil only when it emptied them or skipped a gap to the head it will deliver next, and never panics without polling fewer than four queues |
| MergerDrains.SettleExactly | internal/orderbook/sequencer.go:58-102 | against the number awaited, 1 for a new stream: an equal head is delivered and both maps move on; a lower one is thrown away; a higher one panics or counts a gap and becomes the number awaited |
| MergerDrains.GetNextExactly | internal/orderbook/sequencer.go:42-130 | the first head not below its awaited number decides: none, nil; equal, delivered; 1 to 8 above it, polled and fewer than four queues, a panic; else a gap given up |
| MergerDrains.HeartbeatDelivers | internal/orderbook/sequencer.go:203-213 | after a heartbeat that is ahead, with only its stream queued, lower numbers are thrown away and the announced one is delivered next |
| MergerDrains.SmallGapPanics | internal/orderbook/sequencer.go:106-130 | a new merger over one queue that starts at number 2 to 9 panics on a polled call |
| MergerDrains.NilMeansEmptyOrNext | internal/orderbook/sequencer.go:42-140 | with four queues a nil means that all are empty or that the next call returns a message |
| MergerDrains.DrainsInTwice | internal/orderbook/sequencer.go:42-140 | n queued messages are gone after at most 2n calls |
| MergerDrains.MergesInOrder | internal/orderbook/sequencer.go:42-80 | streams in queues of their own, consecutive from the number awaited, come out once each, sorted by (SeqNo, StreamID), without a gap |
| MergerDrains.NewMergerMerges | internal/orderbook/sequencer.go:21-80 | the same for a new merger and streams that start at 1 |
| Pipelines.StepRefined | internal/core/spsc_queue.go:39-96 | each micro-step of any producer or of the scanning, peeking and dequeuing consumer is no step or one step of the merger's machine |
| Pipelines.RunRefined | internal/orderbook/sequencer.go:42-102 | every interleaving of these micro-steps is one of whole arrivals, looks, settlements and heartbeats |
| Pipelines.NothingLostInRings | internal/orderbook/sequencer.go:42-102 | from new rings, every message an Enqueue accepted is delivered once, discarded once below the number awaited, or still in its ring |
| Pipelines.OrderedThroughRings | internal/orderbook/sequencer.go:42-213 | from new rings, the delivered numbers of each stream strictly increase exactly when nothing is delivered on it after number 2^32 - 1 |
| Markets.EndToEnd | internal/orderbook/message_handler.go:64-78 | from new rings, over every interleaving of receivers, merger and handler: accepted messages are handled or waiting, discarded below the number awaited, or in their ring; every token's book is made by the acts of the messages handled, in order of delivery |
| Markets.MarketRefined | internal/orderbook/message_handler.go:64-104 | whatever the interleaving and the allocator, a token's book is the abstract book of the messages handled, while these bring new ids, find room and overflow nothing |
| Markets.HandleIsProcessMessage | internal/orderbook/message_handler.go:64-104 | the system's handling step does to books and merger what ProcessMessage ensures |
| SequenceMergers.SequenceMerger.GetNextMessage | internal/orderbook/sequencer.go:42-102 | the code does to its queues and maps what the function says, panic included |
| SequenceMergers.SequenceMerger.SettleHead | internal/orderbook/sequencer.go:62-101 | the three branches after the scan: deliver, give up a gap, throw away |
| SequenceMergers.SequenceMerger.OldestHead | internal/orderbook/sequencer.go:44-56 | the loop over the queues holds a head with the least number, and among these the least stream, and removes nothing |
| SequenceMergers.SequenceMerger.SpinWaitForGap | internal/orderbook/sequencer.go:106-130 | the wait never fills a gap, and panics exactly when it polls fewer than four queues |
| SequenceMergers.SequenceMerger.HandleGap | internal/orderbook/sequencer.go:133-140 | the awaited number becomes the one after the gap, and one more gap is counted |
| SequenceMergers.SequenceMerger.UpdateLastSeq | internal/orderbook/sequencer.go:203-213 | a last number more than one ahead of the last applied one becomes the stream's awaited number, also downwards, and counts as a gap; any other changes nothing |
| MessageHandlers.MessageHandler.GetContract | internal/orderbook/message_handler.go:364-378 | the token's contract, created empty when new, with nothing else disturbed |
| MessageHandlers.MessageHandler.HandleNewOrder | internal/orderbook/message_handler.go:106-141 | the book the token had gains one order with the message's id, side, price and quantity at the tail of that queue, and every other book stays; a message that does not parse changes nothing |
| MessageHandlers.MessageHandler.HandleModifyOrder | internal/orderbook/message_handler.go:143-185 | in the book the token had, a known order takes the message's price and quantity and an unknown one is added; every other book stays |
| MessageHandlers.MessageHandler.HandleCancelOrder | internal/orderbook/message_handler.go:187-209 | the book the token had loses the order of the message's id, which joins the pool; an unknown id changes nothing; every other book stays |
| MessageHandlers.MessageHandler.HandleTrade | internal/orderbook/message_handler.go:212-235 | the book the token had has its buy order filled, then its sell order; what is used up joins the pool; every other book stays |
| MessageHandlers.MessageHandler.HandleTradeCancel | internal/orderbook/message_handler.go:238-255 | the book the token had has its buy order restored with side 'B', then its sell order with side 'S', and every other book stays |
| MessageHandlers.MessageHandler.HandleHeartbeat | internal/orderbook/message_handler.go:258-264 | the merger is told the message's stream and last number; no book changes |
| MessageHandlers.MessageHandler.Dispatch | internal/orderbook/message_handler.go:81-104 | every type does its handler's work; 'K' and unknown types do nothing |
| MessageHandlers.MessageHandler.ProcessMessage | internal/orderbook/message_handler.go:81-104 | the book of the message's token changes as its type and fields mean, every other book stays, exactly the addressed contract comes into being, orders taken out by X, J and T join the pool, and only Z touches the merger |
| MessageHandlers.MessageHandler.Iterate | internal/orderbook/message_handler.go:64-78 | the loop body applies exactly the message the merger delivers to the book its token had |
| MessageHandlers.MessageHandler.ProcessLoop | internal/orderbook/message_handler.go:61-79 | any number of turns: the merger ends as the turns say, and the book a token had takes the acts of the messages delivered to it, in order |
| MessageHandlers.MessageHandler.PerformOn | internal/orderbook/message_handler.go:106-314 | an act on one contract changes neither another contract nor the merger |
| MessageHandlers.MessageHandler.PoolSafe | internal/orderbook/allocator.go:38-52 | whatever the messages, no pooled order is linked or found in any contract |
| MessageHandlers.MessageHandler.TreesStayLow | internal/orderbook/orderbook.go:223-229 | whatever the messages, every tree's maxLevel is at most 1 |
| MessageHandlers.MessageHandler.BookRefined | internal/orderbook/message_handler.go:81-314 | a contract's trees, lists and index have always held exactly the abstract book its messages describe, exactly when these brought new ids, found room and overflowed nothing |
| MessageHandlers.MessageHandler.NoOrphans | internal/orderbook/message_handler.go:81-314 | every linked order is the one its id finds exactly when the messages brought new ids and found room |
| MessageHandlers.MessageHandler.QuantityConserved | internal/orderbook/message_handler.go:106-314 | as long as the int32 differences its messages ask for fit, the level totals of a contract are exact and sum to what the messages added less what they took |
| MessageHandlers.MessageHandler.FillsTakeMin | internal/orderbook/message_handler.go:267-279 | after such messages a fill of q on a resting Q lowers its level's total by exactly min(q, Q) exactly when their difference fits, and never another level's |
| MessageHandlers.MessageHandler.LevelCounts | internal/orderbook/orderbook.go:270-314 | after fewer than 2^31 acts every level's count is the length of its list |
| MessageHandlers.MessageHandler.NeverNegative | internal/orderbook/message_handler.go:106-314 | messages without negative quantities leave no negative order in the code's book |
| MessageHandlers.MessageHandler.IndexKnown | internal/orderbook/message_handler.go:81-314 | side, price and quantity by id are what a contract's messages say, whatever the messages |
| Sessions.TradeThenCancel | internal/orderbook/message_handler.go:212-314 | the code's trade handler followed by its cancel handler gives the contract's book back exactly under the condition of RoundTrip |
| Sessions.NewOrderFiled | internal/orderbook/message_handler.go:106-141 | from an N or G message to the objects: its id finds an order with its fields, last in the list of its price's level, in Bids for side byte 66 and else in Asks, whose total has grown by its quantity |
| Sessions.OrderStruck | internal/orderbook/message_handler.go:187-209 | after an X or J message for a known id the id finds nothing, and the order hangs in no level and is pooled |
| Sessions.LoopInTurn | internal/orderbook/message_handler.go:61-79 | over any turns of the code's main loop an order no delivered message names keeps its place ahead of all behind it |

## Left out

- Byte parsing: messages are records, with None where the length check rejects a payload. The length checks are shorter than the bytes read, so payloads between the two lengths are outside the model.
- UDP receivers, CPU pinning, goroutine start and stop, logging, metrics printing, timestamps, cache-line padding and alignment: no effect on the book.
- Allocation of messages and price levels by the allocator, and the unused pool of OrderMap: nothing calls them.
- The gap buffer of the merger: no code ever fills it, so it is always empty and its compaction is unreachable.
- SetLastAppliedSeq, SetExpectedSeq and GetGapCounts: setters and a constant statistic that no caller uses.
- Reset, IsEmpty and IsFull of the ring buffer, and Depth from a third thread: not safe under concurrency, or easy members.
- Wall-clock waiting: the wait is a flag that says whether there was time for at least one look at the queues.
- SequenceMergers.SequenceMerger.GetNextMessage: the class method runs alone, since Dafny methods are sequential; enqueues that land during a call are covered by the step machine of MergerRuns.
- OrderMaps.OrderMap.constructor: a capacity above 2^62, for which the source's doubling loop does not end or the table does not fit, is not modelled.
- Pipelines.RunRefined: the wait for a gap is one step here; its looks at Depth change nothing and its time is a flag.
- RingBuffers.RingBuffer.Enqueue: the class method runs alone; interleavings with the other thread are covered by SpscQueues.
- MessageHandlers.MessageHandler.ProcessLoop: runs a given number of turns in place of the stop flag, without latency metrics, and alone; enqueues during a call are covered by Markets.
- Forward slices of nodes and the eight places of a bucket are sequence values in a field or an array element: updates of single places are sequence updates, and aliasing of these slices, which the source never does, cannot be expressed.
- The three loops of get, put and delete that look for an id share one method, and so do the two searches of insert and remove.
- Gap and recovery counters are unbounded, and the merger counts only gaps since the source always moves both together.
- The cost of a search and any claim that the best level is not empty: the code gives neither.
- Snapshot and tick recovery, which exist only as design text.
