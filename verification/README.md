# Mango v4: a Dafny model of the order book, the services and the keepers

This project models the parts of the Mango v4 repository whose behaviour is hardest to see from the
code: data structures that are updated in place, protocols whose steps interleave, diffs that a
consumer replays, and fixed-point arithmetic that trades precision for speed. Each module states
what its component is for and proves it over all inputs or all runs.

`dafny verify dfyconfig.toml` checks the whole project.

| module | component |
|---|---|
| `OrderTrees`, `BookSides` | the crit-bit trees of a book side in one slab of nodes with a free list: insertion, removal, extremes, earliest expiry |
| `NodeKeys`, `BookIteration` | keys as prices and times, iteration over one tree, and the merged iteration over fixed-price and oracle-pegged orders |
| `Matching`, `Taking`, `Posting`, `NewOrders` | placing an order: matching it against the other side, applying the matches to that side's trees, posting the remainder, which may have to make room, and every sequence of orders |
| `BookVolumes` | the lots on the book over every sequence of orders |
| `FullSides` | sides at the limit of their slots |
| `EventQueues`, `FillFeed` | the event queue ring buffer, and the service that turns its snapshots into New and Revoke messages |
| `Bits`, `FastDivision` | powers of two, and the fast I80F48 division |
| `TcsScheduler`, `TcsSizing`, `QuoteCache` | the liquidator's job scheduler for token conditional swaps, their sizing, and the shared quote cache |
| `TopPnl` | the early-exit selection of the accounts with the largest pnl |
| `Settlement`, `BatchPacking` | the settler's matching, and both packers of instructions into transactions |
| `AccountCache` | the single-flight account cache |
| `LevelDiff` | the order book service's level and order updates |
| `ErrorTracking` | the error tracker |
| `BumpAllocator` | the on-chain allocator |

Objects that the source updates in place are classes, loops are loops, and each such method is tied
to a function of its inputs or of the old state about which the properties are proved. Protocols
with concurrent calls are state machines whose runs are arbitrary sequences of enabled steps.

## What turned out not to hold

Each of these has a concrete input or a family of inputs in the project, together with the exact
condition under which the code does what it promises.

- The merged iteration loses an order when the oracle-pegged tree starts with orders that have no
  price at the current oracle price: the loop that skips them uses the inner iterator's `next`, which
  returns a leaf before it moves on (`PeggedOrderIsLost`, `CompleteUnlessSkippedFirst`).
- So a bid can be posted at or above a valid ask that is left (`LostAskIsCrossed`, exactly when:
  `BidCrossedExactly`), and a valid order can be passed over
  (`LostAskIsPassedOver`, exactly when: `PassedByExactly`).
- An ask whose quote limit binds can be posted below a bid that is left (`AskPostedBelowBid`, exactly
  when: `RemainderCrosses`, for both trees `CrossedExactly`), and can pass over the rest of a better
  bid (`AskPassesOverBetterBid`, exactly when: `PassesOverExactly`). What this means for a book that
  starts uncrossed is `RunUncrossedExactly`.
- Removing the worst order of a full side does not always make room for the new one
  (`EvictionIsNotEnough`, exactly when: `RoomAfterEviction`).
- `is_full` also answers yes in one state in which a further order fits (`FullWithRoom`, exactly when:
  `IsFull`).
- The settler stops at the first winner that gets nothing, although a later one could be settled
  (`StopsAtFirst`; the fees for which that cannot happen: `NothingIsLeft`, `LeavesOneOut`).
- A consumer of the fill feed misses fills when the histories differ below the window of the longer
  one, for example after growth by more than a window (`GrowthBeyondWindowLosesFills`,
  `ReplayReplacesHistory`). Publishing panics after the updates when a head is 0 (`PublishChanges`).
- The fast division reports an overflow for some operands whose quotient fits, although its tests
  expect agreement (`OverflowsTooEarly`, `AgreesWithExact`).
- A quote of 0 for 0 passes every price limit (`NaNPassesTheLimit`, `QuotesAreWithinLimit`).
- The check of a swap's token pair passes the buy token twice (`SellTokenIsIgnored`).
- The keeper sends a transaction without instructions when the first item alone is too large
  (`SendBatched`).
- On a partial hit the cached `fetch_multiple_accounts` returns only the missing keys
  (`PartialHitLosesCachedKeys`).
- Order updates are not published for pure additions or pure removals (`OrderUpdateTracks`), and a
  new oracle price alone refreshes only the bids (`OracleRefreshesOnlyBids`).

## Model

| member | source | states |
|---|---|---|
| OrderTrees.EarliestIsMin | programs/mango-v4/src/state/orderbook/nodes.rs:93-97 | the earliest expiry kept for a subtree is a lower bound of every order's expiry in it; EarliestLeaf attains it |
| OrderTrees.InOrderIsSorted | programs/mango-v4/src/state/orderbook/nodes.rs:73-77 | in every well-formed tree, visiting near before far yields each order exactly once, strictly sorted by key |
| OrderTrees.ExtremeIsBound | programs/mango-v4/src/state/orderbook/ordertree.rs:166-192 | always going left (right) reaches the order with the smallest (largest) key |
| OrderTrees.KeysDiffer | programs/mango-v4/src/state/orderbook/nodes.rs:73-77 | a well-formed tree never holds two orders with one key |
| OrderTrees.HandleCount | programs/mango-v4/src/state/orderbook/nodes.rs:73-77 | n orders take exactly 2n - 1 slots |
| OrderTrees.PlugWellFormed | programs/mango-v4/src/state/orderbook/nodes.rs:73-77 | a tree is well-formed if and only if the subtree in a hole and the path to it are, and every key below fits every fork above |
| OrderTrees.PlugRepresents | programs/mango-v4/src/state/orderbook/nodes.rs:80-100 | the slab holds a tree if and only if it holds the subtree in a hole and every fork above it, with child handles and earliest expiries computed bottom up |
| OrderTrees.OffPath | programs/mango-v4/src/state/orderbook/nodes.rs:118-124 | walking down by a key's bits, no order beside the path has that key |
| OrderTrees.SplitWellFormed | programs/mango-v4/src/state/orderbook/ordertree.rs:362-388 | forking at the common prefix length keeps the tree well-formed, adds exactly the new order, and the earliest expiry becomes the minimum |
| BookSides.BookSide.constructor | programs/mango-v4/src/state/orderbook/bookside.rs:30-36 | a zeroed account is a valid side without orders |
| BookSides.BookSide.InsertNode | programs/mango-v4/src/state/orderbook/ordertree.rs:273-307 | takes a slot that nothing uses and writes only it; fails exactly when no slot is left; the free list's assertions hold |
| BookSides.BookSide.RemoveNode | programs/mango-v4/src/state/orderbook/ordertree.rs:253-271 | returns the node and puts its slot at the front of the free list, changing no other slot |
| BookSides.BookSide.UpdateParentEarliestExpiry | programs/mango-v4/src/state/orderbook/ordertree.rs:404-425 | afterwards every fork on the path has the right earliest expiry for the changed subtree, whether the loop runs to the root or stops at its first fork; nothing off the path changes |
| BookSides.BookSide.FindInsertion | programs/mango-v4/src/state/orderbook/ordertree.rs:329-361 | stops at the order with the key or where the key leaves the prefix, with the path to it |
| BookSides.BookSide.InsertBoth | programs/mango-v4/src/state/orderbook/ordertree.rs:370-377 | takes slots for the order and the moved node or for neither; a slot taken for nothing is given back |
| BookSides.BookSide.BranchOff | programs/mango-v4/src/state/orderbook/ordertree.rs:362-396 | the tree becomes the forked tree, both trees and the slab stay valid; without two free slots the trees stay as they are |
| BookSides.BookSide.Replace | programs/mango-v4/src/state/orderbook/ordertree.rs:334-345 | an order with the same key is overwritten in its slot, returned, and the earliest expiries above it are right again |
| BookSides.BookSide.InsertLeaf | programs/mango-v4/src/state/orderbook/ordertree.rs:309-398 | the tree's orders become the old ones without that key plus the new one, the other tree keeps its orders, the returned slot holds the new order and the returned order is the one replaced; the bump index becomes the highest number of slots ever taken; it fails if and only if the number of orders leaves too few slots, and then no order changes |
| BookSides.BookSide.FindLeaf | programs/mango-v4/src/state/orderbook/ordertree.rs:202-234 | reaches the only order that can have the key |
| BookSides.BookSide.CollapseParent | programs/mango-v4/src/state/orderbook/ordertree.rs:236-250 | the sibling takes the parent's slot, both other slots become free, and the tree without the order is held with the right expiries |
| BookSides.BookSide.RemoveByKey | programs/mango-v4/src/state/orderbook/ordertree.rs:194-251 | the tree's orders become the old ones without that key, the removed order is returned, None means there was none, and the other tree keeps its orders |
| BookSides.BookSide.LeafMinMax | programs/mango-v4/src/state/orderbook/ordertree.rs:166-192 | None if and only if the tree is empty, else the order with the smallest or largest key and its slot |
| BookSides.BookSide.FindEarliestExpiry | programs/mango-v4/src/state/orderbook/ordertree.rs:427-448 | None if and only if the tree is empty, else the slot of an order that no other order expires before |
| BookSides.BookSide.RemoveOneExpired | programs/mango-v4/src/state/orderbook/ordertree.rs:117-129 | removes an order that expires first if and only if some order expires before now, and nothing else |
| BookSides.BookSide.RemoveExpiredOrOther | programs/mango-v4/src/state/orderbook/bookside.rs:111-129 | removes one order expired before now if either tree has one, from the given tree if that has one |
| BookSides.BookSide.IsFull | programs/mango-v4/src/state/orderbook/ordertree.rs:400-402 | true if and only if two slots are not left, or exactly two are and all slots but the last were once taken, so that one of the two is on the free list |
| FullSides.FullWithRoom | programs/mango-v4/src/state/orderbook/ordertree.rs:400-402 | a side built by insertions and a removal that counts as full although the next insertion succeeds |
| BookSides.NothingLeaks | programs/mango-v4/src/state/orderbook/ordertree.rs:60-68 | in every valid state the slots left are 1024 minus 2n - 1 for each non-empty tree of n orders, and the roots count the orders |
| NodeKeys.LessIsNumber | programs/mango-v4/src/state/orderbook/nodes.rs:23-37 | the bitwise order of keys is the order of the u128 numbers |
| NodeKeys.PriceTimePriority | programs/mango-v4/src/state/orderbook/nodes.rs:23-37 | iteration order of two orders is better price first, then smaller sequence number, on both sides |
| BookIteration.OrderTreeIter.constructor | programs/mango-v4/src/state/orderbook/ordertree_iterator.rs:17-36 | what is left to visit is the whole tree in order |
| BookIteration.OrderTreeIter.FindLeftmostLeaf | programs/mango-v4/src/state/orderbook/ordertree_iterator.rs:50-63 | the next leaf and the stack stand for the subtree's leaves followed by what was left |
| BookIteration.OrderTreeIter.Next | programs/mango-v4/src/state/orderbook/ordertree_iterator.rs:69-85 | returns the first leaf that is left and drops exactly it |
| BookIteration.BookSideIter.Next | programs/mango-v4/src/state/orderbook/bookside_iterator.rs:159-193 | returns and leaves behind what NextItem says, the skipping loop included |
| BookIteration.RunMerges | programs/mango-v4/src/state/orderbook/bookside_iterator.rs:159-193 | when no unrepresentable order comes first, the iterator returns exactly the merge of both trees by rank |
| BookIteration.FirstShownIsLost | programs/mango-v4/src/state/orderbook/bookside_iterator.rs:165-189 | after skipping, the first representable pegged order is lost if a fixed order comes first |
| BookIteration.SecondShownIsLost | programs/mango-v4/src/state/orderbook/bookside_iterator.rs:165-189 | otherwise the second one is lost |
| BookIteration.ShownBetween | programs/mango-v4/src/state/orderbook/bookside_iterator.rs:53-71 | orders with a representable price are contiguous in key order |
| BookIteration.CompleteUnlessSkippedFirst | programs/mango-v4/src/state/orderbook/bookside_iterator.rs:16-24 | for every pair of sorted trees, the iteration is the full merge if and only if the first pegged order is representable, none is, or the only one comes before all fixed orders |
| BookIteration.RunWellOrdered | programs/mango-v4/src/state/orderbook/bookside.rs:317-340 | in every case the items come in rank order, and at most one is missing |
| BookIteration.ReturnedExactly | programs/mango-v4/src/state/orderbook/bookside_iterator.rs:159-193 | every fixed order and every pegged order with a representable price is returned, with its own state and price, except exactly the lost one; nothing else is |
| BookIteration.PricesInOrder | programs/mango-v4/src/state/orderbook/bookside.rs:321-335 | rank order implies that prices never get better |
| BookIteration.PeggedOrderIsLost | programs/mango-v4/src/state/orderbook/bookside_iterator.rs:165-174 | asks pegged at -100, 0 and 10 with the oracle at 50: both representable ones should be returned, the one at 60 is not |
| BookIteration.IterAll | programs/mango-v4/src/state/orderbook/bookside.rs:57-60 | the items of a valid side are the run over its two trees, in order |
| BookIteration.FindWorst | programs/mango-v4/src/state/orderbook/ordertree.rs:110-115 | None if and only if the tree is empty, else an order than which none in it has a worse price |
| BookIteration.RemoveWorst | programs/mango-v4/src/state/orderbook/bookside.rs:91-109 | removes exactly one order, than which none of either tree has a worse price at the current oracle price, and returns it with its price |
| Matching.FillConserves | programs/mango-v4/src/state/orderbook/book.rs:123-163 | a match keeps the sums: base and quote matched plus what is left are what was asked for, and nothing left is negative |
| Matching.FillIsLast | programs/mango-v4/src/state/orderbook/book.rs:123-131 | a bid that can still match has matched every earlier order completely |
| Matching.ProgressFill | programs/mango-v4/src/state/orderbook/book.rs:123-202 | every match keeps everything the matching promises |
| Matching.Match | programs/mango-v4/src/state/orderbook/book.rs:74-209 | how it ends and what it returns, exactly: the matching of all orders up to the first that stops it; it fails for want of room if and only if the events of that matching do not fit, and for self trade if and only if they fit and an own order stops it |
| Matching.AfterProgress | programs/mango-v4/src/state/orderbook/book.rs:85-209 | for every list of opposing orders, as far as the loop goes: conservation; each match is with a valid order at its own price, within the limit, of at most its quantity and not the taker's own unless allowed; no valid order is passed over; an order is matched in part only when nothing or too little quote is left; at most five invalid orders are removed and otherwise all of them; at most `limit` matches; post-only orders match nothing |
| Matching.ResultKeepsPromises | programs/mango-v4/src/state/orderbook/book.rs:85-121 | the same of the result, and exactly when the remainder may be posted |
| Matching.MatchedExactly | programs/mango-v4/src/state/orderbook/book.rs:85-202 | every order before the end that is valid and not removed is matched, and no other |
| Matching.BidMatches | programs/mango-v4/src/state/orderbook/book.rs:111-163 | a bid matches an order if and only if it is valid and within the limit, fewer than `limit` orders come before it, those before it do not use up the base quantity, and the quote suffices for all of them and one lot |
| Matching.Funded | programs/mango-v4/src/state/orderbook/book.rs:123-163 | as long as the quote suffices, what is left is what the orders so far neither supply nor cost |
| Matching.RemainderCrosses | programs/mango-v4/src/state/orderbook/book.rs:252-260 | a posted remainder leaves an order within its limit if and only if matching the whole order against all such orders, with a lot's price in hand at each own order that is cancelled, would have cost more than its quote |
| Matching.BidAffords | programs/mango-v4/src/state/orderbook/book.rs:252-260 | that never happens to a bid |
| Matching.AskPostedBelowBid | programs/mango-v4/src/state/orderbook/book.rs:123-126 | an ask for one lot at 3 that may receive 5 is posted although a bid at 10 is left |
| Matching.AskPassesOverBetterBid | programs/mango-v4/src/state/orderbook/book.rs:123-131 | the loop matches one lot of a bid at 10 for an ask that may receive 15, leaves four, and then matches a bid at 4 |
| Matching.PassesOverExactly | programs/mango-v4/src/state/orderbook/book.rs:123-131 | a partial match is followed by another one if and only if the quote runs short at an order that is in reach, the match limit is not, and what is left after as many lots as it buys there is enough for every valid order up to a next one to match |
| BookSides.BookSide.SetQuantity | programs/mango-v4/src/state/orderbook/book.rs:239-247 | exactly the order with the key gets the new quantity, and nothing else on the side changes |
| BookIteration.RunFromLists | programs/mango-v4/src/state/orderbook/bookside_iterator.rs:159-193 | every item is an order of its tree, and no order is returned twice |
| Taking.RunIsOpposing | programs/mango-v4/src/state/orderbook/book.rs:85-87 | what the iteration returns is what the matching expects: best price first, positive prices and quantities |
| Taking.ApplyChanges | programs/mango-v4/src/state/orderbook/book.rs:239-247 | every partly matched order loses exactly the matched quantity |
| Taking.ApplyDeletions | programs/mango-v4/src/state/orderbook/book.rs:248-250 | every order to be deleted is found and removed, and no other |
| Taking.Take | programs/mango-v4/src/state/orderbook/book.rs:74-250 | fails exactly as the matching does and then leaves the side alone; otherwise the two trees end with exactly what the matching left: each order is untouched, has the matched quantity less, or is gone for a reason |
| Taking.StillGood | programs/mango-v4/src/state/orderbook/book.rs:239-250 | what is left has positive quantities and prices again |
| Taking.CrossedExactly | programs/mango-v4/src/state/orderbook/book.rs:252-260 | over the orders left in both trees: a posted remainder reaches a valid one if and only if the iteration lost a valid order within its limit, or matching the whole order would have cost more than its quote |
| Taking.BidCrossedExactly | programs/mango-v4/src/state/orderbook/book.rs:252-260 | for a bid if and only if the iteration lost such an ask |
| Taking.LostAskIsCrossed | programs/mango-v4/src/state/orderbook/bookside_iterator.rs:165-174 | asks pegged at -100, 0 and 10 with the oracle at 50: a bid for 5 lots at 70 matches one and posts four, and the ask at 60 is left |
| Taking.PassedByExactly | programs/mango-v4/src/state/orderbook/book.rs:85-163 | a valid order of the side that nothing was done with ranks before a matched one if and only if it is the lost order and an order after it is reached |
| Taking.LostAskIsPassedOver | programs/mango-v4/src/state/orderbook/bookside_iterator.rs:165-174 | with a further ask pegged at 20, that bid matches the asks at 50 and 70 and passes over the one at 60 |
| Posting.RoomAfterEviction | programs/mango-v4/src/state/orderbook/book.rs:283-299 | after removing one order of a full side the insertion lacks a slot if and only if it was the only order of the other tree and no slot was left |
| Posting.Evict | programs/mango-v4/src/state/orderbook/book.rs:283-290 | a side loses exactly one order, than which none has a worse price, if and only if it counts as full |
| Posting.MakeRoomAndInsert | programs/mango-v4/src/state/orderbook/book.rs:283-313 | an order is evicted if and only if the side counts as full; refused exactly when it does and the new order is not better than the worst, failed exactly when the event does not fit, the account has no slot, or in the case above; otherwise the tree gains the order and the side loses that one |
| FullSides.EvictionIsNotEnough | programs/mango-v4/src/state/orderbook/book.rs:283-313 | a side with 512 fixed asks and a worse pegged one: posting a better fixed ask evicts the pegged one and still lacks a slot |
| Posting.PostOrder | programs/mango-v4/src/state/orderbook/book.rs:269-313 | the same after removing an order that expired before now, if there is one: the earliest of the target tree, else of the other |
| NewOrders.PlaceOrder | programs/mango-v4/src/state/orderbook/book.rs:43-340 | for every order: the exact way it fails, or that it is not posted, or the order that is; the other side is what the matching of its iteration left; the own side loses exactly the expired order and, if full, the worst one, and gains the new order, whose key holds its price and a new sequence number |
| NewOrders.FreshKey | programs/mango-v4/src/state/orderbook/book.rs:62-63 | the new key is not in use |
| NewOrders.StepKeepsGood | programs/mango-v4/src/state/orderbook/book.rs:43-340 | both sides stay sorted with positive prices and quantities, and no key has a later sequence number |
| NewOrders.StepUncrossedExactly | programs/mango-v4/src/state/orderbook/book.rs:43-340 | a book whose valid bids are below its valid asks stays so if and only if the order is not posted, not valid, or neither of the two reasons above holds |
| NewOrders.RunStaysGood | programs/mango-v4/src/state/orderbook/book.rs:43-340 | the same as for one order in every state of every sequence of orders |
| NewOrders.RunUncrossedExactly | programs/mango-v4/src/state/orderbook/book.rs:43-340 | over every sequence of orders with a steady oracle price, from an uncrossed book: uncrossed after every order if and only if none is posted crossing |
| NewOrders.Orderbook.constructor | programs/mango-v4/src/state/orderbook/book.rs:22-26 | zeroed accounts are a good, empty book |
| NewOrders.Orderbook.NewOrder | programs/mango-v4/src/state/orderbook/book.rs:43-340 | every call that does not fail is a step as above and leaves a good book, so that calls chain; a call that fails does so for the stated reason |
| BookVolumes.TakenVolume | programs/mango-v4/src/state/orderbook/book.rs:85-250 | the other side's lots go down by exactly those matched and those of removed orders |
| BookVolumes.PostedVolume | programs/mango-v4/src/state/orderbook/book.rs:252-313 | the own side's lots go up by the posted ones and down by those of the expired and the evicted order |
| BookVolumes.StepConserves | programs/mango-v4/src/state/orderbook/book.rs:43-340 | no lot on the book appears or disappears otherwise, and no more is posted and matched than the order asked for |
| BookVolumes.RunConserves | programs/mango-v4/src/state/orderbook/book.rs:43-340 | over every sequence of orders the lots on the book are those that were there and those posted, less those matched or removed |
| EventQueues.EventQueue.constructor | programs/mango-v4/src/state/orderbook/queue.rs:25-30 | a zeroed queue shows an empty history |
| EventQueues.EventQueue.PushBack | programs/mango-v4/src/state/orderbook/queue.rs:48-60 | fails exactly when 488 events wait; otherwise the history grows by the event and the ring shows its last 488 entries; fills stay numbered if and only if a pushed fill carries the header's number |
| EventQueues.EventQueue.PopFront | programs/mango-v4/src/state/orderbook/queue.rs:76-88 | hands out the events in push order and leaves the ring as it is |
| EventQueues.RepresentativeInWindow | programs/mango-v4/src/state/orderbook/queue.rs:48-53 | every older sequence number shares its slot with a later one in the window |
| FillFeed.SendChanges | bin/service-mango-fills/src/fill_event_filter.rs:52-140 | the first loop sends the messages of Changes and collects the rows of the walked slots |
| FillFeed.SendDrops | bin/service-mango-fills/src/fill_event_filter.rs:142-166 | the second loop revokes the fills found in the slots of the dropped numbers |
| FillFeed.PublishChanges | bin/service-mango-fills/src/fill_event_filter.rs:37-218 | sends the updates, then head update and checkpoint; panics in between if and only if a head is 0 |
| FillFeed.ReplayOneChange | bin/service-mango-fills/src/fill_event_filter.rs:57-140 | one sequence number's messages move a consumer from the old history's fill at that number to the new one's |
| FillFeed.DroppedExactly | bin/service-mango-fills/src/fill_event_filter.rs:142-166 | the second loop hits exactly the old fills in the old window at or past the new end, even when it looks up overwritten slots |
| FillFeed.ReplaySplices | bin/service-mango-fills/src/fill_event_filter.rs:52-166 | replaying one diff replaces everything from the start of the longer history's window on and leaves the rest |
| FillFeed.ReplayReplacesHistory | bin/service-mango-fills/src/fill_event_filter.rs:52-166 | the consumer ends with exactly the new history's fills if and only if the histories had the same fills below that window |
| FillFeed.GrowthBeyondWindowLosesFills | bin/service-mango-fills/src/fill_event_filter.rs:52-57 | growth by a window and one event that starts with a fill loses it |
| FillFeed.SharedPrefixAgrees | bin/service-mango-fills/src/fill_event_filter.rs:52-57 | histories that share a prefix reaching to within a window of the longer one agree below the walk: growth, change in place and rollback |
| FillFeed.RunTracksHistory | bin/service-mango-fills/src/fill_event_filter.rs:505-567 | over every run of snapshots that agree step by step below their windows, replaying all messages gives exactly the last history's fills |
| FillFeed.RunWithSharedPrefixes | bin/service-mango-fills/src/fill_event_filter.rs:37-166 | over every run in which each history shares such a prefix with the one before, replaying all messages takes a store of the first history's fills to exactly the last one's |
| FillFeed.CheckpointIsWindow | bin/service-mango-fills/src/fill_event_filter.rs:53-140 | the checkpoint is the current window's fills in order if and only if no fill lies in the part of the window before the walk; without a step back that part is empty |
| FillFeed.ReplayTrailer | bin/service-mango-fills/src/fill_event_postgres_target.rs:108-137 | head updates and checkpoints do not change the consumer |
| FillFeed.QueueFeed.constructor | bin/service-mango-fills/src/fill_event_filter.rs:508-510 | nothing processed, version (0, 0) |
| FillFeed.QueueFeed.Process | bin/service-mango-fills/src/fill_event_filter.rs:505-567 | processed versions strictly increase, older ones change nothing, the cache is the last processed snapshot, and everything sent is the run's updates |
| FastDivision.TopDividendExact | programs/mango-v4/src/i80f48.rs:93-101 | the shifted dividend keeps its top 64 bits, with the high bit set unless it is zero |
| FastDivision.TopDivisorExact | programs/mango-v4/src/i80f48.rs:103-109 | the shifted divisor keeps its top 32 bits |
| FastDivision.ShiftBackExact | programs/mango-v4/src/i80f48.rs:111-120 | shifting back gives None if and only if the value would reach 2^127, and otherwise loses no high bit |
| FastDivision.FastDivisionError | programs/mango-v4/src/i80f48.rs:72-127 | for all operands with a result r, with q the exact quotient: q(1 - 2^-31) - 1 < abs(r) <= q(1 + 2^-31), r fits an i128, and its sign follows the operands unless it is zero |
| FastDivision.ThirtyBitsOrLastBit | programs/mango-v4/src/i80f48.rs:246-271 | the result differs from the exact quotient by at most one unit, or by less than 2^(n-30) where n is the quotient's bit length |
| FastDivision.OverflowExactly | programs/mango-v4/src/i80f48.rs:111-116 | overflow if and only if the dividend reaches 2^79 times the divisor with all but its top 32 bits cleared |
| FastDivision.OverflowOnlyNearLimit | programs/mango-v4/src/i80f48.rs:111-116 | overflow is reported only if q(1 + 2^-31) reaches 2^127 |
| FastDivision.AgreesWithExact | programs/mango-v4/src/i80f48.rs:246-253 | a result implies that the exact quotient fits; the exact set of operands for which the converse fails |
| FastDivision.OverflowsTooEarly | programs/mango-v4/src/i80f48.rs:246-253 | 2^126 divided by 2^47 + 1 fits but is reported as overflow |
| TcsScheduler.StepKeepsInv | bin/liquidator/src/trigger_tcs.rs:1025-1099 | every step keeps the exact volume accounting, the limits on jobs and volume and the marks; no entry is started twice and no subtraction goes below zero |
| TcsScheduler.RunsAreSafe | bin/liquidator/src/trigger_tcs.rs:1006-1099 | the same in every reachable state: pending volume is the sum over jobs in flight, at most 32 jobs and executions, above the budget only with a single job of positive volume, prepared volume below twice the budget |
| TcsScheduler.RunsAreShort | bin/liquidator/src/trigger_tcs.rs:1025-1099 | every run has at most 4n + 1 steps for n entries |
| TcsScheduler.NeverStuck | bin/liquidator/src/trigger_tcs.rs:1025-1034 | until the loop ends some step is possible |
| TcsScheduler.EndLeavesNothingFitting | bin/liquidator/src/trigger_tcs.rs:1025-1034 | ending below both budgets means nothing is in flight and no unpicked entry fits |
| TcsScheduler.SumsFitU64 | bin/liquidator/src/trigger_tcs.rs:1096 | the pending volume never exceeds the larger of the budget and the largest single volume |
| TcsScheduler.Sample | bin/liquidator/src/trigger_tcs.rs:1063-1092 | an entry of positive weight, None if and only if there is none |
| TcsScheduler.PrepareExecutions | bin/liquidator/src/trigger_tcs.rs:1006-1099 | every execution of the loop is a run of the state machine that has ended, whatever is sampled and however jobs finish; it terminates and stays below twice the budget |
| TcsSizing.ClampsAreClosest | programs/mango-v4/src/i80f48.rs:8-28 | both clamps give the largest representable integer not above the number, or the end of the range |
| TcsSizing.SellInTokens | bin/liquidator/src/trigger_tcs.rs:568-574 | new borrows in whole tokens are what exceeds the floor of the position |
| TcsSizing.BuyInTokens | bin/liquidator/src/trigger_tcs.rs:576-581 | the same on the buy side after repaying a negative position |
| TcsSizing.SellCapIsLargest | bin/liquidator/src/trigger_tcs.rs:556-618 | the sell amount is the largest one up to the uncapped amount that fits both allowances; no subtraction underflows |
| TcsSizing.BuyCapIsLargest | bin/liquidator/src/trigger_tcs.rs:538-618 | so is the buy amount when the liqor borrows it; otherwise nothing caps it |
| TcsSizing.SkippedOnlyForLimits | bin/liquidator/src/trigger_tcs.rs:620-628 | an execution is skipped only if a limit made it tiny |
| TcsSizing.PreparedVolumeWithinBudget | bin/liquidator/src/trigger_tcs.rs:855-873 | the volume of a prepared execution never exceeds the quote budget, in spite of the roundings |
| TcsSizing.SellTokenIsIgnored | bin/liquidator/src/trigger_tcs.rs:436-442 | the check made for a swap agrees with the pair check if and only if the sell token does not matter |
| QuoteCache.StepKeepsInv | bin/liquidator/src/trigger_tcs.rs:116-175 | every step of every call keeps the cached price at the lowest completed quote and the lock discipline |
| QuoteCache.InterleavingsAreSafe | bin/liquidator/src/trigger_tcs.rs:86-175 | in every interleaving: lowest completed quote cached, at most one query in flight until a finite one completed, an early BadPrice only when every quote so far was above the limit |
| QuoteCache.QuotesAreWithinLimit | bin/liquidator/src/trigger_tcs.rs:170-174 | a returned quote is within the limit if and only if it is a number |
| QuoteCache.UncheckedQuote | bin/liquidator/src/trigger_tcs.rs:201-225 | the case called unreachable is reached only by infinite prices |
| QuoteCache.NaNPassesTheLimit | bin/liquidator/src/trigger_tcs.rs:170-174 | a run that returns NaN as a quote for any limit |
| TopPnl.StableSortCorrect | lib/client/src/perp_pnl.rs:73-81 | the reference sort is sorted and keeps the order of equal ranks |
| TopPnl.SortInPlace | lib/client/src/perp_pnl.rs:73-81 | the array becomes the stable sort of its old contents |
| TopPnl.EarlyExit | lib/client/src/perp_pnl.rs:86-114 | limiting only the examined prefix gives the same top as limiting all |
| TopPnl.PrefixDecides | lib/client/src/perp_pnl.rs:83-118 | whatever the maxima of the accounts that were not examined |
| TopPnl.LimitInPlace | lib/client/src/perp_pnl.rs:87-113 | the array's examined prefix is limited, at least count of its entries stay in place unless all were examined, and it fails if and only if an examined account has no health |
| TopPnl.FetchTop | lib/client/src/perp_pnl.rs:18-119 | the list equals, ties and values included, the one from limiting every account, sorting stably and taking count; exactly when it fails |
| TopPnl.Collect | lib/client/src/perp_pnl.rs:43-71 | the candidates are the accounts with pnl of the wanted sign, in order |
| Settlement.PairsConserve | bin/settler/src/settle.rs:220-250 | over every sequence of legal pairs, winners and losers give up the same total and nothing goes below zero |
| Settlement.PairExhausts | bin/settler/src/settle.rs:228-250 | each pair uses up one of its parties |
| Settlement.FewerPairsThanParties | bin/settler/src/settle.rs:220-257 | there are fewer pairs than parties |
| Settlement.SettleWinner | bin/settler/src/settle.rs:221-250 | pairs one winner with the largest remaining losers, each pair worthwhile when it is made, and afterwards no worthwhile pair for it is left |
| Settlement.MatchMarket | bin/settler/src/settle.rs:220-257 | the pairs are legal and worthwhile, exactly the first n winners were settled, and for them and the one that stopped the loop nothing worthwhile is left |
| Settlement.PairsPay | bin/settler/src/settle.rs:234-240 | every pair reaches the fee threshold or has another fee than the flat one |
| Settlement.NothingIsLeft | bin/settler/src/settle.rs:251-257 | no worthwhile pair is left for any winner, whatever the amounts, if no winner but the last has the flat fee or the threshold is not positive |
| Settlement.LeavesOneOut | bin/settler/src/settle.rs:251-257 | for all other fees there are amounts with which a worthwhile pair is left |
| Settlement.StopsAtFirst | bin/settler/src/settle.rs:251-257 | threshold 100, flat fee 5, winners of 200 with fee 5 and of 80 with fee 3, a loser of 60: nothing is settled |
| Settlement.Collect | bin/settler/src/settle.rs:98-190 | the collections hold exactly the winning and losing positions of usable accounts, per market and in order |
| Settlement.NeverPairedWithItself | bin/settler/src/settle.rs:152-188 | with distinct holdings no account is both winner and loser of a market |
| Settlement.HoldingsDistinct | bin/settler/src/settle.rs:98-126 | distinct accounts with one position per market give distinct holdings |
| BatchPacking.JoinPacks | lib/client/src/util.rs:147-150 | an item that fits joins the batch without loss |
| BatchPacking.SplitPacks | bin/settler/src/settle.rs:352-357 | an item that does not fit starts a new batch without loss |
| BatchPacking.SettleBatchProcessor.constructor | bin/settler/src/settle.rs:205-218 | nothing pending and nothing sent |
| BatchPacking.SettleBatchProcessor.Send | bin/settler/src/settle.rs:292-312 | hands the pending batch over once, exactly unless it is empty or cannot be built |
| BatchPacking.SettleBatchProcessor.AddAndMaybeSend | bin/settler/src/settle.rs:314-360 | batches sent plus pending are the items' instructions in order, every batch meets the limits or is one item, and exactly when it fails |
| BatchPacking.SendBatched | bin/keeper/src/crank.rs:583-623 | what is handed over is the input in order, in batches within the limits or of one item; an empty transaction is sent exactly when the first item alone does not fit |
| AccountCache.AccountCache.constructor | lib/client/src/account_fetcher.rs:157-167 | an empty cache |
| AccountCache.AccountCache.RunCoalesced | lib/client/src/account_fetcher.rs:139-150 | the registered job for a key, or the new one, and the cache of the state machine's step |
| AccountCache.AccountCache.CompleteJob | lib/client/src/account_fetcher.rs:265-275 | removes the job and stores a successful reply and its key list |
| AccountCache.AccountCache.Clear | lib/client/src/account_fetcher.rs:169-174 | forgets accounts and key lists but not the jobs, as the state machine's step does |
| AccountCache.HitAgrees | lib/client/src/account_fetcher.rs:249-254 | an answer from the cache is what the fetcher would reply, and no listed key is missing |
| AccountCache.CompleteAgrees | lib/client/src/account_fetcher.rs:260-276 | storing a reply, or failing, keeps the cache in agreement with the chain |
| AccountCache.StepKeepsInv | lib/client/src/account_fetcher.rs:206-341 | every step of asking, finishing, delivering and clearing keeps the invariant |
| AccountCache.InterleavingsAreSafe | lib/client/src/account_fetcher.rs:176-341 | in every interleaving at most one job per key is registered, exactly the running ones, and every answered call got an error or the fetcher's reply to what was missing when it asked, which for account and program reads is the whole request |
| AccountCache.PartialHitLosesCachedKeys | lib/client/src/account_fetcher.rs:289-341 | exactly when a multiple request with missing keys returns less than the fetcher would |
| LevelDiff.LevelsHoldTotals | bin/service-mango-orderbook/src/orderbook_filter.rs:83-95 | for orders listed by price the levels have distinct prices and hold each price's total |
| LevelDiff.UpdateNamesChanges | bin/service-mango-orderbook/src/orderbook_filter.rs:117-153 | the update names exactly the prices whose quantity changed, with the new quantity or 0 |
| LevelDiff.UpdateNamesOnce | bin/service-mango-orderbook/src/orderbook_filter.rs:117-153 | and each of them once |
| LevelDiff.ReplayGivesCurrent | bin/service-mango-orderbook/src/orderbook_filter.rs:117-153 | applying it to the previous levels gives the current ones if and only if no changed level has quantity 0 |
| LevelDiff.EmptyUpdateMeansEqual | bin/service-mango-orderbook/src/orderbook_filter.rs:212-223 | no update is sent if and only if the levels agree |
| LevelDiff.OrderUpdateTracks | bin/service-mango-orderbook/src/orderbook_filter.rs:225-237 | a consumer of order updates follows the change if and only if neither set of orders properly contains the other |
| LevelDiff.DiffLevels | bin/service-mango-orderbook/src/orderbook_filter.rs:117-153 | both loops compute the level update |
| LevelDiff.DiffOrders | bin/service-mango-orderbook/src/orderbook_filter.rs:105-115 | the orders of one list that are not in the other, in order |
| LevelDiff.PublishChanges | bin/service-mango-orderbook/src/orderbook_filter.rs:67-238 | checkpoints if the other side is known, a level update unless it is empty, an order update only with both additions and removals |
| LevelDiff.RunTracksTotals | bin/service-mango-orderbook/src/orderbook_filter.rs:83-223 | over every run of books with positive quantities a consumer of level updates ends with the last book's totals |
| LevelDiff.OracleRefreshesOnlyBids | bin/service-mango-orderbook/src/orderbook_filter.rs:322-360 | which sides a pass refreshes: both if both changed, only the bids if just the oracle did |
| ErrorTracking.ByLastOccurrenceOrdered | lib/client/src/error_tracking.rs:121-129 | the reference list has each message once, by last occurrence |
| ErrorTracking.RememberKeepsLast | lib/client/src/error_tracking.rs:123-129 | recording keeps exactly the last distinct messages up to the limit |
| ErrorTracking.WipingIsInvisible | lib/client/src/error_tracking.rs:143-150 | wiping never changes an answer until the next record if and only if states are kept at least as long as they cause skipping |
| ErrorTracking.Tracker.constructor | lib/client/src/error_tracking.rs:32-73 | no history, and the types with a threshold of their own have it |
| ErrorTracking.Tracker.HadTooManyErrors | lib/client/src/error_tracking.rs:83-106 | answers if and only if enough errors were recorded since the last removal and the last one is recent |
| ErrorTracking.Tracker.Record | lib/client/src/error_tracking.rs:108-129 | appends to the history of its type and key; the state is what the history amounts to |
| ErrorTracking.Tracker.Clear | lib/client/src/error_tracking.rs:137-141 | forgets exactly that history |
| ErrorTracking.Tracker.WipeOld | lib/client/src/error_tracking.rs:143-150 | forgets exactly the histories whose last error is too old, and changes no later answer for any type that is skipped no longer than histories are kept |
| BumpAllocator.AlignIsFirst | programs/mango-v4/src/allocator.rs:45-50 | the aligned address is the first one at or after the position, and the wrapping addition does not wrap |
| BumpAllocator.WordRoundTrip | programs/mango-v4/src/allocator.rs:35-54 | the position word reads back as written |
| BumpAllocator.AllocEffect | programs/mango-v4/src/allocator.rs:52-63 | a further allocation keeps the layout, and neither the position word nor the byte past the block touches any block |
| BumpAllocator.Heap.constructor | programs/mango-v4/src/allocator.rs:35-43 | a zeroed heap holds no block |
| BumpAllocator.Heap.Alloc | programs/mango-v4/src/allocator.rs:32-64 | over every sequence of allocations blocks are aligned, disjoint, above the header and below the heap end; it panics if and only if the block would not end before the heap does; earlier bytes are kept |
| BumpAllocator.Heap.Write | programs/mango-v4/src/allocator.rs:22-29 | writing into a block leaves the position word alone |
| BumpAllocator.Heap.Used | programs/mango-v4/src/allocator.rs:71-85 | 0 before the first allocation, then the distance of the position from the start, which bounds every block |

## Left out

- Keys of the order tree are sequences of 128 bits, so that the leading zeros of an exclusive or are the length of a common prefix; a leaf's fields that neither tree nor iteration look at are one number.
- The sum of an order's timestamp and time in force is not bounded to a u64, where the source would panic.
- BookIteration.BookSideIter.Next: a fixed order's price data above the largest i64, on which the source panics, is not excluded; no order of a good book has such (`GoodOrders`, `RunStaysGood`).
- `quantity_at_price`, `impact_price`, `matched_amount` and `matched_quantity`: further uses of the same iteration.
- NewOrders.PlaceOrder: the order's price, whether it is inside the market's price limits, the room in the event queue and whether the account has a slot are inputs; how order types determine the price, the errors when it comes out below 1 or the sequence number is used up, fees and the taker's position are not modelled. Among orders of equal expiry, or of the worst price, which one is removed is left open. Cancelling and funding are left out.
- NewOrders.RunUncrossedExactly: the oracle price is steady over the run, because a change of it alone can make pegged orders cross; `RunStaysGood` has no such condition.
- NewOrders.Orderbook.NewOrder: a failed call leaves the objects as they were when it failed; undoing a failed transaction is the runtime's part.
- Matching.Match: quantities are not bounded to an i64; orders on the book have positive quantities and prices, as the source says.
- Taking.ApplyChanges: finds a changed order by its key, where the source kept its slot; no slot moves in between.
- EventQueues: `revert_pushes`, which nothing calls, is not modelled.
- FillFeed.QueueFeed.Process: models the entries of one queue in the service's maps; rows leave out slot and write version, and a failing channel send is not modelled.
- `publish_changes_serum`, serum queues and serum books.
- FillFeed.RunTracksHistory: stated in one direction, because later steps may hide an earlier disagreement; the single step is an equivalence.
- Fill checkpoints are stored by queue key and looked up by market id in `bin/service-mango-fills/src/main.rs`; the lookup is not modelled.
- TcsScheduler.PrepareExecutions: requires at least one entry or no budget, since otherwise the sampler's error panics. The execution phase after it is not modelled.
- TcsSizing.MaxLiqeeExecution: health, prices, premiums and bank limits are inputs.
- QuoteCache.InterleavingsAreSafe: one pair of mints; the map of entries is not modelled. Quotes are reals, infinite or NaN.
- `quote_collateral_swap` and the other steps of `prepare_token_conditional_swap_inner2`.
- TopPnl.FetchTop: pnl and maxima are integers given as inputs; fetching and the settle limit are not modelled.
- Settlement.MatchMarket: takes the winners in the order they are given; sorting them by fee and the choice among equal losers are free, and pnl and fees are inputs.
- Compute-unit sums in `PreparedInstructions` are not bounded to a u32; the compute budget instruction that `to_instructions` puts first is part of a batch's size only.
- BatchPacking.SettleBatchProcessor.Send: a batch handed to the network counts as sent whether or not the network accepts it.
- AccountCache.InterleavingsAreSafe: the job key of a multiple request is its sorted key list in place of a hash of it, and the chain does not change.
- LevelDiff.OracleRefreshesOnlyBids: versions are compared by slot, then write version; prices and quantities are reals.
- ErrorTracking.Tracker.WipeOld: instants are numbers; logging is left out.
- BumpAllocator.Heap.Alloc: alignments are powers of two, as the layout guarantees; a panic ends the program, so nothing is stated about the heap after it.
- `checked_div_f64_precision` and the conversions of f64 to integers: floating point rounding is their point.
- RPC, websocket, postgres, HTTP, metrics and logging code, instruction builders, entry points, the command line and the TypeScript code: plumbing.
- `lib/checked_math`: a macro, whose expansion is not modelled.
