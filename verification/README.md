# Verification model of the ITCH limit-order-book engine

This project models the core of an engine that rebuilds limit order books from
NASDAQ TotalView-ITCH 5.0 messages, and proves what that core is built to
guarantee. `dafny verify dfyconfig.toml` checks all of it.

Main results, hardest first:

- **Books** (`BookSpec`, `BookEffects`, `OrderBooks`, `ReferenceModels`, `PriceGrid`,
  `LadderSpec`, `LadderBooks`, `Simulation`). The simple form of a book is the map from order
  reference to resting order, and every observation is a scan of it. The map-ladder
  book and the flat-array ladder are classes whose invariants tie their side maps,
  slots, cached counts and best indices to those scans. The ladder shows the same as
  the map book over every run, growing windows included, if and only if it never
  refuses the price of a new order. The oracle agrees with both wherever only buys
  and sells rest. What each operation leaves resting, what every level and quote then is,
  and which prices are refused is also stated outright, in numbers.
- **MoldUDP64 session** (`Mold`, `ReceiverSpec`, `Receivers`, `ReceiverSteps`,
  `ReceiverLaws`, `ReceiverProgress`, `Session`, `Recovery`). In-order, exactly-once delivery over
  arbitrary networks, bounds on the buffer and on requests, the exact condition for a poll
  to make progress and to ask, how much of a gap one poll recovers, the ways of getting
  stuck for ever, and the end-to-end theorem for the sender in the repository.
- **Two-thread replay** (`Bits`, `SpscQueues`, `TwoThreads`, `TwoThreadsLaws`, `FairRuns`,
  `BookBuilders`, `ThreadedReplay`, `BookKinds`, `ReplayedBooks`, `MessageEffects`,
  `BookSnapshots`).
  Every push and pop is split into its loads, slot access and store, with stale loads
  allowed. First in first out, no shared slot, nothing lost at shutdown, every fair run
  finishes, and equality with single-threaded replay, with its exact condition for each
  kind of book. Any encoded stream builds, across the queue, exactly the books its
  messages describe field by field (`ThreadedStreamBuildsBooks`).
- **Framing** (`Wire`, `Itch`, `Encode`, `FrameFormats`, `GzipSources`). Encode/parse round
  trip, the walk over a buffer undone, every frame byte by byte, and independence of the
  gzip walk from how the bytes are chunked.
- **Execution** (`ChildOrders`, `Twaps`, `Vwaps`, `RiskGates`). Conservation, release of
  exactly the bins that are due, catch-up to the interpolated volume curve, and the risk
  gate: run safety, the exact condition of every answer, and that it stops nothing it need
  not. All with the machine arithmetic.

`Machine` holds the fixed-width integers; `Arith`, `Seqs` and `Extremes` hold facts about
arithmetic, sequences and finite sets of numbers.

Operations that change state are methods of classes with the original's fields; each
is proved against a function on values, and the theorems are about those functions.

## Where the code and its documentation part

The model follows the code in each of these.

- `include/net/multicast_receiver.hpp:254-256` says a refused packet is requested again
  once earlier packets drain. With 256 packets buffered above a gap nothing can drain,
  because the missing packet is itself refused (`CrowdedIsForever`, `FullBufferStrands`),
  and after any refusal at all nothing is ever delivered again (`AnyRefusalIsFatal`).
- A packet of several messages can leave a buffered number below `next_seq_`; `drain` and
  `resolve_gaps` look only at the earliest number, so the session stops
  (`StaleIsForever`, `OverlapStrands`).
- A packet that starts below `next_seq_` is dropped whole, even if it contains that number,
  and the reply loop stops at the first answer to `next_seq_`: of two or more adjacent
  losses answered in order, one is recovered per poll, so that k of them close with the k-th
  later packet if k is at most 255 and never otherwise (`InOrderStep`, `InOrderClosesIff`),
  and if nothing new arrives the rest stay lost (`LaterLossesStay`). `PollMovesOnIff` is the
  exact condition for progress of a whole poll.
- The sequence number of the end-of-session packet is ignored, so a loss above the highest
  number heard is never noticed (`EndOfSessionIsBlind`, `LastMessageLost`).
- Threaded and direct replay are documented to build identical books (line 96 of the
  repository's own README). A frame of a known type with the wrong length crosses the queue
  as that type over a zeroed body and is dispatched as a real message for locate 0. The
  replays agree whenever no such frame occurs (`ThreadedEqualsSingle`). They agree after
  every call if and only if each such frame is of a type other than 'F' and meets a book of
  locate 0 that takes the zeroed message without a change and with a true result
  (`MapReplaysAlikeIff`, `LadderReplaysAlikeIff`), which can happen (`CutCancelIsUnfelt`)
  and need not (`CutDeleteDiffers`).
- Both books put any side other than `'B'` on the ask ladder; the oracle in the tests
  counts only `'S'` (`DepthAgreesIffTwoSided`).
- The ladder differs from the map book exactly at refused prices: off the tick grid, or
  beyond the growth ceiling (`LadderSimulatesMapBook`).
- `include/book/ladder_book.hpp:192-193` speaks of the growth ceiling for the constructor
  too, which does not check it (`InitialIgnoresCeiling`); the ladders the pipeline makes are
  under it all the same (`NeverAboveCeiling`).
- A `replace` that returns false on a known original has still retired it;
  `FailedReplaceRetires` says exactly when that happens, `ReplaceOntoAnother` is one case.
- The last TWAP boundary of an accepted schedule can pass 2^64, wrap, and release its bin
  early (`AcceptedAndEarly`); `ScheduleOnTimeIff` is the exact condition.
- The capacity check of the ring admits exactly 0 and the powers of two
  (`PowerOfTwoCheck`): 0, with which there is no slot to push into, and 1, with which
  nothing is ever pushed (`CapacityOneNeverFinishes`).

## Model

| member | source | states |
|---|---|---|
| `BookSpec.LevelFitsItsFields` | include/book/order_book.hpp:12-15 | with fewer than 2^32 orders at one side and price, neither the 64-bit share total nor the 32-bit order count of the level can wrap |
| `BookSpec.AddLevel` | include/book/order_book.hpp:38-40 | a new order changes the scanned level at its own side and price by its shares and one order, and every other level not at all |
| `BookSpec.DrainLevel` | include/book/order_book.hpp:105-115 | taking shares off a resting order shrinks exactly its own level, the clamps never bite, and an order with nothing left drops out of the count |
| `BookEffects.ReductionLeavesTheRest` | include/book/order_book.hpp:89-103 | an execution or cancellation of fewer shares than rest leaves exactly the difference under the same reference, price and side; of as many or more it retires the order; an unknown reference is refused and nothing moves |
| `BookEffects.AdditionRests` | include/book/order_book.hpp:34-42 | an accepted add leaves the order resting with the given side, shares and price and nothing else changed; a known reference is refused |
| `BookEffects.RemovalRetires` | include/book/order_book.hpp:49-56 | a delete takes exactly that order away and is true exactly when it was there |
| `BookEffects.ReplacementRests` | include/book/order_book.hpp:58-65 | a successful replace leaves the new reference in the original's place, on its side, with the new shares and price; it succeeds exactly when the original rests and the new reference is the same or free |
| `BookEffects.AdditionInLevels` | include/book/order_book.hpp:36-41 | the level at the order's side ('B' on the bids, all else on the asks) and price gains its shares and one order; every other level stands |
| `BookEffects.ReductionInLevels` | include/book/order_book.hpp:89-115 | the level of the reduced order loses exactly the smaller of the shares asked and the shares resting, and one order when nothing is left; every other level stands |
| `BookEffects.RemovalInLevels` | include/book/order_book.hpp:49-56 | the level of a deleted order loses its shares and one order |
| `BookEffects.QuotesAreBest` | include/book/order_book.hpp:67-76 | the best bid is the highest price a 'B' order rests at, the best ask the lowest price of any other, each with all the shares there, and none exactly when none rests |
| `BookEffects.LevelsAreCounted` | include/book/order_book.hpp:79-80 | the level counts are the numbers of distinct prices with an order resting |
| `BookEffects.QuoteAfterReduction` | include/book/order_book.hpp:67-103 | a quote whose level is not emptied by an execution or cancellation stays, less the smaller of the two if its level was hit |
| `OrderBooks.LadderAfterAdd` | include/book/order_book.hpp:36-41 | inserting into one side map gives exactly the scan of the enlarged locator, so no phantom level and no missing share |
| `OrderBooks.LadderAfterDrain` | include/book/order_book.hpp:106-115 | `sub_in` on the right side map gives exactly the scan of the reduced locator; a level disappears when, and only when, its last order does |
| `OrderBooks.OrderBook.Add` | include/book/order_book.hpp:34-42 | refuses a duplicate reference and changes nothing; otherwise the locator gains the order; both side maps stay equal to the scans |
| `OrderBooks.OrderBook.Execute` | include/book/order_book.hpp:46 | takes min(shares, resting) off a known order, retires it at zero, returns false on an unknown one; side maps stay equal to the scans |
| `OrderBooks.OrderBook.Cancel` | include/book/order_book.hpp:47 | same effect as an execution |
| `OrderBooks.OrderBook.Remove` | include/book/order_book.hpp:49-56 | retires a known order with all its shares, false on an unknown one; side maps stay equal to the scans |
| `OrderBooks.OrderBook.Replace` | include/book/order_book.hpp:58-65 | remove then add on the original's side: a false result on a known original has still retired it |
| `OrderBooks.OrderBook.BestBid` | include/book/order_book.hpp:67-71 | the head of the bid map is the highest bid price of any resting order with the sum of shares resting there, none when there is no bid |
| `OrderBooks.OrderBook.BestAsk` | include/book/order_book.hpp:72-76 | the head of the ask map is the lowest ask price of any resting order with the sum of shares resting there, none when there is no ask |
| `OrderBooks.OrderBook.Look` | include/book/order_book.hpp:67-80 | all five accessors together are what a linear scan of the resting orders gives |
| `OrderBooks.OrderBook.ReduceOrder` | include/book/order_book.hpp:89-103 | over-executes are cut to what rests; a zero-share order leaves at its first reduction |
| `OrderBooks.OrderBook.LevelSub` | include/book/order_book.hpp:117-124 | only the map of the order's side moves |
| `ReferenceModels.ReferenceModel.Add` | tests/test_full_day_invariants.cpp:48-50 | inserts unless the reference is known |
| `ReferenceModels.ReferenceModel.ReduceOrder` | tests/test_full_day_invariants.cpp:81-89 | same transition as the books: cut to what rests, erase at zero |
| `ReferenceModels.ReferenceModel.Remove` | tests/test_full_day_invariants.cpp:55 | erases, true exactly when there was something to erase |
| `ReferenceModels.ReferenceModel.Replace` | tests/test_full_day_invariants.cpp:57-64 | erase then add on the original's side |
| `ReferenceModels.ReferenceModel.Best` | tests/test_full_day_invariants.cpp:91-108 | the two linear passes, in any iteration order, find the best price of one side and the shares resting there |
| `ReferenceModels.ReferenceModel.BestPrice` | tests/test_full_day_invariants.cpp:91-101 | the running maximum (bids) or minimum (asks) over any iteration order is the best price, none when the side is empty |
| `ReferenceModels.ReferenceModel.SharesAt` | tests/test_full_day_invariants.cpp:102-107 | the second pass sums exactly the shares of the orders of that side at that price |
| `ReferenceModels.ReferenceModel.LevelCount` | tests/test_full_day_invariants.cpp:110-119 | the list built without duplicates has as many entries as there are distinct prices on the side |
| `ReferenceModels.ReferenceModel.Look` | tests/test_full_day_invariants.cpp:66-72 | the five observations the full-day comparison makes of the oracle |
| `ReferenceModels.DepthAgreesIffTwoSided` | include/book/order_book.hpp:119-123 | books and oracle agree on the depth at every price if and only if no order of a side other than 'B' or 'S' rests: the books put such an order among the asks, the oracle sees it on neither side |
| `ReferenceModels.ForeignSideIsInvisible` | include/book/order_book.hpp:38 | a concrete state in which the two differ: one order of another side is an ask level to the books and nothing to the oracle |
| `ReferenceModels.TwoSidedLooksTheSame` | tests/test_full_day_invariants.cpp:66-72 | while only buys and sells rest, the ladders' view and the oracle's view coincide |
| `ReferenceModels.OracleAgreesOverRuns` | tests/test_full_day_invariants.cpp:42-122 | over every run: map book and oracle agree on the depth at every price after every step if and only if no step rests an order of a side other than 'B' or 'S', and then they also return the same booleans and show the same view after every step, zero-share orders, over-executes, duplicates and failed replaces included |
| `PriceGrid.SnapToTick` | include/book/ladder_book.hpp:166-168 | the greatest multiple of the tick at or below the price |
| `PriceGrid.Initial` | include/book/ladder_book.hpp:51-55 | every constructor call gives a valid window that covers its base price, so the `max < min` exception cannot be thrown; tick size 0 becomes 1 |
| `PriceGrid.InitialIgnoresCeiling` | include/book/ladder_book.hpp:136-156 | the constructor does not check the ceiling: base price 100,000,000 with tick 1 and a window of a fifth gets more than 8,000,000 ticks |
| `PriceGrid.PriceOfSlot` | include/book/ladder_book.hpp:254-259 | every slot has a price inside the window, on the grid, whose index is that slot: no 32-bit wrap either way |
| `PriceGrid.SlotOfPrice` | include/book/ladder_book.hpp:254-256 | every covered price has an index in bounds, and an aligned one comes back from its slot |
| `PriceGrid.SlotsAscend` | include/book/ladder_book.hpp:257-259 | a higher slot is a strictly higher price, so best index means best price |
| `PriceGrid.AlignedIsAbsolute` | include/book/ladder_book.hpp:71 | the alignment test relative to the window's bottom is divisibility of the price itself, so all windows of a tick size accept the same prices |
| `PriceGrid.WidenCovers` | include/book/ladder_book.hpp:215-229 | a granted widening extends the window by whole ticks, covers the requested price and respects the ceiling; a covered price widens nothing |
| `PriceGrid.InitialIs` | include/book/ladder_book.hpp:51-55 | the window a constructor call chooses, in plain numbers: from the price less its window, down to a whole tick, up to the price plus its window, saturated at 2^32-1 |
| `PriceGrid.WideningIs` | include/book/ladder_book.hpp:215-229 | a widening is refused if and only if the price is outside and its end of the window around it is more than 8,000,000 ticks from the opposite end of the present one; granted, it moves that one end there |
| `PriceGrid.OffsetIsExact` | include/book/ladder_book.hpp:237 | the division that gives the re-homing offset is exact, and every old slot has a place in the new array |
| `PriceGrid.RehomedPrice` | include/book/ladder_book.hpp:241-244 | the slot an old level is copied to has the old level's price |
| `PriceGrid.HomeOfOldPrice` | include/book/ladder_book.hpp:241-244 | conversely, a slot of the wider window whose price was covered before is the copy target of an old slot |
| `LadderSpec.SideAfterAdd` | include/book/ladder_book.hpp:75-87 | the cached count and tracked best index stay those of the array when an order arrives at a slot |
| `LadderSpec.SideAfterEmptied` | include/book/ladder_book.hpp:285-288 | when a level empties, the count drops by one, an unrelated best index stays right, and an emptied best leaves nothing at or beyond it |
| `LadderSpec.SlotsAfterAdd` | include/book/ladder_book.hpp:74-86 | one bumped slot turns the array of one locator into the array of the enlarged one |
| `LadderSpec.SlotsAfterDrain` | include/book/ladder_book.hpp:277-298 | one shrunk slot turns the array of one locator into the array of the reduced one, and the slot was occupied |
| `LadderSpec.SideAfterRehoming` | include/book/ladder_book.hpp:251-252 | shifting both best indices by the offset keeps count and best correct in the larger array |
| `LadderSpec.SlotsAfterWidening` | include/book/ladder_book.hpp:236-250 | the re-homed array is exactly what the wider window prescribes for the same orders |
| `LadderSpec.NewSlotIsEmpty` | include/book/ladder_book.hpp:239-240 | a slot that is nobody's copy target prices nothing that rests, so leaving it blank is right |
| `LadderSpec.OccupiedCountsPrices` | include/book/ladder_book.hpp:126-127 | the number of occupied slots is the number of distinct resting prices |
| `LadderSpec.SlotQuoteIsBest` | include/book/ladder_book.hpp:114-123 | the quote read at the tracked best index is the best quote a scan finds |
| `LadderSpec.LadderApplyIsValid` | include/book/ladder_book.hpp:57-112 | every operation keeps the window valid and every resting order on it |
| `LadderBooks.LadderBook.constructor` | include/book/ladder_book.hpp:51-55 | an empty book over the window chosen for the base price, satisfying the representation invariant |
| `LadderBooks.LadderBook.Add` | include/book/ladder_book.hpp:57-89 | window growth, alignment test, duplicate test and slot update in that order; a refused add may have grown the window, and the locator then is unchanged |
| `LadderBooks.LadderBook.Rest` | include/book/ladder_book.hpp:72-88 | the accepted tail: order, slot, level count and best index updated together keep the representation invariant |
| `LadderBooks.LadderBook.RestBid` | include/book/ladder_book.hpp:75-80 | bid side of the same |
| `LadderBooks.LadderBook.RestAsk` | include/book/ladder_book.hpp:81-87 | ask side of the same |
| `LadderBooks.LadderBook.Execute` | include/book/ladder_book.hpp:93 | same locator and boolean as the simple form; representation invariant kept |
| `LadderBooks.LadderBook.Cancel` | include/book/ladder_book.hpp:94 | same effect as an execution |
| `LadderBooks.LadderBook.Remove` | include/book/ladder_book.hpp:96-103 | same locator and boolean as the simple form; representation invariant kept |
| `LadderBooks.LadderBook.Replace` | include/book/ladder_book.hpp:105-112 | remove then add, including the window growth of the add; a false result on a known original has retired it |
| `LadderBooks.LadderBook.BestBid` | include/book/ladder_book.hpp:114-118 | the quote at the tracked index is the best bid of a scan |
| `LadderBooks.LadderBook.BestAsk` | include/book/ladder_book.hpp:119-123 | the quote at the tracked index is the best ask of a scan |
| `LadderBooks.LadderBook.Look` | include/book/ladder_book.hpp:114-127 | all accessors, cached counts included, are what a scan of the locator gives |
| `LadderBooks.LadderBook.GrowToInclude` | include/book/ladder_book.hpp:215-229 | a refusal changes no field; a grant installs the widened window and keeps the locator, hence every level and both quotes |
| `LadderBooks.LadderBook.ResizeRange` | include/book/ladder_book.hpp:236-253 | both arrays re-homed at the exact offset, both best indices shifted by it |
| `LadderBooks.LadderBook.CopyTo` | include/book/ladder_book.hpp:237-244 | the copy loop: every old level at index plus offset, blanks elsewhere, no index out of bounds |
| `LadderBooks.LadderBook.ReduceOrder` | include/book/ladder_book.hpp:261-275 | over-executes are cut to what rests, the order leaves at zero; representation invariant kept |
| `LadderBooks.LadderBook.LevelSub` | include/book/ladder_book.hpp:277-298 | after the locator has moved, one slot update restores the representation invariant |
| `LadderBooks.LadderBook.LevelSubBid` | include/book/ladder_book.hpp:279-288 | bid side: shrink, and on emptying drop the count and retreat only if the best emptied |
| `LadderBooks.LadderBook.LevelSubAsk` | include/book/ladder_book.hpp:289-297 | ask side: shrink, and on emptying drop the count and advance only if the best emptied |
| `LadderBooks.LadderBook.RetreatBestBid` | include/book/ladder_book.hpp:303-311 | finds the highest occupied bid slot, none when no slot is occupied |
| `LadderBooks.LadderBook.AdvanceBestAsk` | include/book/ladder_book.hpp:315-323 | finds the lowest occupied ask slot, none when no slot is occupied |
| `Simulation.AddAgrees` | include/book/ladder_book.hpp:57-89 | an add agrees with the map book in result and contents unless its reference is new and its price refused, and then it leaves the ladder's orders alone |
| `Simulation.StepAgrees` | include/book/ladder_book.hpp:57-112 | one operation: same boolean and same orders as the map book, or the ladder refuses a new order's price, says false where the map book says true, and holds different orders afterwards |
| `Simulation.LadderSimulatesMapBook` | include/book/ladder_book.hpp:57-127 | over every run, growing windows included: same booleans, best quotes, open orders and level counts after every step, if and only if no step rests a new order at a refused price |
| `Simulation.FailedReplaceRetires` | include/book/ladder_book.hpp:105-112 | for a known original, the map book's replace fails if and only if the new reference is that of another resting order, the ladder's also if and only if the price is refused; a failed replace leaves exactly the orders without the original, so false means unchanged if and only if the original was unknown |
| `Simulation.ReplaceOntoAnother` | include/book/order_book.hpp:58-65 | with orders 1 and 2 resting, replacing 1 by 2 returns false in both books and leaves only 2 |
| `Simulation.FeedLadder` | tests/test_full_day_invariants.cpp:137-167 | one event into the ladder is one step of the ladder state machine |
| `Simulation.FeedMap` | tests/test_full_day_invariants.cpp:137-167 | one event into the map book is one step of the simple form |
| `Simulation.FeedOracle` | tests/test_full_day_invariants.cpp:137-167 | one event into the oracle is the same step |
| `Simulation.FeedAll` | tests/test_full_day_invariants.cpp:137-168 | one event into all three: they return and show the same if and only if the ladder did not refuse a new order's price |
| `Simulation.CompareOverDay` | tests/test_full_day_invariants.cpp:124-168 | the whole-day comparison of three freshly made books ends in agreement if and only if the ladder refuses no new order's price all day |
| `Simulation.Compare` | tests/test_full_day_invariants.cpp:144-168 | the comparison after one event finds no difference if and only if the ladder did not refuse a new order's price |
| `Simulation.ReduceEverywhere` | include/book/ladder_book.hpp:261-275 | in all three books an execution or cancellation leaves the difference, or retires the order, or refuses |
| `Simulation.LookReduceLook` | include/book/ladder_book.hpp:114-127 | seen from outside each of the three books: a quote that is not emptied loses exactly the smaller of the shares asked and the shares resting |
| `Simulation.RefusedIff` | include/book/ladder_book.hpp:70-71 | a price is refused by the ladder if and only if it is off the tick grid or too far, in the numbers of its window |
| `Simulation.LadderAdditionRests` | include/book/ladder_book.hpp:57-89 | an add to the ladder succeeds if and only if the reference is new, the price a whole number of ticks, and no more than 8,000,000 ticks are needed to reach it; what rests and what the window then is, spelled out |
| `Simulation.LadderReplacementRests` | include/book/ladder_book.hpp:105-112 | the same for a replace: the new reference rests in the original's place, or the original alone is gone |
| `Simulation.WatchLadder` | include/book/ladder_book.hpp:57-127 | over any run, what a caller of the ladder gets back and sees after each operation is the trace the simulation theorem compares |
| `Simulation.WatchMap` | include/book/order_book.hpp:34-80 | the same for the map book |
| `Simulation.WatchOracle` | tests/test_full_day_invariants.cpp:48-72 | the same for the oracle |
| `Wire.ShiftedBytes` | include/itch/messages.hpp:11-17 | the 16- and 32-bit shift expressions are the number the bytes spell, most significant first |
| `Wire.ShiftedHalves` | include/itch/messages.hpp:18-23 | the 48- and 64-bit decoders, put together from halves, are the number the bytes spell |
| `Wire.PutBe` | include/itch/encode.hpp:18-30 | the shift loops append the low bytes of the value, most significant first |
| `Wire.ValueOfBigEndian` | include/itch/encode.hpp:18-30 | reading back n appended bytes gives the value modulo 256^n |
| `Wire.DecodedField` | include/itch/messages.hpp:11-23 | each decoder undoes its encoder up to the width of the field |
| `Itch.CopyStock` | include/itch/parser.hpp:16-20 | the backward loop gives the field without trailing spaces, filled up with NUL |
| `Itch.ParseStream` | include/itch/parser.hpp:104-116 | makes one call per complete frame at the front of the buffer, in order, and returns their number |
| `Itch.WalkSplits` | include/itch/parser.hpp:104-116 | cutting a buffer anywhere: the frames complete before the cut, then those of the left-over tail followed by the rest |
| `Itch.LeftoverHasNoFrame` | include/itch/parser.hpp:108-110 | what the walk leaves over holds no complete frame at its front |
| `Itch.ConsumedPrefix` | include/io/gzip_source.hpp:87-88 | parsing exactly the bytes up to the frame boundary finds the same frames |
| `FrameFormats.TrimmedIsTicker` | include/itch/parser.hpp:16-20 | byte by byte: the ticker field up to its last non-space, then NUL, nine bytes |
| `FrameFormats.AddFrames` | include/itch/parser.hpp:39-50 | an 'A' frame of 36 and an 'F' frame of 40 bytes: which bytes are locate, timestamp, reference, side, shares, ticker and price |
| `FrameFormats.ExecutedFrame` | include/itch/parser.hpp:51-59 | an 'E' frame of 31 bytes, field by field |
| `FrameFormats.ExecutedPriceFrame` | include/itch/parser.hpp:60-70 | a 'C' frame of 36 bytes, field by field; printable exactly when byte 31 is 'Y' |
| `FrameFormats.CancelAndDeleteFrames` | include/itch/parser.hpp:71-85 | an 'X' frame of 23 and a 'D' frame of 19 bytes, field by field |
| `FrameFormats.ReplaceFrame` | include/itch/parser.hpp:86-95 | a 'U' frame of 35 bytes: the original reference, then the new one, shares and price |
| `FrameFormats.OtherFrames` | include/itch/parser.hpp:31-37 | a frame is skipped, with its type byte and length, if and only if the two are not one of these seven pairs |
| `FrameFormats.EncodedConstants` | include/itch/encode.hpp:36-104 | the tracking number of every encoded message is 0, and the byte for not printable is 'N' |
| `FrameFormats.FirstFrameIs` | include/itch/parser.hpp:107-110 | the first frame ends two bytes plus the stated length in; there is none when the length is 0 or more than what follows |
| `FrameFormats.ReframedIsConsumed` | include/itch/parser.hpp:104-116 | the walk undone, for every buffer: framing its frames again gives exactly the bytes it consumed |
| `FrameFormats.HeaderSays` | include/net/moldudp64.hpp:98-104 | which of the 20 header bytes are session, sequence number and count; the two counts 0 and 0xFFFF that are none |
| `FrameFormats.SessionBytes` | include/net/moldudp64.hpp:48-57 | a session name is cut or filled up with 0x20 to ten bytes |
| `Encode.PutStock8` | include/itch/encode.hpp:31-34 | the ticker cut to eight bytes and filled up with spaces |
| `Encode.PutHeader` | include/itch/encode.hpp:36-41 | type, locate, zero tracking number and 48-bit timestamp, 11 bytes |
| `Encode.Encoded` | include/itch/encode.hpp:43-104 | each of the six encoders writes its fields in wire order |
| `Encode.Frame` | include/itch/encode.hpp:108-111 | appends a length prefix cut to 16 bits and the payload |
| `Encode.Stream` | include/itch/encode.hpp:113-117 | frames every message in order |
| `Encode.MessageRoundTrip` | include/itch/parser.hpp:30-98 | every encoded message, whatever its fields, is decoded as a message of its own type with its own fields; only the timestamp is cut to 48 bits and the ticker normalised |
| `Encode.TickerRoundTrip` | include/itch/parser.hpp:16-20 | a ticker (NUL bytes at its end aside) comes back as it went in if and only if it has at most eight bytes and no trailing space |
| `Encode.RepresentableIsReportedWhole` | include/itch/parser.hpp:10-20 | with a 48-bit timestamp and such a ticker nothing is lost at all |
| `Encode.StreamWalks` | include/itch/encode.hpp:108-117 | framing any payloads of 1 to 65535 bytes and following them with anything: the walk finds exactly the payloads, then the frames of the rest |
| `Encode.StreamRoundTrip` | include/itch/parser.hpp:104-116 | any list of encoded messages mixed with undecoded types, followed by any partial frame: the parser reports as many calls as list entries, with the original fields, in order |
| `GzipSources.ChunksDoNotMatter` | include/io/gzip_source.hpp:83-90 | for every byte string and every split into chunks, the carry-over loop makes the calls of one parse over the whole and keeps the tail that parse leaves over |
| `GzipSources.NothingLeftToFind` | include/io/gzip_source.hpp:83-84 | a round that produced nothing may be skipped |
| `GzipSources.GzipSource.FrameBoundary` | include/io/gzip_source.hpp:118-126 | the bytes the parser's walk consumes |
| `GzipSources.GzipSource.Run` | include/io/gzip_source.hpp:52-100 | independent of the chunking: the calls are those of one parse over the whole; at the end marker the run succeeds with their number if and only if the walk consumes every byte; the other two endings give their own errors |
| `Mold.SessionsCoincideIff` | include/net/moldudp64.hpp:48-57 | two names denote the same session if and only if they agree once cut to ten bytes and stripped of trailing spaces |
| `Mold.Encode` | include/net/moldudp64.hpp:89-95 | appends session, 64-bit sequence number and 16-bit count |
| `Mold.GetBe64` | include/net/moldudp64.hpp:78-82 | the accumulating loop is the 64-bit big-endian decoder |
| `Mold.HeaderRoundTrip` | include/net/moldudp64.hpp:98-104 | a header is read back whole, whatever payload follows |
| `ReceiverSpec.KeptByPoll` | include/net/multicast_receiver.hpp:270-296 | an invariant kept by buffering an admitted packet, consuming the next one, sending a request and ending the session is kept by a whole poll, nested retry and drain loops included |
| `ReceiverSpec.KeptByRun` | include/net/multicast_receiver.hpp:209-215 | and by every run of polls |
| `Receivers.Receiver.constructor` | include/net/multicast_receiver.hpp:397-402 | starts at sequence number 1 with nothing buffered |
| `Receivers.Receiver.OnPoll` | include/net/multicast_receiver.hpp:209-215 | one datagram, short ones ignored: new state and frame count of the state machine |
| `Receivers.Receiver.OnPacket` | include/net/multicast_receiver.hpp:269-282 | foreign sessions, the end of the session and heartbeats dispatch nothing |
| `Receivers.Receiver.AcceptPacket` | include/net/multicast_receiver.hpp:288-296 | drops what was already applied, otherwise buffers, resolves gaps and drains |
| `Receivers.Receiver.BufferPacket` | include/net/multicast_receiver.hpp:305-311 | refuses a new number at 256 buffered packets and counts it; a buffered number is overwritten |
| `Receivers.Receiver.FillGaps` | include/net/multicast_receiver.hpp:318-350 | the retry loop: at most five requests, each from the number waited for up to the first buffered one |
| `Receivers.Receiver.ReceiveReplies` | include/net/multicast_receiver.hpp:333-348 | the reply loop of one attempt: unusable replies skipped, usable ones buffered, left when the gap is closed or reading would block |
| `Receivers.Receiver.DrainPending` | include/net/multicast_receiver.hpp:352-382 | parses buffered packets while the earliest is the one waited for |
| `Receivers.Receiver.HandOver` | include/net/multicast_receiver.hpp:374-379 | advances by the number of frames parsed, not by the claimed count, and counts a mismatch |
| `ReceiverSteps.BufferedOrRefused` | include/net/multicast_receiver.hpp:305-311 | a new number is refused, and counted once, exactly when 256 others are held; otherwise the packet is held, replacing one already there |
| `ReceiverSteps.RefusalIsCounted` | include/net/multicast_receiver.hpp:305-311 | a whole unanswered poll adds one to the count of refusals if and only if its packet was refused, else nothing |
| `ReceiverSteps.HandedOver` | include/net/multicast_receiver.hpp:374-379 | one packet handed over: no longer held, its frames dispatched, next_seq moved by their number |
| `ReceiverSteps.MismatchesAreCounted` | include/net/multicast_receiver.hpp:352-382 | a drain adds one mismatch for each packet it hands over whose stated count is not its number of frames |
| `ReceiverSteps.UnansweredIsAskedFiveTimes` | include/net/multicast_receiver.hpp:318-350 | a gap nobody answers is asked about exactly five times in one poll, each time for the numbers up to the first one held, 65,534 at most, and the packet stays held |
| `ReceiverSteps.PassedOverIsSkipped` | include/net/multicast_receiver.hpp:333-341 | short reads, other sessions, heartbeats, ends of session and numbers already passed make no difference wherever they come among the replies |
| `ReceiverSteps.ReplyIsTaken` | include/net/multicast_receiver.hpp:333-348 | EAGAIN ends an attempt, and so does a reply that puts next_seq in front; any other packet of the session is held and the attempt goes on |
| `ReceiverSteps.EndedIffHeard` | include/net/multicast_receiver.hpp:274-277 | over every run the session has ended if and only if its last packet was heard on the data channel |
| `ReceiverSteps.EachAttemptReadsItsOwn` | include/net/multicast_receiver.hpp:318-332 | each of the attempts sends its request and then reads only the replies of its own wait |
| `Receivers.Listen` | include/net/multicast_receiver.hpp:209-215 | the receiver itself, polled over any arrivals, ends in the state of the run and returns its frames |
| `ReceiverLaws.DeliversInOrderExactlyOnce` | include/net/multicast_receiver.hpp:270-382 | if each packet at s carries whole frames of messages s, s+1, ..., then under any loss, duplication, reordering, overlap, heartbeats and foreign sessions the calls made are those of messages 1 to next_seq-1, each once, in order |
| `ReceiverLaws.PollsAddUp` | include/net/multicast_receiver.hpp:209-215 | for arbitrary packets, the sum of poll results is next_seq-1 and so is the number of calls made |
| `ReceiverLaws.NoFalseMismatch` | include/net/multicast_receiver.hpp:374-376 | over every run of packets whose claimed count is what they parse to, no mismatch is ever reported |
| `ReceiverLaws.GapRequestIsProper` | include/net/multicast_receiver.hpp:322-327 | a request names 1 to 0xFFFE numbers, starts at the one waited for, contains none that is buffered, and ends right before the first buffered one unless capped |
| `ReceiverLaws.PollAsksAtMostFive` | include/net/multicast_receiver.hpp:318-321 | one poll sends at most five requests, whatever is replied |
| `ReceiverLaws.AlwaysBounded` | include/net/multicast_receiver.hpp:257 | over every run of arbitrary packets at most 256 are ever buffered and every request sent was proper |
| `ReceiverLaws.AcceptStaysAhead` | include/net/multicast_receiver.hpp:288-296 | if no payload parses to more than one frame, every buffered number exceeds next_seq after each accept |
| `ReceiverLaws.DrainReachesLeastMissing` | include/net/multicast_receiver.hpp:353-382 | draining a clean buffer moves next_seq to the least number whose whole frame is not buffered |
| `ReceiverLaws.WaitedForFrameMovesOn` | include/net/multicast_receiver.hpp:288-296 | accepting the frame waited for while there is room moves next_seq strictly on, to the least number missing from the buffered whole frames |
| `ReceiverLaws.MovesOnIff` | include/net/multicast_receiver.hpp:288-296 | a packet that starts at next_seq and holds at least one frame moves the receiver on if and only if no number below next_seq is buffered and the buffer is not full above a gap |
| `ReceiverLaws.StaleIsForever` | include/net/multicast_receiver.hpp:320-355 | one buffered number below next_seq stops delivery and gap requests for ever, whatever arrives |
| `ReceiverLaws.CrowdedIsForever` | include/net/multicast_receiver.hpp:305-311 | with 256 packets buffered above a gap the missing packet is refused from either channel for ever |
| `ReceiverProgress.RefusalCrowds` | include/net/multicast_receiver.hpp:305-311 | a poll that refuses any packet, from either channel, leaves the buffer full above the gap (nothing stale and next_seq not buffered before it) |
| `ReceiverProgress.AnyRefusalIsFatal` | include/net/multicast_receiver.hpp:305-382 | over every run of arbitrary packets: once one packet has been refused, nothing is ever delivered again |
| `ReceiverLaws.OverlapStrands` | include/net/multicast_receiver.hpp:355-380 | a run of two honest packets, message 2 alone and then 1 and 2 together, after which nothing is ever delivered again |
| `ReceiverLaws.FullBufferStrands` | include/net/multicast_receiver.hpp:305-311 | a run of 256 honest packets, 2 to 257, after which nothing is ever delivered |
| `ReceiverProgress.GapsAbsorb` | include/net/multicast_receiver.hpp:318-350 | the five attempts read the usable replies as one reading: each is buffered until the first that closes the gap, and whatever lies behind that one is not read |
| `ReceiverProgress.PollMovesOnIff` | include/net/multicast_receiver.hpp:209-382 | the exact condition for a whole poll to move on, from the state, the datagram and the replies: nothing stale is buffered and the datagram is a packet of this session that starts at next_seq, with a frame and room for it, or starts above it while the number waited for is buffered or is answered by the replies before they fill the buffer; a packet that starts below next_seq never moves it, even if it contains that number |
| `ReceiverProgress.IdleChangesNothing` | include/net/multicast_receiver.hpp:270-291 | however many foreign, heartbeat, end-of-session or already passed packets arrive, nothing changes but the end-of-session flag: nothing is delivered and no gap is asked about again |
| `ReceiverProgress.PollAsksIff` | include/net/multicast_receiver.hpp:318-328 | a poll sends a request if and only if it hears a number above next_seq, which is not buffered (or hears next_seq itself and has to refuse it); the request then starts at next_seq and reaches up to the first buffered number or the protocol limit |
| `ReceiverProgress.EndOfSessionIsBlind` | include/net/multicast_receiver.hpp:274-277 | over every run, ended or not: if no message above m was heard, next_seq is at most m+1 and every number ever asked for is below m, whatever final number the end of the session announced |
| `ReceiverProgress.GapRecovery` | include/net/multicast_receiver.hpp:318-382 | a gap of any size, replies in any order: the poll moves to the least number missing from what was buffered and what was read up to and including the first answer to next_seq |
| `ReceiverProgress.InOrderStep` | include/net/multicast_receiver.hpp:318-382 | with the next number lost as well and room to spare, a poll whose first usable reply answers next_seq delivers exactly that message and keeps the packet that revealed the loss |
| `ReceiverLaws.SinglesLeaveNothingStale` | include/net/multicast_receiver.hpp:318-382 | over every run of packets of at most one frame, no stale number is ever left behind |
| `Session.BlocksAreFrames` | include/net/multicast_test_sender.hpp:85-97 | each loaded block parses to exactly one frame of the buffer, and any proper prefix of it to none |
| `Session.BlocksAreFramed` | include/net/multicast_test_sender.hpp:85-97 | each block is its frame behind the frame's two length bytes |
| `Session.SentOnceInOrder` | include/net/multicast_test_sender.hpp:105-112 | message n is on the wire if and only if it is not dropped: the numbers sent ascend strictly, and each packet carries the block of its own number |
| `Session.Sender.Load` | include/net/multicast_test_sender.hpp:85-97 | keeps the complete frames of the buffer, prefixes included, in order |
| `Session.Sender.SendAll` | include/net/multicast_test_sender.hpp:105-112 | each undropped message once, in order, numbered from 1, one per packet, then the end of the session |
| `Session.Sender.ServeOneRequest` | include/net/multicast_test_sender.hpp:148-166 | answers a request of its own session with the messages asked for, cut at the last loaded one, and with nothing from a number never sent; a 64-bit wrap of the number ends the reply |
| `Session.Sender.SendDataPacket` | include/net/multicast_test_sender.hpp:169-175 | header followed by the payload |
| `Session.ClippedBlockIsHonest` | include/net/multicast_receiver.hpp:331-334 | whatever a 65536-byte read keeps of a sent packet is still honest, and holds at most one frame |
| `Session.HeardIsAdmitted` | include/net/multicast_receiver.hpp:269-282 | everything a lossy network can deliver from this sender is an honest single-frame packet, or is ignored |
| `Session.EndToEnd` | include/net/multicast_receiver.hpp:288-382 | loaded buffer, any drop predicate, any lossy network: the calls made are always a prefix of those of parsing the buffer, all of them once next_seq is message count plus 1, and nothing stale is left behind |
| `Session.InOrderRepliesRecoverOne` | include/net/multicast_receiver.hpp:318-382 | after a loss of two messages or more answered in order, the poll recovers exactly one of them, however many answers are on their way; the packet that revealed the loss stays buffered |
| `Session.OneLossIsRecovered` | include/net/multicast_receiver.hpp:318-382 | a loss of exactly one message is recovered in the poll that reveals it: one request for exactly that number, both messages delivered in order, nothing left buffered |
| `Recovery.LaterLossesStay` | include/net/multicast_receiver.hpp:274-296 | if nothing new follows such a loss but heartbeats, the end of the session and repeats, all but the first lost message stay lost and the revealing packet is never delivered |
| `Recovery.InOrderClosesIff` | include/net/multicast_receiver.hpp:305-382 | k adjacent losses, every request answered in order, one later message heard per poll: one message comes back per poll and the gap closes with the k-th poll if k is at most 255; from 256 on, 255 messages come back and then nothing is delivered whatever arrives |
| `Recovery.BackwardsRepliesRecoverAll` | include/net/multicast_receiver.hpp:333-382 | answered from the last to the first, a gap of up to 255 messages closes in the poll that reveals it |
| `Recovery.LastMessageLost` | include/net/multicast_test_sender.hpp:105-112 | the run in which the sender drops only its last message: the receiver hears everything else and the end of the session, delivers all but the last message, and asks for nothing |
| `Recovery.LosslessRunDeliversAll` | include/net/multicast_test_sender.hpp:105-112 | with nothing lost the receiver delivers every message of the buffer, asks for nothing, holds nothing and reports the session ended |
| `Bits.MaskIsRemainder` | include/pipeline/spsc_queue.hpp:79 | masking with 2^k-1 is the remainder modulo 2^k |
| `Bits.PowerOfTwoCheck` | include/pipeline/spsc_queue.hpp:28 | the compile-time check, in 64-bit words, admits exactly 0 and the powers of two |
| `Bits.WrappedDifference` | include/pipeline/spsc_queue.hpp:75 | subtracting modulo 2^64 before masking loses nothing |
| `SpscQueues.NextIsModular` | include/pipeline/spsc_queue.hpp:38 | the masked increment is plus one modulo the capacity |
| `SpscQueues.MaskedSize` | include/pipeline/spsc_queue.hpp:72-76 | the masked difference of the indices is the number of queued items |
| `SpscQueues.SpscQueue.constructor` | include/pipeline/spsc_queue.hpp:81-88 | an empty ring |
| `SpscQueues.SpscQueue.Push` | include/pipeline/spsc_queue.hpp:36-49 | refuses exactly at capacity-1 items and then touches no slot; otherwise appends |
| `SpscQueues.SpscQueue.Pop` | include/pipeline/spsc_queue.hpp:53-63 | refuses exactly when empty; otherwise removes the oldest item |
| `SpscQueues.SpscQueue.Size` | include/pipeline/spsc_queue.hpp:72-76 | the number of queued items, at most capacity-1 |
| `TwoThreads.FullTest` | include/pipeline/spsc_queue.hpp:42 | with a possibly stale head, the full test answers for the head that was loaded: a not-full answer always leaves a free slot |
| `TwoThreads.EmptyTest` | include/pipeline/spsc_queue.hpp:57 | with a possibly stale tail, the empty test answers for the tail that was loaded: a not-empty answer always leaves an unread slot |
| `TwoThreads.OccupancyReading` | include/pipeline/threaded_replay.hpp:39-40 | the occupancy read after a push is exact for the head that was loaded and never above capacity-1 |
| `TwoThreads.StepKeepsInv` | include/pipeline/spsc_queue.hpp:36-76 | each load, slot access and store of either thread, whatever stale value it observes, keeps the system invariant |
| `TwoThreadsLaws.RingIsFifo` | include/pipeline/spsc_queue.hpp:36-63 | in every reachable state, popped followed by queued is what was pushed, the ring holds at most capacity-1, and the dispatched envelopes are a prefix of the input |
| `TwoThreadsLaws.SlotsAreNotShared` | include/pipeline/spsc_queue.hpp:42-58 | the slot about to be written is never unread and never the one being read |
| `TwoThreadsLaws.NothingIsLost` | include/pipeline/threaded_replay.hpp:81-98 | when the consumer leaves its loop it has dispatched every envelope, those pushed between its last failed pop and its read of the flag included |
| `TwoThreadsLaws.StaleFullTest` | include/pipeline/spsc_queue.hpp:36-43 | the system includes the stale load: a producer that still sees the old head turns away, however much has been popped since |
| `TwoThreadsLaws.StaleEmptyTest` | include/pipeline/spsc_queue.hpp:53-58 | likewise a consumer that still sees the old tail finds the ring empty, and one that still sees the old flag goes on |
| `TwoThreadsLaws.MaxOccupancyIsLargest` | include/pipeline/threaded_replay.hpp:38-42 | over every run the reported maximum is the largest occupancy reading taken, with one reading per frame |
| `TwoThreadsLaws.SomeThreadAdvances` | include/pipeline/threaded_replay.hpp:37-42 | with capacity at least 2, in every unfinished state satisfying the invariant some thread has a step that decreases a global measure |
| `TwoThreadsLaws.CanAlwaysFinish` | include/pipeline/threaded_replay.hpp:149-156 | hence from every such state a finishing run exists |
| `FairRuns.EveryFairRunFinishes` | include/pipeline/threaded_replay.hpp:136-160 | with capacity at least 2, every run in which each unended thread is scheduled again and again and every store becomes visible in finite time finishes with everything dispatched, however stale the loads are until then |
| `TwoThreadsLaws.EveryCountIsReached` | include/pipeline/threaded_replay.hpp:81-98 | with capacity at least 2, every number of dispatched envelopes up to the whole input occurs in some reachable state |
| `TwoThreadsLaws.CapacityOneNeverFinishes` | include/pipeline/threaded_replay.hpp:38 | a ring of capacity 1, which the compile-time check admits, never takes an envelope: with any input both threads spin for ever |
| `BookBuilders.BookBuilder.constructor` | include/pipeline/dispatch_to_book.hpp:71-74 | no books, zero counts |
| `BookBuilders.BookBuilder.Bump` | include/pipeline/dispatch_to_book.hpp:76 | one more of that type |
| `BookBuilders.BookBuilder.GetOrCreate` | include/pipeline/book_table.hpp:43-49 | grows the table as needed and makes the book from the price hint on first sight of a locate only |
| `BookBuilders.BookBuilder.Receive` | include/pipeline/dispatch_to_book.hpp:78-105 | each handler entry point counts its type, drives the locate's book and counts a false return |
| `BookBuilders.LocatesAreIndependent` | include/pipeline/dispatch_to_book.hpp:78-105 | each locate's book is the fold of that locate's messages alone, from the book made at its first one |
| `BookBuilders.CountsAreOccurrences` | include/pipeline/dispatch_to_book.hpp:76-105 | every type count is the number of calls of that type, and the counts sum to the calls made |
| `BookBuilders.UnknownRefsAreRefusals` | include/pipeline/dispatch_to_book.hpp:78-105 | unknown_refs is the number of messages their own locate's book refused |
| `BookBuilders.Replay` | src/replay_main.cpp:51-58 | single-threaded replay of a buffer: the builder ends as the fold of the parser's calls, and the frame count is theirs |
| `MessageEffects.MessageRests` | include/pipeline/dispatch_to_book.hpp:78-104 | each of the six messages, field by field, on map books: the slot of its locate holds the explicit map afterwards, all other slots stand, its letter is counted once, and unknown_refs moves exactly when a reference it names is unknown or taken |
| `MessageEffects.OtherIsCounted` | include/pipeline/dispatch_to_book.hpp:105 | a skipped frame is counted under its own byte and changes nothing else |
| `MessageEffects.MessageRestsInLadder` | include/pipeline/dispatch_to_book.hpp:78-104 | the same on ladders, first sight of a locate included: a price off the grid or too far keeps the new order out and is counted |
| `MessageEffects.StreamBuildsBooks` | include/pipeline/dispatch_to_book.hpp:78-105 | any encoded and framed list of messages, replayed: for every locate the book holds exactly what its own messages say, and unknown_refs and all counts are theirs |
| `MessageEffects.ThreadedStreamBuildsBooks` | include/pipeline/threaded_replay.hpp:136-160 | the same across the queue, for every capacity and every interleaving, once the consumer has left its loop |
| `MessageEffects.WrongLengthRests` | include/pipeline/dispatch_to_book.hpp:114-140 | what each of the seven types does to locate 0 when its frame has the wrong length |
| `ThreadedReplay.AcrossTheQueue` | include/pipeline/threaded_replay.hpp:44-66 | a call packed by the producer and dispatched by the consumer comes out the same, length aside, if and only if it is not a known type with a wrong length |
| `ThreadedReplay.QueueIsTransparentIff` | include/pipeline/dispatch_to_book.hpp:114-140 | crossing the queue leaves a call's effect on every builder of every kind of book unchanged if and only if it is not such a frame |
| `ThreadedReplay.QueueKeepsCallsIff` | include/pipeline/threaded_replay.hpp:44-66 | the same for a whole list of calls |
| `ThreadedReplay.MislabelledIsWrongLength` | include/itch/parser.hpp:31-37 | a call is of that kind exactly when its frame has a known type and not that type's length |
| `ThreadedReplay.ThreadedEqualsSingle` | include/pipeline/threaded_replay.hpp:136-160 | for every byte stream without such frames, every capacity, every kind of book and every interleaving with stale loads: final books, counts, unknown_refs and frame totals are those of a single-threaded parse |
| `ThreadedReplay.AlwaysAlikeIff` | include/pipeline/threaded_replay.hpp:44-66 | replay from the queue and direct replay hold the same builder after every call if and only if every call is unchanged by the queue on the builder it meets |
| `ThreadedReplay.ThreadedFollowsSingleIff` | include/pipeline/threaded_replay.hpp:136-160 | for every byte stream, capacity of at least 2 and kind of book: in all reachable states of the two threads the consumer's builder is that of a direct replay of as many frames, if and only if every call is unchanged by the queue on the builder it meets |
| `ReplayedBooks.WrongLengthStep` | include/pipeline/threaded_replay.hpp:66 | a frame of wrong length leaves a builder as the direct replay does if and only if its type is counted under its own letter, locate 0 has a book, and that book takes the zeroed message without a change |
| `ReplayedBooks.MapStepIff` | include/pipeline/dispatch_to_book.hpp:114-140 | for map books: if and only if order 0 rests at locate 0 with shares left and the frame is 'E', 'C' or 'X', or rests with no shares at price 0 and the frame is 'U' |
| `ReplayedBooks.LadderStepIff` | include/pipeline/dispatch_to_book.hpp:114-140 | the same condition for ladder books, window growth included |
| `ReplayedBooks.MapReplaysAlikeIff` | include/pipeline/threaded_replay.hpp:136-160 | for map books, threaded and direct replay agree after every call and in every reachable state of the threads if and only if every frame of wrong length meets such a book |
| `ReplayedBooks.LadderReplaysAlikeIff` | include/pipeline/threaded_replay.hpp:136-160 | the same for ladder books |
| `ReplayedBooks.CutCancelIsUnfelt` | include/pipeline/threaded_replay.hpp:66 | a wrong length need not show: once order 0 rests at locate 0, a cut 'X' frame changes nothing |
| `ReplayedBooks.CutDeleteDiffers` | include/pipeline/threaded_replay.hpp:66 | the shortest stream that shows, 00 01 'D', in both kinds of book: the threaded replay makes a book for locate 0 and counts an unknown reference, the direct one does neither |
| `ThreadedReplay.OneWrongLengthFrameDiffers` | include/pipeline/threaded_replay.hpp:66 | the concrete stream 00 01 'D': the threaded replay makes a book for locate 0 and counts an unknown reference, the direct one does neither |
| `BookKinds.MadeUnderCeiling` | include/pipeline/dispatch_to_book.hpp:41-46 | a ladder the pipeline makes starts under 8,000,000 ticks whatever the first price was |
| `BookKinds.StaysUnderCeiling` | include/book/ladder_book.hpp:215-229 | no operation takes a ladder from under the ceiling to above it |
| `BookKinds.NeverAboveCeiling` | include/pipeline/dispatch_to_book.hpp:28-47 | no message stream makes any locate's ladder allocate more than the ceiling |
| `BookKinds.KindsInterchange` | include/pipeline/dispatch_to_book.hpp:42-46 | ladder and map book hold the same orders after every message of a locate if and only if the locate's ladder refuses no new order's price |
| `BookKinds.MadeWindow` | include/pipeline/dispatch_to_book.hpp:28-47 | the ladder the pipeline makes, in plain numbers: ticks of 100 around the first price, or around 500,000 when that is 0 or above 100,000,000 |
| `BookKinds.PipelineNeverRefuses` | include/pipeline/dispatch_to_book.hpp:28-47 | over any run of prices that are multiples of 100 and at most 100,000,000, such a ladder refuses nothing and shows what a map book shows |
| `BookKinds.CentStreamsBuildTheSame` | include/pipeline/dispatch_to_book.hpp:28-47 | any message stream of such prices builds the same orders in ladders as in map books |
| `BookSnapshots.SnapshotBookTable` | include/pipeline/book_snapshot.hpp:66-87 | over real ladder or map books: one entry per built book, in locate order, with what a scan of its resting orders gives |
| `BookSnapshots.LookAt` | include/pipeline/book_snapshot.hpp:71-83 | quotes, open orders and level counts read off either kind of book are those of a scan |
| `BookSnapshots.BookCount` | include/pipeline/book_table.hpp:68-72 | the number of built books |
| `BookSnapshots.EachBookOnceInOrder` | include/pipeline/book_snapshot.hpp:66-87 | locates strictly increase, every entry is a built book with the scan of its resting orders, and every built book has an entry |
| `BookSnapshots.SnapshotStore.Publish` | include/pipeline/book_snapshot.hpp:104-109 | replaces the data and counts one more version |
| `BookSnapshots.SnapshotStore.Find` | include/pipeline/book_snapshot.hpp:124-129 | the first entry of that locate; none exactly when there is none |
| `BookSnapshots.PublishAndFind` | include/pipeline/book_snapshot.hpp:66-129 | snapshot, publish, look up: a locate is found exactly when its book is built, with the scan of that book's resting orders |
| `ChildOrders.ChildOrderQueue.Push` | include/exec/types.hpp:93-97 | appends, or at 512 orders refuses and changes nothing |
| `ChildOrders.ChildOrderQueue.Clear` | include/exec/types.hpp:98 | empties the queue |
| `Twaps.BinCountIsExact` | include/exec/twap.hpp:77-80 | an unwrapped sum gives exactly the span divided by the bin, rounded up; a wrapped one gives 0, and so is rejected |
| `Twaps.AcceptedIff` | include/exec/twap.hpp:73-80 | accepted if and only if start is before end, the bin is not 0, the rounded-up sum fits 64 bits and 512 bins cover the window |
| `Twaps.ScheduleSums` | include/exec/twap.hpp:86-90 | the schedule sums to the parent order |
| `Twaps.ScheduleIsEven` | include/exec/twap.hpp:86-90 | no bin gets more than one share above another, the larger ones first |
| `Twaps.NeverEarlyIff` | include/exec/twap.hpp:96-97 | a bin is never released before its time if and only if its boundary stays below 2^64 |
| `Twaps.EarlierBinsNeverWrap` | include/exec/twap.hpp:96 | of an accepted schedule only the last boundary can wrap: every other one lies before the end of the parent order |
| `Twaps.AcceptedAndEarly` | include/exec/twap.hpp:73-97 | an input the constructor accepts and that fails: start 2^64-10, end 2^64-1, bin 5 gives two bins, the second due at time 0 |
| `Twaps.ScheduleOnTimeIff` | include/exec/twap.hpp:73-107 | over all runs: no child of an accepted schedule is ever released before its bin has ended, if and only if start_ts + bin_count * bin_ns is below 2^64 |
| `Twaps.Twap.Create` | include/exec/twap.hpp:73-80 | throws exactly outside the accepted parameters |
| `Twaps.Twap.constructor` | include/exec/twap.hpp:86-91 | the loop fills the schedule with quotient plus one for the first `remainder` bins |
| `Twaps.Twap.Advance` | include/exec/twap.hpp:93-107 | pushes one child for every crossed bin in order while the queue has room |
| `Twaps.Twap.PushNext` | include/exec/twap.hpp:99-104 | one child with the bin's shares, the clock and the limit price (0 for market orders) |
| `Twaps.EmitsEachBinOnce` | include/exec/twap.hpp:93-107 | over any run of clock values, queue fills and clears, every child has the parent's side, type and price, the bins before next_bin have been emitted once each, in order, with their scheduled shares; once all are out the total is the parent order |
| `Twaps.ReleasesWhatIsDue` | include/exec/twap.hpp:93-107 | from any state with an empty queue, one look at the clock leaves released exactly the bins that were and those that have ended |
| `Twaps.Drive` | include/exec/twap.hpp:93-107 | the strategy itself, driven by any such events, emits exactly that |
| `Vwaps.FractionMonotone` | include/exec/vwap.hpp:126-161 | the curve fraction never falls, within a bucket or across bucket boundaries |
| `Vwaps.WithinIsFloor` | include/exec/vwap.hpp:159-160 | the slice of a bucket is weight times remainder over span, rounded down and by nothing more |
| `Vwaps.TargetIsInterpolated` | include/exec/vwap.hpp:134-168 | the target at any time before the end: the parent's shares times the table read in proportion between the ends of the bucket, over 1,000,000, both rounded down |
| `Vwaps.TargetIsScaled` | include/exec/vwap.hpp:163-167 | the final clamp never bites |
| `Vwaps.TargetCurve` | include/exec/vwap.hpp:149-168 | for any non-falling table ending at the scale: 0 at the start, exactly total_shares at the end, never falling between |
| `Vwaps.ProductsFit` | include/exec/vwap.hpp:134-164 | none of the three 128-bit products wraps |
| `Vwaps.Vwap.Create` | include/exec/vwap.hpp:76-79 | throws exactly when start is not before end |
| `Vwaps.Vwap.OnTradeTick` | include/exec/vwap.hpp:95-113 | inside the window, below the target and with room: one child for what is missing to the target; otherwise nothing is sent; the tape counter wraps at 2^32 |
| `Vwaps.TracksTheTarget` | include/exec/vwap.hpp:95-113 | over ticks in time order with queue room, shares_sent equals the target at the last tick inside the window |
| `Vwaps.RunWithRoom` | include/exec/vwap.hpp:95-113 | and it is the sum of the children pushed |
| `Vwaps.SentIsLargestTarget` | include/exec/vwap.hpp:95-113 | over any trades in any order, with any queue fills and clears: shares_sent is the largest target over the in-window trades that found room, never above total_shares, and the sum of the children pushed |
| `Vwaps.Drive` | include/exec/vwap.hpp:95-113 | the strategy itself, driven by any such events, ends with exactly that |
| `RiskGates.RiskGate.Check` | include/exec/risk_gate.hpp:106-146 | returns the first violated limit in the order tested; only the two cumulative ones trip the gate |
| `RiskGates.CollarIs` | include/exec/risk_gate.hpp:124-128 | the collar test, cross-multiplied: off if and only if the distance times 10,000 exceeds the reference times the basis points |
| `RiskGates.WhyRefused` | include/exec/risk_gate.hpp:106-146 | the exact condition of each of the seven answers, in the order's and the limits' own numbers |
| `RiskGates.OrdersWithinLimitsPass` | include/exec/risk_gate.hpp:106-146 | the gate stops nothing it need not: orders that meet their own limits and together the running ones all pass, in order |
| `RiskGates.AnswersInTurn` | include/exec/risk_gate.hpp:210-226 | draining a queue answers each order once, in turn, with what a check then says |
| `RiskGates.RiskGate.Record` | include/exec/risk_gate.hpp:153-156 | adds the order to both totals, modulo 2^64 and 2^128 |
| `RiskGates.NothingWraps` | include/exec/risk_gate.hpp:135-156 | within a session neither running total wraps, in a check or when recorded |
| `RiskGates.UncheckedRecordingWraps` | include/exec/risk_gate.hpp:153-156 | outside a session a recorded total is the true one if and only if the sum stays below 2^64 (shares) and 2^128 (notional) |
| `RiskGates.RiskGate.SetReferencePrice` | include/exec/risk_gate.hpp:90 | moves the reference price and nothing else |
| `RiskGates.RiskGate.Reset` | include/exec/risk_gate.hpp:169-173 | clears latch and totals, keeps the reference price |
| `RiskGates.Apply` | include/exec/risk_gate.hpp:210-226 | checks every order in turn, records exactly those that passed and found room, reports each reason and the number pushed; also when both queues are the same one |
| `RiskGates.SessionIsSafe` | include/exec/risk_gate.hpp:106-173 | over any interleaving from a fresh gate: the totals are the sums over the orders accepted since the last reset, never above their limits, each such order met the per-order limits and the collar in force, and no total nears its word size |
| `RiskGates.NothingBetweenTripAndReset` | include/exec/risk_gate.hpp:107 | from a trip to the next reset nothing is accepted and the totals stand still |
| `RiskGates.TripsExactlyOnBreach` | include/exec/risk_gate.hpp:135-143 | for any state of the gate, wrapped totals included: an untripped gate trips on a check if and only if the order meets its own limits and a running total with it is above its limit; it passes if and only if none is |
| `RiskGates.SessionTripsExactlyOnBreach` | include/exec/risk_gate.hpp:106-146 | in a session, in terms of the orders accepted since the last reset: a check trips the gate if and only if the order meets its own limits and would break a cumulative one, and passes it if and only if it breaks none |
| `RiskGates.ApplyIsPass` | include/exec/risk_gate.hpp:210-226 | draining a queue through the gate is the session step the safety theorem speaks of, with the same accepted orders |
| `RiskGates.Drive` | include/exec/risk_gate.hpp:90-173 | the gate itself, driven through any session, ends in its state with its accepted orders |

## Left out

- Sockets, `poll`/`recv`/`send`, files, memory mapping, zlib, thread affinity and clocks. The network is an arbitrary sequence of datagrams and replies, inflation an arbitrary list of chunks with one of three endings, and a retry deadline the end of an attempt's reply list.
- Floating point. The price window is any function of the price (the sum of window and price fits 64 bits); the volume curve is any non-falling table that ends at the scale. That the shipped curve is such a table is not part of this model.
- BookKinds.MadeUnderCeiling: takes the window to be no wider than its price, which holds of the pipeline's fraction 0.30; the floating-point product itself is not modelled.
- `AlmgrenChriss`, `Pov`, `FillSimulator`, `QueryServer`, the mains, benchmarks, scripts, dashboard and fuzz drivers: transcendental arithmetic, input and output, or mostly single-branch code.
- Counter overflow: fewer than 2^32 orders per level (see `BookSpec.LevelFitsItsFields`), fewer than 2^64 messages, frames, polls and publications.
- Receivers.Receiver.HandOver: `next_seq_` is an unbounded natural number, so its wrap is not modelled; by `PollsAddUp` it is one more than the number of messages delivered, so the two agree until 2^64-1 of them have been.
- Session.Sender.ServeOneRequest: takes the request datagram whole, of which only the first 20 bytes matter, and returns the replies as a list. `send_raw`, which can send anything, is not modelled; heartbeats are.
- Bitwise "or" of shifted bytes is written as addition, the bits being disjoint.
- Reading a union member other than the one written happens only over a zeroed union and is modelled as a member with all fields zero.
- Memory model: acquire and release are modelled by the history of stores to each atomic, from which a load may take any value not older than what its thread has seen. Reordering of the plain slot accesses across them is not modelled.
- Twaps.Twap.Advance: pushes at the wrapped boundary, as the code does; when that is early is stated by `ScheduleOnTimeIff`.
- Recovery.LastMessageLost: the packets are heard as they were sent; one longer than 65536 bytes would reach the receiver cut short, which `Session.EndToEnd` covers.
- SpscQueues.SpscQueue.constructor: a ring of capacity 0 has no slots and is not modelled; capacities are powers of two.
- Final states that happen to agree after the builders have differed in between: the equivalences of `ReplayedBooks` are about every call.
- BookBuilders.BookBuilder.GetOrCreate: the table holds books as values (the state machines that the book classes refine), not as objects updated in place; snapshots are taken of the objects, so aliasing of a returned book reference is not modelled.
- `std::map` is a finite map whose first entry is found as the least or greatest key; `std::unordered_map` is a map visited in any order.
- The 'F' message has a decoder branch and no encoder in the repository, so it has no round trip; `AddFrames` states how it is decoded.
- Order references, match numbers and prices are passed through as decoded; attribution fields and tracking numbers are not decoded by the original either.
- The mutex of `SnapshotStore` and a reader that takes data, version and unknown_refs under three separate locks.
- `LadderBook` built directly with any base price: the growth ceiling is claimed only for ladders made by the pipeline (`BookKinds.NeverAboveCeiling`).
- `MakeRoom`, `AddInWindow`, `Rest`, `RestBid`, `RestAsk`, `LevelSubBid`, `LevelSubAsk`, `CopyTo`, `Regrid`, `Withdraw`, `TakeOff`, `EntryFor`, `Retransmit`, `HandOver`, `ReceiveReplies`, `ReleaseNext`, `PushNext`, `ApplyAt` and `ApplyNext` are blocks of one function of the original, split off so that each loop and each side is proved on its own. `Look` gathers the accessors.
