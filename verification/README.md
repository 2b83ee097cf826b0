# hft-simulator core in Dafny

This project models the core of hft-simulator, a single-process trading simulator, and proves properties of the model. The core has three parts:

- **Order book** (`src/order_book.rs`). Per symbol it keeps a bid map and an ask map from price to a FIFO queue of resting limit orders. It also keeps an index from order id to (symbol, price, side). It supports add, cancel-by-id, the best bid and best ask, and the mid price.
- **Matching engine** (`src/matching_engine.rs`). It handles one message at a time: a new order, a cancellation, or a batch of new orders. A new order walks the opposite side in price priority and fills resting orders oldest first. The walk stops at the first price the order's price check rejects. Used-up makers and emptied levels are removed. Every trade is recorded with the risk manager. A positive residual of a limit order with a positive price rests on the book.
- **Risk manager** (`src/risk_management.rs`). It holds per-symbol position, average entry price and realized P&L under average-cost accounting. It has an admission check against a maximum order size and a per-symbol position limit, and a position report marked at a supplied price.

Modules and files:

- `common.dfy` (`Common`): `Option` and `Min`.
- `order_book.dfy` (`OrderBook`): orders, levels, the book, and add, cancel and quote queries.
- `matching.dfy` (`Matching`): trades, filling one level, the walk over a side, and `MatchAgainst` (both `match_buy_order` and `match_sell_order`).
- `risk.dfy` (`Risk`): the risk manager.
- `engine.dfy` (`Engine`): `process_order`, `process_cancellation`, batches, `run`, and the position report.

Modelling choices:

- **Levels as sorted sequences.** Each side of a symbol is a sequence of levels sorted in the key order of the source's `BTreeMap`. Asks are keyed by price, so they are ascending. Bids are keyed by `Reverse(price)`, so they are descending. "First key" and "last key" are then the first and last element.
- **Numbers in the book and engine.** Prices and quantities are exact integers: ticks and lots. The source's dust threshold of 0.001 (`<= 0.001`, `> 0.001`) becomes `<= 0` / `> 0`. This is exact when one lot is larger than 0.001.
- **Numbers in the risk manager.** Amounts are `real`. `f64::signum` is modelled as -1 for negatives and +1 otherwise, so +0.0 counts as positive, as in Rust.
- **Mixed numeric types in the source.** The engine compares `Decimal` values with the `f64` fields of `Order`. The model uses one exact number type throughout.
- **Admission is outside the engine.** The engine never calls `validate_order`. In `src/main.rs` only the random-order loop validates before sending (src/main.rs:150). Market-data orders are sent unvalidated (src/main.rs:64-71). So the model's `Engine.ProcessOrder` does not admit or reject orders either.
- **Which reversal rule the engine records with.** It uses the corrected rule (see Findings). `Risk.RecordTransactionAsWritten` keeps the source's rule, and the counterexample is stated against it.
- **Which mid price the position report marks at.** `Engine.ReportPositions` marks at `get_mid_price` as written (`OrderBook.MidPriceAsWritten`), as `report_positions` does. `Engine.ReportPositionsCorrected` marks at the mid of the true spread instead. `Engine.ReportPositionsMismarks` states how the two differ.

Facts about the code that the model follows:

- Positions are kept per symbol. There are no accounts.
- Only the taker's side of each trade is recorded. The maker's position is not updated.
- Risk limits are an order-size cap and a per-symbol position limit. There is no notional limit.
- The mark price for unrealized P&L is the book's mid price. The last trade price is not used.
- The engine has no check for broken invariants and no halt path.
- The engine does not perform admission.

## Model

| member | source | states |
|---|---|---|
| OrderBook.AddOrder | src/order_book.rs:49-111 | A market order, or one with a non-positive price or quantity, leaves the book unchanged. Otherwise the index maps the id to (symbol, price, side), overwriting any earlier entry. The symbol then exists on the order's side. The opposite side and every other symbol are untouched. |
| OrderBook.AddOrderAppends | src/order_book.rs:85-110 | On a well-formed book an accepted order joins the BACK of the queue at its price. A new level is created when the price is absent. The queue at every other price is unchanged. |
| OrderBook.AddOrderWF | src/order_book.rs:49-111 | Adding keeps every level non-empty, holding only positive limit orders of its own symbol, side and price, and sorted in key order. |
| OrderBook.AddOrdersWF | src/order_book.rs:236-242 | Adding a market-data bar's orders one by one keeps the book well formed. |
| OrderBook.AddOrdersIndexed | src/order_book.rs:236-242 | After a bulk add every accepted order's id is indexed, and no previously indexed id is lost. |
| OrderBook.AddOrderUncrossed | src/order_book.rs:49-111 | Resting an order that does not reach the opposite side of its symbol keeps every bid strictly below every ask. |
| OrderBook.WithoutId | src/order_book.rs:131-133 | The `retain` of a cancel leaves no order with the id. It keeps every other order, taken from the original queue, and keeps the length exactly when no order had the id. |
| OrderBook.RetainAt | src/order_book.rs:126-160 | A price with no level gives "not cancelled" and no change. At an existing level, the cancel succeeds exactly when the retain shortened the queue. |
| OrderBook.CancelOrder | src/order_book.rs:113-212 | An unknown id returns false and changes nothing. A known id leaves the index in every case, even when its level is missing. The result is true iff the indexed level exists and holds the id. Only the indexed side and symbol change, and the map's key sets stay the same. |
| OrderBook.CancelOrderLevel | src/order_book.rs:126-160 | After a cancel the indexed level holds exactly the survivors of the retain, or is gone if none survive. Every other price keeps its queue. |
| OrderBook.CancelOrderWF | src/order_book.rs:113-212 | Cancelling keeps the book well formed, because an emptied level is removed. |
| OrderBook.CancelOrderUncrossed | src/order_book.rs:113-212 | Cancelling never crosses an uncrossed book. |
| OrderBook.CancelAfterAdd | src/order_book.rs:49-212 | Cancelling a freshly added order reports success and restores the index and the levels of its side. If the symbol was already present on that side, the book is restored exactly. |
| OrderBook.BestAskIsLowestAsk | src/order_book.rs:222-228 | The best ask exists iff the symbol has asks, and it is the lowest resting ask price. |
| OrderBook.BestBidIsLowestBid | src/order_book.rs:214-220 | As written, the best bid exists iff the symbol has bids, and it is the LOWEST resting bid price. |
| OrderBook.BestBidBelowHighestBid | src/order_book.rs:214-220 | With two or more bid levels, the reported best bid is strictly below the highest bid. |
| OrderBook.BestBidCounterexample | src/order_book.rs:214-220 | Bids at 11 and 10 report a best bid of 10 while the highest bid is 11. |
| OrderBook.HighestBidIsHighest | src/order_book.rs:214-220 | The corrected best bid (the first key) exists iff the symbol has bids, and it is the highest resting bid price. |
| OrderBook.MidPriceAsWrittenWithinSpread | src/order_book.rs:230-234 | As written, the mid price exists iff both sides have levels. On an uncrossed book it lies strictly between the reported best bid (the lowest bid) and the best ask. |
| OrderBook.MidPriceWithinSpread | src/order_book.rs:230-234 | The corrected mid price, over the highest bid, exists iff both sides have levels. On an uncrossed book it lies strictly between the highest bid and the best ask. |
| OrderBook.MidPriceAsWrittenBelow | src/order_book.rs:230-234 | As written, with two or more bid levels, the mid price is strictly below the mid of the true spread. |
| Matching.LimitCheck | src/matching_engine.rs:191-196 | A limit buy accepts exactly the prices at or below its price, and a limit sell exactly those at or above it. Along the opposite side's key order, once a price fails the check every later price fails too, so the walk may stop at the first failure. |
| Matching.FillConserves | src/matching_engine.rs:226-251 | Filling a level lowers the taker's remaining quantity by exactly the traded quantity. There is at most one trade per resting order. |
| Matching.FillTrades | src/matching_engine.rs:226-251 | The i-th trade is against the i-th resting order (FIFO), at the level price, for `min(remaining, resting quantity)`, and is made only while the taker still has quantity. |
| Matching.FillStops | src/matching_engine.rs:226-251 | A taker leaves a level before its end, or leaves a maker partly filled, only once it has nothing left. |
| Matching.FillUsedUp | src/matching_engine.rs:226-251 | Every maker before the last one traded with is filled completely. |
| Matching.FillKept | src/matching_engine.rs:243-255 | The level keeps the partly filled maker at the front, with its reduced quantity, followed by the untouched makers in their original order. |
| Matching.FillFilledIds | src/matching_engine.rs:247-250 | The makers removed and unindexed are exactly the used-up ones, in queue order. |
| Matching.FillKeptWF | src/matching_engine.rs:243-255 | Makers that stay at a level keep a positive quantity at that level's price. |
| Matching.FillPositive | src/matching_engine.rs:231-237 | On a well-formed level every trade has a positive quantity. |
| Matching.FillVolume | src/matching_engine.rs:226-255 | A level's resting volume before a fill equals the volume left plus the traded quantity. |
| Matching.WalkConserves | src/matching_engine.rs:217-265 | Across the walk the taker's remaining quantity falls by exactly the traded quantity. |
| Matching.WalkRemaining | src/matching_engine.rs:217-265 | The remaining quantity never goes negative, and a taker with nothing to fill trades nothing. |
| Matching.WalkTradePrice | src/matching_engine.rs:217-241 | Every trade is at the price of an existing level that passed the price check. |
| Matching.WalkTradeParties | src/matching_engine.rs:233-241 | Every trade has the taker's symbol, and the taker is on its own side of the trade. |
| Matching.WalkMakerResting | src/matching_engine.rs:233-241 | No trade's maker has an id that no order resting on the walked levels carries. In particular, when the taker's id is not resting there, the maker is never the taker. |
| Matching.WalkPositive | src/matching_engine.rs:217-265 | On a well-formed side every trade has a positive quantity. |
| Matching.WalkPricePriority | src/matching_engine.rs:213-221 | Among themselves, trades come in the side's key order: ascending asks for a buy, descending bids for a sell. |
| Matching.WalkNoBetterLeft | src/matching_engine.rs:213-264 | Best first: no level left on the side after the walk comes before any price that traded. A worse price is never filled while a better one still rests. |
| Matching.WalkStops | src/matching_engine.rs:217-264 | If the taker has quantity left after the walk, no level left on the side passes its price check. |
| Matching.WalkPrices | src/matching_engine.rs:253-259 | The walk never adds a price level; every level afterwards was on the side before. |
| Matching.WalkWF | src/matching_engine.rs:253-259 | The walk keeps the side well formed: emptied levels are removed and the rest stay in key order. |
| Matching.WalkVolume | src/matching_engine.rs:217-265 | The side's resting volume before a walk equals the volume left plus the traded quantity. |
| Matching.MatchAgainst | src/matching_engine.rs:205-269 | Matching leaves the taker's own side untouched, and touches the opposite side only at the taker's symbol. It keeps the key sets of both maps. |
| Matching.MatchAgainstWalk | src/matching_engine.rs:205-269 | The opposite side of the symbol becomes what the walk leaves, with no levels when the symbol is absent. The trades are the walk's. Exactly the used-up makers leave the index. |
| Engine.Execute | src/matching_engine.rs:138-146 | Only a limit order with a positive price or a market order is matched. Any other order yields no trades and no change. The order's own side is never touched by matching. |
| Engine.ProcessOrder | src/matching_engine.rs:132-181 | An order that is not matchable changes nothing and trades nothing. A market order never rests: its own side of the book is unchanged. |
| Engine.NonPositiveLimitIsNoop | src/matching_engine.rs:138-171 | A limit order with a non-positive price produces no trades and leaves book and risk unchanged. Its residual is refused by `add_order`. |
| Engine.ProcessOrderFills | src/matching_engine.rs:132-181 | Every trade is for a positive quantity of the order's symbol. An order with non-positive quantity trades nothing. Otherwise the filled quantity is between 0 and the order's quantity. |
| Engine.ProcessOrderVolume | src/matching_engine.rs:205-269 | The opposite side of the symbol loses exactly the traded quantity: quantity is conserved between makers and taker. |
| Engine.ProcessOrderPrices | src/matching_engine.rs:191-203 | Every trade price was resting on the opposite side. A limit buy pays at most its price and a limit sell receives at least its price. The order is on its own side of each trade. |
| Engine.ProcessOrderPriority | src/matching_engine.rs:213-221 | An order's trades come in the opposite side's key order among themselves. |
| Engine.ProcessOrderBestFirst | src/matching_engine.rs:205-336 | After an order, no level left on the opposite side of its symbol comes before a price the order traded at. Together with the priority lemma, the order fills best prices first. |
| Engine.ProcessOrderRests | src/matching_engine.rs:165-171 | The residual rests iff it is positive and the order is a limit order with a positive price. It is then indexed and joins the back of the queue at its price. Otherwise the order's own side is unchanged, so a market order's residual is dropped. |
| Engine.ExecuteSweeps | src/matching_engine.rs:217-264 | A matched order left with quantity has taken every level it accepts. A market order empties the opposite side of its symbol, and a limit order no longer reaches it. |
| Engine.ExecuteWF | src/matching_engine.rs:205-269 | Matching keeps the book well formed. |
| Engine.ExecuteUncrossed | src/matching_engine.rs:205-269 | Matching keeps an uncrossed book uncrossed. |
| Engine.ProcessOrderWF | src/matching_engine.rs:132-181 | Processing an order keeps the book well formed. |
| Engine.ProcessOrderUncrossed | src/matching_engine.rs:132-181 | Processing an order keeps every bid strictly below every ask, symbol by symbol. |
| Engine.RecordTradesPosition | src/matching_engine.rs:148-162 | Recording positive trades of one symbol, all under the order's side, moves that symbol's position by the total quantity in the order's direction. Every other symbol is untouched. |
| Engine.ProcessOrderPosition | src/matching_engine.rs:148-162 | After an order, the risk position in its symbol moves by exactly the filled quantity in its direction, provided no resting buy shares a selling order's id. Other symbols' positions are unchanged. |
| Engine.ProcessCancellation | src/matching_engine.rs:183-189 | A cancellation never touches the risk manager. An unknown id reports false and changes nothing. |
| Engine.CancellationIgnoresSymbol | src/matching_engine.rs:183-189 | A cancellation's outcome does not depend on the symbol it names. |
| Engine.BatchIsSequence | src/matching_engine.rs:123-127 | A batch is exactly its orders sent one by one as new-order messages. |
| Engine.RunAppend | src/matching_engine.rs:114-130 | Running two message streams back to back is the same as running their concatenation. |
| Engine.StepHealthy | src/matching_engine.rs:115-128 | Every message keeps the book well formed and uncrossed. |
| Engine.RunHealthy | src/matching_engine.rs:114-130 | From a healthy state the engine stays healthy whatever messages it receives. |
| Engine.ReportPositions | src/matching_engine.rs:88-92 | The report has one line for every symbol with a position entry. |
| Engine.ReportPositionsUnrealized | src/matching_engine.rs:88-92 | A line reports position and realized P&L. Its unrealized P&L is the position's signed gain at `get_mid_price` as written, the lowest bid averaged with the best ask. It is zero when a side of the book is empty. |
| Engine.ReportPositionsCorrected | src/matching_engine.rs:88-92 | The report marked at the corrected mid has one line for every symbol with a position entry. |
| Engine.ReportPositionsAgree | src/matching_engine.rs:88-92 | The corrected report and the report as written agree on every line's position, average price and realized P&L. |
| Engine.ReportPositionsCorrectedUnrealized | src/matching_engine.rs:88-92 | In the corrected report, unrealized P&L is the signed gain at the mid of the highest bid and the best ask. |
| Engine.ReportPositionsMismarks | src/matching_engine.rs:88-92 | With two or more bid levels and an ask, the report as written understates a long's unrealized P&L and overstates a short's, compared with the corrected report. |
| Risk.ValidateOrder | src/risk_management.rs:23-51 | An order above the maximum size is rejected. With no limit for its symbol, an order is admitted iff it is within the maximum size. |
| Risk.ValidateOrderPredictsFill | src/risk_management.rs:23-51 | A positive order is admitted iff it is within the maximum size and, when its symbol has a limit, recording its full fill would leave the absolute position within the limit (equality allowed). |
| Risk.LimitScenario | src/risk_management.rs:23-51 | With a limit of 100 and position +90, a buy of 20 is rejected and a buy of 10 is admitted. |
| Risk.SetPositionLimit | src/risk_management.rs:53-55 | The symbol's limit is replaced or added. Other limits and all other state are unchanged. |
| Risk.SetLimitThenValidate | src/risk_management.rs:23-55 | After a limit is set, admission for that symbol checks against the new limit. |
| Risk.NewRiskIsFlat | src/risk_management.rs:13-78 | A fresh risk manager reports zero position, average price and P&L, and admits exactly the orders within the maximum size. |
| Risk.Record | src/risk_management.rs:80-123 | A non-positive quantity changes nothing. Otherwise the symbol's position moves by the signed quantity and all three entries exist afterwards. Other symbols, the limits and the maximum size are unchanged. |
| Risk.FlattenUnreachable | src/risk_management.rs:116-123 | A positive fill never reaches the reset-to-zero branch. |
| Risk.PartialCloseBooksPnl | src/risk_management.rs:107-115 | On a partial close the closed quantity is the whole fill and the average is kept. P&L grows by (price - avg) x qty for a sell and by (avg - price) x qty for a buy. |
| Risk.IncreaseAveragesIn | src/risk_management.rs:116-119 | On an increase the new average lies between the old average and the fill price, and realized P&L is unchanged. |
| Risk.OpenFromFlat | src/risk_management.rs:116-119 | From a flat position any fill opens at the fill price with realized P&L unchanged. |
| Risk.FlattenLongIsPartialClose | src/risk_management.rs:102-115 | Selling a whole long takes the partial-close branch (signum of +0.0 is +1). It keeps the average and realizes (price - avg) x position. |
| Risk.FlattenShortIsReversal | src/risk_management.rs:102-106 | Buying back a whole short takes the reversal branch. The average resets to the fill price, and the reversal P&L is booked. |
| Risk.ReversalAsWritten | src/risk_management.rs:102-106 | As written, a reversal books (price - avg) x abs(old position) and resets the average to the fill price. |
| Risk.RoundTripScenario | src/risk_management.rs:80-123 | From flat, buying 100 at 10 and then selling 100 at 12 leaves position 0 and realized P&L +200. |
| Risk.Report | src/risk_management.rs:142-162 | A report line carries the position, average price and realized P&L. Its unrealized P&L is zero without a mark or when flat. |
| Risk.UnrealizedIsSignedGain | src/risk_management.rs:149-155 | The unrealized formula equals (mark - avg) x position for longs and shorts alike, and is 0 without a mark. |
| Risk.UnrealizedOrderedByMark | src/risk_management.rs:149-155 | Raising the mark raises a long position's unrealized P&L and lowers a short's. |
| Risk.ShortReversalSignCounterexample | src/risk_management.rs:102-106 | As written, selling 100 at 10 and buying 100 back at 8 realizes -200, although the short's unrealized gain at 8 was +200. |
| Risk.CloseRealizesUnrealized | src/risk_management.rs:102-115 | With the corrected rule, closing a whole position at a price realizes exactly the unrealized P&L reported at that price, long or short. |

## Left out

- Concurrency is not modelled: `DashMap`, the tokio channel and `async`. The engine handles one message at a time, so `run` is a fold over a sequence of messages.
- `EngineMetrics`, `start_reporting`, logging and processing-time measurement are left out. They do not affect book or risk state.
- Trade ids and timestamps come from the wall clock, so they are not modelled. Order timestamps are carried but never consulted.
- `f64` and `Decimal` arithmetic, NaN, and the 0.001 dust threshold are not modelled. Book and engine quantities are exact integers and risk amounts are exact reals.
- `u64` ids are modelled as unbounded naturals.
- `src/main.rs` and `src/market_data.rs` are not part of this model. This covers the random-order producer, the market-data fetch over HTTP with its JSON decoding, and `MinuteData::to_orders`. `OrderBook.AddOrders` takes the converted orders as a parameter.
- Risk.RecordTransactionAsWritten: the engine records trades with the corrected reversal rule. The source's rule is kept in this member and exhibited by `Risk.ShortReversalSignCounterexample` and `Risk.ReversalAsWritten`.
- Engine.ProcessOrderPosition: requires that no resting buy of the symbol has the selling order's id. `process_order` tells buys from sells by comparing `buyer_id` with the order's id. With a duplicate id it would record a sell's trades as buys. The producer does not guarantee unique ids: `to_orders` takes them from the wall clock in nanoseconds (`ts` and `ts + 1`), and falls back to 0. So this `requires` is an assumption, not a property the source ensures.
- Engine.ProcessOrder: does not call `validate_order`, matching the source, where only the random-order producer validates before sending.

## Findings

| source | as written | input that shows it | evidently intended | confidence | as-written member | corrected member |
|---|---|---|---|---|---|---|
| src/order_book.rs:214-220 | `get_best_bid` takes the last key of a bid map keyed by `Reverse(price)`, which is the lowest bid. The mid price and the position report inherit it | bids at 11 and 10: the best bid is reported as 10 | the highest bid, the first key | not executed | OrderBook.BestBidCounterexample | OrderBook.HighestBidIsHighest |
| src/risk_management.rs:102-106 | on a reversal, realized P&L gains `(price - avg) * abs(old)`, which has the wrong sign when the old position is short | from flat: sell 100 at 10, then buy 100 at 8 realizes -200 | `(price - avg) * old`: closing the short at 8 realizes +200, its unrealized gain | not executed | Risk.ShortReversalSignCounterexample | Risk.CloseRealizesUnrealized |
