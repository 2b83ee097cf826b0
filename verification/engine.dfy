/**
 * The matching engine: it owns the order book and the risk manager and
 * handles one message at a time. A new order is matched (limit orders
 * with a positive price against the prices they accept, market orders
 * against any price), every trade is recorded with the risk manager, and
 * what is left of a limit order rests on the book.
 *
 * The engine does not call the risk manager's admission check; that is
 * the producer's business. The risk manager records with the corrected
 * reversal rule (see `Risk.RecordTransaction`).
 */
module Engine {
  import opened Common
  import opened OrderBook
  import opened Matching
  import opened Risk

  /** `EngineMessage`. A cancellation carries a symbol that is never consulted. */
  datatype Message =
    | NewOrder(order: Order)
    | Cancel(symbol: string, orderId: nat)
    | BatchOrders(orders: seq<Order>)

  datatype EngineState = EngineState(book: Book, risk: RiskState)

  /** The result of `process_order`: the new state and the trades it executed. */
  datatype Outcome = Outcome(state: EngineState, trades: seq<Trade>)

  /** The orders `process_order` hands to the matcher: limit orders with a positive price, and market orders. */
  predicate Matchable(order: Order) {
    (order.orderType == Limit && order.price > 0) || order.orderType == Market
  }

  /** The price check a matchable order walks the opposite side with. */
  function CheckFor(order: Order): (c: PriceCheck)
    ensures Monotone(c, Opposite(order.side))
  {
    if order.orderType == Limit then LimitCheck(order) else AnyPrice
  }

  /** The dispatch of `process_order`; any other order matches nothing. */
  function Execute(book: Book, order: Order): (r: (Book, seq<Trade>))
    ensures !Matchable(order) ==> r == (book, [])
    ensures SideMap(r.0, order.side) == SideMap(book, order.side)
  {
    if Matchable(order) then MatchAgainst(book, order, CheckFor(order)) else (book, [])
  }

  /** The side `process_order` records a trade under: Buy exactly when the order is the trade's buyer. */
  function TradeSide(t: Trade, order: Order): Side {
    if t.buyerId == order.id then Buy else Sell
  }

  /** `record_transaction` for each trade in turn, at the trade's price and quantity. */
  function RecordTrades(risk: RiskState, trades: seq<Trade>, order: Order): RiskState
    decreases |trades|
  {
    if |trades| == 0 then
      risk
    else
      var t := trades[0];
      RecordTrades(RecordTransaction(risk, t.symbol, t.price as real, t.quantity as real, TradeSide(t, order)), trades[1..], order)
  }

  /** What is left of an order after its trades. */
  function Residual(order: Order, trades: seq<Trade>): int {
    order.quantity - SumQty(trades)
  }

  /**
   * `process_order`: match, record every trade with the risk manager, and
   * rest the residual of a limit order when it is positive.
   */
  function ProcessOrder(e: EngineState, order: Order): (r: Outcome)
    ensures !Matchable(order) ==> r == Outcome(e, [])
    ensures order.orderType == Market ==> SideMap(r.state.book, order.side) == SideMap(e.book, order.side)
  {
    var (matched, trades) := Execute(e.book, order);
    var residual := Residual(order, trades);
    var book := if residual > 0 && order.orderType == Limit then AddOrder(matched, order.(quantity := residual)) else matched;
    Outcome(EngineState(book, RecordTrades(e.risk, trades, order)), trades)
  }

  /** `process_cancellation`: cancel by id alone; the risk manager is not involved. */
  function ProcessCancellation(e: EngineState, symbol: string, orderId: nat): (r: (EngineState, bool))
    ensures r.0.risk == e.risk
    ensures orderId !in e.book.index ==> r == (e, false)
  {
    var (book, cancelled) := CancelOrder(e.book, orderId);
    (e.(book := book), cancelled)
  }

  /** The orders of a batch, one after the other. */
  function ProcessBatch(e: EngineState, orders: seq<Order>): EngineState
    decreases |orders|
  {
    if |orders| == 0 then e else ProcessBatch(ProcessOrder(e, orders[0]).state, orders[1..])
  }

  /** One message of `run`. */
  function Step(e: EngineState, msg: Message): EngineState {
    match msg
    case NewOrder(o) => ProcessOrder(e, o).state
    case Cancel(symbol, id) => ProcessCancellation(e, symbol, id).0
    case BatchOrders(orders) => ProcessBatch(e, orders)
  }

  /** `run`: the messages in the order they arrive. */
  function Run(e: EngineState, msgs: seq<Message>): EngineState
    decreases |msgs|
  {
    if |msgs| == 0 then e else Run(Step(e, msgs[0]), msgs[1..])
  }

  /**
   * `report_positions`: a line for every symbol the risk manager has a
   * position entry for, marked at `get_mid_price` as written (the lowest
   * bid averaged with the best ask).
   */
  function ReportPositions(e: EngineState): (reports: map<string, PositionReport>)
    ensures reports.Keys == e.risk.positions.Keys
  {
    map s | s in e.risk.positions :: Report(e.risk, s, MidPriceAsWritten(e.book, s))
  }

  /** The same report marked at the corrected mid price, over the highest bid. */
  function ReportPositionsCorrected(e: EngineState): (reports: map<string, PositionReport>)
    ensures reports.Keys == e.risk.positions.Keys
  {
    map s | s in e.risk.positions :: Report(e.risk, s, MidPrice(e.book, s))
  }

  /** The invariant the engine keeps: a well-formed book whose bids lie strictly below its asks, symbol by symbol. */
  predicate Healthy(e: EngineState) {
    BookWF(e.book) && Uncrossed(e.book)
  }

  // ---------------------------------------------------------------------------
  // Helpers
  // ---------------------------------------------------------------------------

  /** The uncrossed condition at one symbol, with absent sides read as empty. */
  predicate UncrossedAt(book: Book, symbol: string) {
    UncrossedLevels(LevelsOf(book, Buy, symbol), LevelsOf(book, Sell, symbol))
  }

  lemma UncrossedEverywhere(book: Book)
    ensures Uncrossed(book) <==> forall s :: UncrossedAt(book, s)
  {
    if Uncrossed(book) {
      forall s ensures UncrossedAt(book, s) {
        if s in book.bids && s in book.asks {
          assert UncrossedLevels(book.bids[s], book.asks[s]);
        }
      }
    }
    if forall s :: UncrossedAt(book, s) {
      forall s | s in book.bids && s in book.asks
        ensures UncrossedLevels(book.bids[s], book.asks[s])
      {
        assert UncrossedAt(book, s);
      }
    }
  }

  /** A book that differs from a well-formed one only on one side of one symbol, where it is well formed. */
  lemma BookWFFrom(book: Book, r: Book, side: Side, symbol: string)
    requires BookWF(book)
    requires SideMap(r, Opposite(side)) == SideMap(book, Opposite(side))
    requires forall s | s != symbol :: LevelsOf(r, side, s) == LevelsOf(book, side, s)
    requires LevelsWF(LevelsOf(r, side, symbol), symbol, side)
    ensures BookWF(r)
  {
    forall s | s in SideMap(r, side)
      ensures LevelsWF(SideMap(r, side)[s], s, side)
    {
      assert SideMap(r, side)[s] == LevelsOf(r, side, s);
      if s != symbol {
        BookLevelsWF(book, side, s);
      }
    }
    forall s | s in SideMap(r, Opposite(side))
      ensures LevelsWF(SideMap(r, Opposite(side))[s], s, Opposite(side))
    {
      BookLevelsWF(book, Opposite(side), s);
      assert SideMap(r, Opposite(side))[s] == LevelsOf(book, Opposite(side), s);
    }
    assert side == Buy || side == Sell;
  }

  lemma {:induction false} SumQtyPositive(trades: seq<Trade>)
    requires forall i | 0 <= i < |trades| :: trades[i].quantity > 0
    ensures SumQty(trades) >= 0
    ensures |trades| > 0 ==> SumQty(trades) > 0
  {
    if |trades| > 0 {
      SumQtyPositive(trades[1..]);
    }
  }

  // ---------------------------------------------------------------------------
  // Matching inside the engine
  // ---------------------------------------------------------------------------

  /** Matching keeps the book well formed. */
  lemma ExecuteWF(book: Book, order: Order)
    requires BookWF(book)
    ensures BookWF(Execute(book, order).0)
  {
    if Matchable(order) {
      var opposite := Opposite(order.side);
      MatchAgainstWalk(book, order, CheckFor(order));
      BookLevelsWF(book, opposite, order.symbol);
      WalkWF(LevelsOf(book, opposite, order.symbol), order.symbol, opposite, CheckFor(order), order, order.quantity);
      assert Opposite(opposite) == order.side;
      BookWFFrom(book, Execute(book, order).0, opposite, order.symbol);
    }
  }

  /** Matching keeps an uncrossed book uncrossed: it only removes quantity from the opposite side. */
  lemma ExecuteUncrossed(book: Book, order: Order)
    requires BookWF(book) && Uncrossed(book)
    ensures Uncrossed(Execute(book, order).0)
  {
    var r := Execute(book, order).0;
    UncrossedEverywhere(book);
    if Matchable(order) {
      var opposite := Opposite(order.side);
      var before := LevelsOf(book, opposite, order.symbol);
      var w := Walk(before, CheckFor(order), order, order.quantity);
      MatchAgainstWalk(book, order, CheckFor(order));
      forall s ensures UncrossedAt(r, s) {
        assert LevelsOf(r, order.side, s) == LevelsOf(book, order.side, s);
        if s != order.symbol {
          assert LevelsOf(r, opposite, s) == LevelsOf(book, opposite, s);
          assert order.side == Buy || order.side == Sell;
          assert UncrossedAt(book, s);
        } else {
          assert UncrossedAt(book, s);
          forall j | 0 <= j < |w.levels|
            ensures exists k | 0 <= k < |before| :: before[k].price == w.levels[j].price
          {
            WalkPrices(before, CheckFor(order), order, order.quantity, j);
          }
          assert order.side == Buy || order.side == Sell;
        }
      }
      UncrossedEverywhere(r);
    }
  }

  /**
   * A matched order that is not filled in full has taken every level its
   * price check accepts: a market order empties the opposite side of its
   * symbol, and a limit order no longer reaches it.
   */
  lemma ExecuteSweeps(book: Book, order: Order)
    requires BookWF(book) && Matchable(order)
    ensures
      var (matched, trades) := Execute(book, order);
      var left := LevelsOf(matched, Opposite(order.side), order.symbol);
      Residual(order, trades) > 0 ==>
        && (order.orderType == Market ==> left == [])
        && (order.orderType == Limit ==> ClearsOpposite(matched, order))
  {
    var opposite := Opposite(order.side);
    var before := LevelsOf(book, opposite, order.symbol);
    var w := Walk(before, CheckFor(order), order, order.quantity);
    MatchAgainstWalk(book, order, CheckFor(order));
    WalkConserves(before, CheckFor(order), order, order.quantity);
    BookLevelsWF(book, opposite, order.symbol);
    WalkStops(before, opposite, CheckFor(order), order, order.quantity);
    assert |w.levels| == 0 || Accepts(CheckFor(order), w.levels[0].price) || order.orderType != Market;
  }

  // ---------------------------------------------------------------------------
  // process_order
  // ---------------------------------------------------------------------------

  /** A limit order with a non-positive price is a no-op: no trades, no state change. */
  lemma NonPositiveLimitIsNoop(e: EngineState, order: Order)
    requires order.orderType == Limit && order.price <= 0
    ensures ProcessOrder(e, order) == Outcome(e, [])
  {
  }

  /**
   * Quantity accounting of one order: every trade is for a positive
   * quantity of the order's symbol; an order with nothing to fill trades
   * nothing; otherwise the filled quantity is between 0 and the order's
   * quantity, so the residual is too.
   */
  lemma ProcessOrderFills(e: EngineState, order: Order)
    requires BookWF(e.book)
    ensures
      var trades := ProcessOrder(e, order).trades;
      && (forall i | 0 <= i < |trades| :: trades[i].quantity > 0 && trades[i].symbol == order.symbol)
      && (order.quantity <= 0 ==> trades == [])
      && (order.quantity > 0 ==> 0 <= SumQty(trades) <= order.quantity)
  {
    if Matchable(order) {
      var opposite := Opposite(order.side);
      var before := LevelsOf(book := e.book, side := opposite, symbol := order.symbol);
      var w := Walk(before, CheckFor(order), order, order.quantity);
      MatchAgainstWalk(e.book, order, CheckFor(order));
      BookLevelsWF(e.book, opposite, order.symbol);
      forall i | 0 <= i < |w.trades|
        ensures w.trades[i].quantity > 0 && w.trades[i].symbol == order.symbol
      {
        WalkPositive(before, order.symbol, opposite, CheckFor(order), order, order.quantity, i);
        WalkTradeParties(before, CheckFor(order), order, order.quantity, i);
      }
      WalkRemaining(before, CheckFor(order), order, order.quantity);
      WalkConserves(before, CheckFor(order), order, order.quantity);
      SumQtyPositive(w.trades);
    }
  }

  /**
   * Quantity is conserved against the book: the opposite side of the
   * order's symbol loses exactly the traded quantity.
   */
  lemma ProcessOrderVolume(e: EngineState, order: Order)
    ensures
      var r := ProcessOrder(e, order);
      var opposite := Opposite(order.side);
      LevelsVolume(LevelsOf(e.book, opposite, order.symbol))
        == LevelsVolume(LevelsOf(r.state.book, opposite, order.symbol)) + SumQty(r.trades)
  {
    if Matchable(order) {
      var opposite := Opposite(order.side);
      MatchAgainstWalk(e.book, order, CheckFor(order));
      WalkVolume(LevelsOf(e.book, opposite, order.symbol), CheckFor(order), order, order.quantity);
    }
  }

  /**
   * Every trade is at a price resting on the opposite side before the
   * order arrived; a limit buy pays at most its price and a limit sell
   * receives at least its price; the order is on its own side of the trade.
   */
  lemma ProcessOrderPrices(e: EngineState, order: Order, i: int)
    requires 0 <= i < |ProcessOrder(e, order).trades|
    ensures
      var t := ProcessOrder(e, order).trades[i];
      && Find(LevelsOf(e.book, Opposite(order.side), order.symbol), t.price).Some?
      && (order.orderType == Limit && order.side == Buy ==> t.price <= order.price)
      && (order.orderType == Limit && order.side == Sell ==> t.price >= order.price)
      && (order.side == Buy ==> t.buyerId == order.id)
      && (order.side == Sell ==> t.sellerId == order.id)
  {
    var before := LevelsOf(e.book, Opposite(order.side), order.symbol);
    MatchAgainstWalk(e.book, order, CheckFor(order));
    WalkTradePrice(before, CheckFor(order), order, order.quantity, i);
    WalkTradeParties(before, CheckFor(order), order, order.quantity, i);
  }

  /** Price priority: the trades of one order run through the opposite side's prices best first. */
  lemma ProcessOrderPriority(e: EngineState, order: Order)
    requires BookWF(e.book)
    ensures InKeyOrder(Opposite(order.side), ProcessOrder(e, order).trades)
  {
    if Matchable(order) {
      var before := LevelsOf(e.book, Opposite(order.side), order.symbol);
      MatchAgainstWalk(e.book, order, CheckFor(order));
      BookLevelsWF(e.book, Opposite(order.side), order.symbol);
      WalkPricePriority(before, Opposite(order.side), CheckFor(order), order, order.quantity);
    }
  }

  /**
   * Best first: after an order, no level left on the opposite side of its
   * symbol comes before a price it traded at, so a worse price is never
   * filled while a better one still rests.
   */
  lemma ProcessOrderBestFirst(e: EngineState, order: Order, i: int, j: int)
    requires BookWF(e.book)
    requires 0 <= i < |ProcessOrder(e, order).trades|
    requires 0 <= j < |LevelsOf(ProcessOrder(e, order).state.book, Opposite(order.side), order.symbol)|
    ensures
      var r := ProcessOrder(e, order);
      var left := LevelsOf(r.state.book, Opposite(order.side), order.symbol);
      !KeyBefore(Opposite(order.side), left[j].price, r.trades[i].price)
  {
    var opposite := Opposite(order.side);
    var before := LevelsOf(e.book, opposite, order.symbol);
    MatchAgainstWalk(e.book, order, CheckFor(order));
    BookLevelsWF(e.book, opposite, order.symbol);
    WalkNoBetterLeft(before, opposite, CheckFor(order), order, order.quantity, i, j);
  }

  /**
   * The residual rests exactly when it is positive and the order is a
   * limit order with a positive price: it then joins the back of the queue
   * at its price and is indexed there. Otherwise the order's own side is
   * untouched — in particular a market order's residual is dropped.
   */
  lemma ProcessOrderRests(e: EngineState, order: Order, p: int)
    requires BookWF(e.book)
    ensures
      var r := ProcessOrder(e, order);
      var rest := order.(quantity := Residual(order, r.trades));
      var own := LevelsOf(e.book, order.side, order.symbol);
      && (Accepted(rest) ==>
            && r.state.book.index[order.id] == IndexEntry(order.symbol, order.price, order.side)
            && Find(LevelsOf(r.state.book, order.side, order.symbol), p)
                 == if p == order.price then Some(Find(own, p).GetOr([]) + [rest]) else Find(own, p))
      && (!Accepted(rest) ==> SideMap(r.state.book, order.side) == SideMap(e.book, order.side))
  {
    var (matched, trades) := Execute(e.book, order);
    var rest := order.(quantity := Residual(order, trades));
    ExecuteWF(e.book, order);
    if Accepted(rest) {
      AddOrderAppends(matched, rest, p);
      assert LevelsOf(matched, order.side, order.symbol) == LevelsOf(e.book, order.side, order.symbol);
    }
  }

  /** Processing an order keeps the book well formed. */
  lemma ProcessOrderWF(e: EngineState, order: Order)
    requires BookWF(e.book)
    ensures BookWF(ProcessOrder(e, order).state.book)
  {
    var (matched, trades) := Execute(e.book, order);
    ExecuteWF(e.book, order);
    AddOrderWF(matched, order.(quantity := Residual(order, trades)));
  }

  /** Processing an order keeps the book uncrossed: a residual only rests where it no longer reaches the other side. */
  lemma ProcessOrderUncrossed(e: EngineState, order: Order)
    requires Healthy(e)
    ensures Healthy(ProcessOrder(e, order).state)
  {
    var (matched, trades) := Execute(e.book, order);
    var rest := order.(quantity := Residual(order, trades));
    ExecuteWF(e.book, order);
    ExecuteUncrossed(e.book, order);
    ProcessOrderWF(e, order);
    if Accepted(rest) {
      ExecuteSweeps(e.book, order);
      assert ClearsOpposite(matched, rest) by {
        assert ClearsOpposite(matched, order);
      }
      AddOrderUncrossed(matched, rest);
    }
  }

  // ---------------------------------------------------------------------------
  // Risk recording
  // ---------------------------------------------------------------------------

  /**
   * Recording a run of positive trades of one symbol, all under the
   * order's side, moves that symbol's position by the total quantity in
   * the order's direction and leaves every other symbol alone.
   */
  lemma {:induction false} RecordTradesPosition(risk: RiskState, trades: seq<Trade>, order: Order)
    requires forall i | 0 <= i < |trades| ::
      trades[i].quantity > 0 && trades[i].symbol == order.symbol && TradeSide(trades[i], order) == order.side
    ensures GetPosition(RecordTrades(risk, trades, order), order.symbol)
         == GetPosition(risk, order.symbol) + Signed(SumQty(trades) as real, order.side)
    ensures forall s | s != order.symbol ::
      && GetPosition(RecordTrades(risk, trades, order), s) == GetPosition(risk, s)
      && GetAvgPrice(RecordTrades(risk, trades, order), s) == GetAvgPrice(risk, s)
      && GetRealizedPnl(RecordTrades(risk, trades, order), s) == GetRealizedPnl(risk, s)
    decreases |trades|
  {
    if |trades| > 0 {
      var t := trades[0];
      var next := RecordTransaction(risk, t.symbol, t.price as real, t.quantity as real, TradeSide(t, order));
      RecordTradesPosition(next, trades[1..], order);
    }
  }

  /**
   * The risk manager's position in the order's symbol moves by exactly the
   * filled quantity in the order's direction, provided no resting buy of
   * the symbol shares a selling order's id (otherwise `process_order`
   * would record that sell's trades as buys).
   */
  lemma ProcessOrderPosition(e: EngineState, order: Order)
    requires BookWF(e.book)
    requires order.side == Sell ==> NoRestingId(LevelsOf(e.book, Buy, order.symbol), order.id)
    ensures
      var r := ProcessOrder(e, order);
      GetPosition(r.state.risk, order.symbol) == GetPosition(e.risk, order.symbol) + Signed(SumQty(r.trades) as real, order.side)
    ensures forall s | s != order.symbol :: GetPosition(ProcessOrder(e, order).state.risk, s) == GetPosition(e.risk, s)
  {
    var r := ProcessOrder(e, order);
    ProcessOrderFills(e, order);
    forall i | 0 <= i < |r.trades|
      ensures TradeSide(r.trades[i], order) == order.side
    {
      ProcessOrderPrices(e, order, i);
      if order.side == Sell {
        var before := LevelsOf(e.book, Buy, order.symbol);
        MatchAgainstWalk(e.book, order, CheckFor(order));
        WalkMakerResting(before, CheckFor(order), order, order.quantity, order.id, i);
      }
    }
    RecordTradesPosition(e.risk, r.trades, order);
  }

  /**
   * A reported line's unrealized P&L is the position's signed gain at
   * `get_mid_price` as written, and zero when either side of the book is
   * empty.
   */
  lemma ReportPositionsUnrealized(e: EngineState, symbol: string)
    requires BookWF(e.book) && symbol in e.risk.positions
    ensures
      var line := ReportPositions(e)[symbol];
      && line.position == GetPosition(e.risk, symbol)
      && line.realized == GetRealizedPnl(e.risk, symbol)
      && (|LevelsOf(e.book, Buy, symbol)| == 0 || |LevelsOf(e.book, Sell, symbol)| == 0 ==> line.unrealized == 0.0)
      && (MidPriceAsWritten(e.book, symbol).Some? ==>
            line.unrealized == (MidPriceAsWritten(e.book, symbol).value - GetAvgPrice(e.risk, symbol)) * GetPosition(e.risk, symbol))
  {
    assert ReportPositions(e)[symbol] == Report(e.risk, symbol, MidPriceAsWritten(e.book, symbol));
    MidPriceAsWrittenWithinSpread(e.book, symbol);
    UnrealizedIsSignedGain(GetPosition(e.risk, symbol), GetAvgPrice(e.risk, symbol), MidPriceAsWritten(e.book, symbol));
  }

  /** The corrected report's unrealized P&L is the signed gain at the mid of the true spread. */
  lemma ReportPositionsCorrectedUnrealized(e: EngineState, symbol: string)
    requires BookWF(e.book) && symbol in e.risk.positions
    ensures
      var line := ReportPositionsCorrected(e)[symbol];
      && (|LevelsOf(e.book, Buy, symbol)| == 0 || |LevelsOf(e.book, Sell, symbol)| == 0 ==> line.unrealized == 0.0)
      && (MidPrice(e.book, symbol).Some? ==>
            line.unrealized == (MidPrice(e.book, symbol).value - GetAvgPrice(e.risk, symbol)) * GetPosition(e.risk, symbol))
  {
    assert ReportPositionsCorrected(e)[symbol] == Report(e.risk, symbol, MidPrice(e.book, symbol));
    MidPriceWithinSpread(e.book, symbol);
    UnrealizedIsSignedGain(GetPosition(e.risk, symbol), GetAvgPrice(e.risk, symbol), MidPrice(e.book, symbol));
  }

  /**
   * With two or more bid levels and an ask, the report as written
   * understates a long position's unrealized P&L and overstates a short's,
   * compared with the mark at the true mid.
   */
  lemma ReportPositionsMismarks(e: EngineState, symbol: string)
    requires BookWF(e.book) && symbol in e.risk.positions
    requires |LevelsOf(e.book, Buy, symbol)| >= 2 && |LevelsOf(e.book, Sell, symbol)| > 0
    ensures GetPosition(e.risk, symbol) > 0.0 ==>
      ReportPositions(e)[symbol].unrealized < ReportPositionsCorrected(e)[symbol].unrealized
    ensures GetPosition(e.risk, symbol) < 0.0 ==>
      ReportPositions(e)[symbol].unrealized > ReportPositionsCorrected(e)[symbol].unrealized
  {
    MidPriceAsWrittenBelow(e.book, symbol);
    var low := MidPriceAsWritten(e.book, symbol);
    var high := MidPrice(e.book, symbol);
    assert ReportPositions(e)[symbol] == Report(e.risk, symbol, low);
    assert ReportPositionsCorrected(e)[symbol] == Report(e.risk, symbol, high);
    UnrealizedOrderedByMark(GetPosition(e.risk, symbol), GetAvgPrice(e.risk, symbol), low.value, high.value);
  }

  /** The two reports differ only in their unrealized P&L. */
  lemma ReportPositionsAgree(e: EngineState, symbol: string)
    requires symbol in e.risk.positions
    ensures ReportPositionsCorrected(e)[symbol].position == ReportPositions(e)[symbol].position
    ensures ReportPositionsCorrected(e)[symbol].avgPrice == ReportPositions(e)[symbol].avgPrice
    ensures ReportPositionsCorrected(e)[symbol].realized == ReportPositions(e)[symbol].realized
  {
    assert ReportPositions(e)[symbol] == Report(e.risk, symbol, MidPriceAsWritten(e.book, symbol));
    assert ReportPositionsCorrected(e)[symbol] == Report(e.risk, symbol, MidPrice(e.book, symbol));
  }

  // ---------------------------------------------------------------------------
  // Cancellation, batches and the run loop
  // ---------------------------------------------------------------------------

  /** A cancellation's outcome depends on the order id alone, never on the symbol it names. */
  lemma CancellationIgnoresSymbol(e: EngineState, s1: string, s2: string, orderId: nat)
    ensures ProcessCancellation(e, s1, orderId) == ProcessCancellation(e, s2, orderId)
  {
  }

  /** The orders of a batch list, as separate `NewOrder` messages. */
  function AsNewOrders(orders: seq<Order>): (msgs: seq<Message>)
    ensures |msgs| == |orders|
    ensures forall i | 0 <= i < |orders| :: msgs[i] == NewOrder(orders[i])
  {
    if |orders| == 0 then [] else [NewOrder(orders[0])] + AsNewOrders(orders[1..])
  }

  /** A batch is exactly its orders sent one by one. */
  lemma {:induction false} BatchIsSequence(e: EngineState, orders: seq<Order>)
    ensures Step(e, BatchOrders(orders)) == Run(e, AsNewOrders(orders))
    decreases |orders|
  {
    if |orders| > 0 {
      var msgs := AsNewOrders(orders);
      assert msgs[1..] == AsNewOrders(orders[1..]);
      BatchIsSequence(ProcessOrder(e, orders[0]).state, orders[1..]);
    }
  }

  /** Running two message streams back to back is running their concatenation. */
  lemma {:induction false} RunAppend(e: EngineState, a: seq<Message>, b: seq<Message>)
    ensures Run(e, a + b) == Run(Run(e, a), b)
    decreases |a|
  {
    if |a| == 0 {
      assert a + b == b;
    } else {
      assert (a + b)[1..] == a[1..] + b;
      RunAppend(Step(e, a[0]), a[1..], b);
    }
  }

  lemma {:induction false} BatchHealthy(e: EngineState, orders: seq<Order>)
    requires Healthy(e)
    ensures Healthy(ProcessBatch(e, orders))
    decreases |orders|
  {
    if |orders| > 0 {
      ProcessOrderUncrossed(e, orders[0]);
      BatchHealthy(ProcessOrder(e, orders[0]).state, orders[1..]);
    }
  }

  /** Every message keeps the book well formed and uncrossed. */
  lemma StepHealthy(e: EngineState, msg: Message)
    requires Healthy(e)
    ensures Healthy(Step(e, msg))
  {
    match msg
    case NewOrder(o) => ProcessOrderUncrossed(e, o);
    case Cancel(_, id) =>
      CancelOrderWF(e.book, id);
      CancelOrderUncrossed(e.book, id);
    case BatchOrders(orders) => BatchHealthy(e, orders);
  }

  /** From a healthy start — the empty book in particular — the engine stays healthy whatever it is sent. */
  lemma {:induction false} RunHealthy(e: EngineState, msgs: seq<Message>)
    requires Healthy(e)
    ensures Healthy(Run(e, msgs))
    decreases |msgs|
  {
    if |msgs| > 0 {
      StepHealthy(e, msgs[0]);
      RunHealthy(Step(e, msgs[0]), msgs[1..]);
    }
  }

  /** The engine starts healthy. */
  lemma StartHealthy(maxOrderSize: real)
    ensures Healthy(EngineState(EmptyBook, NewRisk(maxOrderSize)))
  {
  }
}
