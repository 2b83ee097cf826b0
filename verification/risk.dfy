/**
 * The risk manager: a per-symbol admission check against the maximum
 * order size and the position limit, and average-cost bookkeeping of
 * position, average entry price and realized P&L fed by executions.
 *
 * State is keyed by symbol only. Amounts are `real`, so the weighted
 * average is exact; `f64` rounding and NaN are not modelled.
 */
module Risk {
  import opened Common
  import opened OrderBook

  datatype RiskState = RiskState(
    maxOrderSize: real,
    positionLimits: map<string, real>,
    positions: map<string, real>,
    realizedPnl: map<string, real>,
    avgEntryPrices: map<string, real>)

  /** `RiskManager::new`: no limits and no positions. */
  function NewRisk(maxOrderSize: real): RiskState {
    RiskState(maxOrderSize, map[], map[], map[], map[])
  }

  function Abs(x: real): real {
    if x < 0.0 then -x else x
  }

  /** `f64::signum` on non-NaN values: +0.0 counts as positive. */
  function Signum(x: real): real {
    if x < 0.0 then -1.0 else 1.0
  }

  function MinReal(a: real, b: real): real {
    if a <= b then a else b
  }

  /** A symbol's entry in one of the per-symbol maps, 0.0 when absent. */
  function Lookup(m: map<string, real>, symbol: string): real {
    if symbol in m then m[symbol] else 0.0
  }

  function GetPosition(r: RiskState, symbol: string): real {
    Lookup(r.positions, symbol)
  }

  function GetRealizedPnl(r: RiskState, symbol: string): real {
    Lookup(r.realizedPnl, symbol)
  }

  function GetAvgPrice(r: RiskState, symbol: string): real {
    Lookup(r.avgEntryPrices, symbol)
  }

  /** The signed change of position a fill of `quantity` on `side` causes. */
  function Signed(quantity: real, side: Side): real {
    match side
    case Buy => quantity
    case Sell => -quantity
  }

  // ---------------------------------------------------------------------------
  // validate_order / set_position_limit
  // ---------------------------------------------------------------------------

  /**
   * `validate_order`: reject an order larger than the maximum order size,
   * or one whose full execution would take the symbol's absolute position
   * beyond its limit (when a limit is set).
   */
  function ValidateOrder(r: RiskState, o: Order): (ok: bool)
    ensures o.quantity as real > r.maxOrderSize ==> !ok
    ensures o.symbol !in r.positionLimits ==> (ok <==> o.quantity as real <= r.maxOrderSize)
  {
    if o.quantity as real > r.maxOrderSize then
      false
    else
      var newPosition := GetPosition(r, o.symbol) + Signed(o.quantity as real, o.side);
      if o.symbol in r.positionLimits && Abs(newPosition) > r.positionLimits[o.symbol] then false
      else true
  }

  /** `set_position_limit`: (re)place one symbol's limit and nothing else. */
  function SetPositionLimit(r: RiskState, symbol: string, limit: real): (r': RiskState)
    ensures r'.positionLimits.Keys == r.positionLimits.Keys + {symbol}
    ensures r'.positionLimits[symbol] == limit
    ensures forall s | s in r.positionLimits && s != symbol :: r'.positionLimits[s] == r.positionLimits[s]
    ensures r'.(positionLimits := r.positionLimits) == r
  {
    r.(positionLimits := r.positionLimits[symbol := limit])
  }

  // ---------------------------------------------------------------------------
  // record_transaction
  // ---------------------------------------------------------------------------

  /** The four branches of `record_transaction`, in the order the source tests them. */
  datatype Branch = Reversal | PartialClose | Increase | Flatten

  function Classify(oldPosition: real, newPosition: real): Branch {
    if oldPosition != 0.0 && Signum(newPosition) != Signum(oldPosition) then Reversal
    else if Abs(newPosition) < Abs(oldPosition) then PartialClose
    else if newPosition != 0.0 then Increase
    else Flatten
  }

  /**
   * The P&L booked when a position reverses. As written the source books
   * `(price - avg) * |old|`, which has the wrong sign for a short; the
   * corrected rule books `(price - avg) * old`.
   */
  function ReversalPnl(price: real, avg: real, oldPosition: real, corrected: bool): real {
    if corrected then (price - avg) * oldPosition else (price - avg) * Abs(oldPosition)
  }

  /**
   * `record_transaction` with the reversal rule chosen by `corrected`.
   * A non-positive quantity changes nothing; otherwise the position moves
   * by the signed quantity and the branch decides the average and the P&L.
   */
  function Record(r: RiskState, symbol: string, price: real, quantity: real, side: Side, corrected: bool): (r': RiskState)
    ensures quantity <= 0.0 ==> r' == r
    ensures quantity > 0.0 ==> GetPosition(r', symbol) == GetPosition(r, symbol) + Signed(quantity, side)
    ensures quantity > 0.0 ==> symbol in r'.positions && symbol in r'.avgEntryPrices && symbol in r'.realizedPnl
    ensures r'.maxOrderSize == r.maxOrderSize && r'.positionLimits == r.positionLimits
    ensures forall s | s != symbol ::
      && GetPosition(r', s) == GetPosition(r, s)
      && GetAvgPrice(r', s) == GetAvgPrice(r, s)
      && GetRealizedPnl(r', s) == GetRealizedPnl(r, s)
  {
    if quantity <= 0.0 then
      r
    else
      var oldPosition := GetPosition(r, symbol);
      var newPosition := oldPosition + Signed(quantity, side);
      var oldAvg := GetAvgPrice(r, symbol);
      var realized := GetRealizedPnl(r, symbol);
      var (avg, pnl) :=
        match Classify(oldPosition, newPosition)
        case Reversal =>
          (price, realized + ReversalPnl(price, oldAvg, oldPosition, corrected))
        case PartialClose =>
          var closed := MinReal(Abs(oldPosition) - Abs(newPosition), quantity);
          (oldAvg, realized + (if side == Sell then (price - oldAvg) * closed else (oldAvg - price) * closed))
        case Increase =>
          ((oldAvg * Abs(oldPosition) + price * quantity) / (Abs(oldPosition) + quantity), realized)
        case Flatten =>
          (0.0, realized);
      r.(positions := r.positions[symbol := newPosition],
         avgEntryPrices := r.avgEntryPrices[symbol := avg],
         realizedPnl := r.realizedPnl[symbol := pnl])
  }

  /** `record_transaction` exactly as the source writes it. */
  function RecordTransactionAsWritten(r: RiskState, symbol: string, price: real, quantity: real, side: Side): RiskState {
    Record(r, symbol, price, quantity, side, false)
  }

  /** `record_transaction` with the short-reversal sign corrected; the engine uses this one. */
  function RecordTransaction(r: RiskState, symbol: string, price: real, quantity: real, side: Side): RiskState {
    Record(r, symbol, price, quantity, side, true)
  }

  // ---------------------------------------------------------------------------
  // report_positions
  // ---------------------------------------------------------------------------

  /**
   * The unrealized P&L of `report_positions`: no mark price gives 0;
   * otherwise a position with signum +1 (long or flat) earns
   * `(mark - avg) * position` and a short earns `(avg - mark) * |position|`.
   */
  function Unrealized(position: real, avg: real, mark: Option<real>): real {
    match mark
    case None => 0.0
    case Some(m) => if Signum(position) == 1.0 then (m - avg) * position else (avg - m) * Abs(position)
  }

  datatype PositionReport = PositionReport(position: real, avgPrice: real, realized: real, unrealized: real)

  /** One line of `report_positions` for a symbol, given its mark price. */
  function Report(r: RiskState, symbol: string, mark: Option<real>): (rep: PositionReport)
    ensures rep.position == GetPosition(r, symbol) && rep.avgPrice == GetAvgPrice(r, symbol)
    ensures rep.realized == GetRealizedPnl(r, symbol)
    ensures mark.None? || GetPosition(r, symbol) == 0.0 ==> rep.unrealized == 0.0
  {
    var position := GetPosition(r, symbol);
    var avg := GetAvgPrice(r, symbol);
    PositionReport(position, avg, GetRealizedPnl(r, symbol), Unrealized(position, avg, mark))
  }

  // ---------------------------------------------------------------------------
  // Properties
  // ---------------------------------------------------------------------------

  /** A fresh risk manager reports zero position, average and P&L everywhere and admits orders up to the maximum size. */
  lemma NewRiskIsFlat(maxOrderSize: real, symbol: string, o: Order)
    ensures GetPosition(NewRisk(maxOrderSize), symbol) == 0.0
    ensures GetAvgPrice(NewRisk(maxOrderSize), symbol) == 0.0
    ensures GetRealizedPnl(NewRisk(maxOrderSize), symbol) == 0.0
    ensures ValidateOrder(NewRisk(maxOrderSize), o) <==> o.quantity as real <= maxOrderSize
  {
  }

  /**
   * Admission predicts the position after a full fill: a positive order is
   * admitted iff it is within the maximum size and, when the symbol has a
   * limit, recording its full execution (at any price) would leave the
   * absolute position within that limit — equality allowed.
   */
  lemma ValidateOrderPredictsFill(r: RiskState, o: Order, price: real)
    requires o.quantity > 0
    ensures ValidateOrder(r, o) <==>
      && o.quantity as real <= r.maxOrderSize
      && (o.symbol in r.positionLimits ==>
            Abs(GetPosition(RecordTransaction(r, o.symbol, price, o.quantity as real, o.side), o.symbol))
              <= r.positionLimits[o.symbol])
  {
  }

  /** After setting a symbol's limit, admission for that symbol checks against the new limit. */
  lemma SetLimitThenValidate(r: RiskState, o: Order, limit: real)
    ensures ValidateOrder(SetPositionLimit(r, o.symbol, limit), o) <==>
      && o.quantity as real <= r.maxOrderSize
      && Abs(GetPosition(r, o.symbol) + Signed(o.quantity as real, o.side)) <= limit
  {
  }

  /** Limit 100, position +90: a buy of 20 is rejected, a buy of 10 reaches the limit exactly and is admitted. */
  lemma LimitScenario()
    ensures
      var r := RecordTransaction(SetPositionLimit(NewRisk(1000.0), "X", 100.0), "X", 10.0, 90.0, Buy);
      && GetPosition(r, "X") == 90.0
      && !ValidateOrder(r, Order(1, "X", 10, 20, Limit, Buy, 0))
      && ValidateOrder(r, Order(2, "X", 10, 10, Limit, Buy, 0))
  {
  }

  /** A positive fill never reaches the source's reset-to-zero branch. */
  lemma FlattenUnreachable(oldPosition: real, quantity: real, side: Side)
    requires quantity > 0.0
    ensures Classify(oldPosition, oldPosition + Signed(quantity, side)) != Flatten
  {
  }

  /**
   * Partial close: the average entry price is unchanged, the closed
   * quantity is the whole fill, and realized P&L grows by the price
   * difference in the closing direction.
   */
  lemma PartialCloseBooksPnl(r: RiskState, symbol: string, price: real, quantity: real, side: Side, corrected: bool)
    requires quantity > 0.0
    requires Classify(GetPosition(r, symbol), GetPosition(r, symbol) + Signed(quantity, side)) == PartialClose
    ensures
      var oldPosition := GetPosition(r, symbol);
      var r' := Record(r, symbol, price, quantity, side, corrected);
      && MinReal(Abs(oldPosition) - Abs(oldPosition + Signed(quantity, side)), quantity) == quantity
      && GetAvgPrice(r', symbol) == GetAvgPrice(r, symbol)
      && GetRealizedPnl(r', symbol) == GetRealizedPnl(r, symbol) +
           (if side == Sell then (price - GetAvgPrice(r, symbol)) * quantity
            else (GetAvgPrice(r, symbol) - price) * quantity)
  {
  }

  /** Increase: the new average lies between the old average and the fill price; realized P&L is untouched. */
  lemma IncreaseAveragesIn(r: RiskState, symbol: string, price: real, quantity: real, side: Side, corrected: bool)
    requires quantity > 0.0
    requires Classify(GetPosition(r, symbol), GetPosition(r, symbol) + Signed(quantity, side)) == Increase
    ensures
      var avg := GetAvgPrice(Record(r, symbol, price, quantity, side, corrected), symbol);
      && MinReal(GetAvgPrice(r, symbol), price) <= avg
      && avg <= GetAvgPrice(r, symbol) + price - MinReal(GetAvgPrice(r, symbol), price)
      && GetRealizedPnl(Record(r, symbol, price, quantity, side, corrected), symbol) == GetRealizedPnl(r, symbol)
  {
    var a := Abs(GetPosition(r, symbol));
    assert GetAvgPrice(Record(r, symbol, price, quantity, side, corrected), symbol)
      == (GetAvgPrice(r, symbol) * a + price * quantity) / (a + quantity);
    WeightedMeanBetween(GetAvgPrice(r, symbol), a, price, quantity);
  }

  /** A weighted mean with non-negative weights (one positive) lies between its two values. */
  lemma WeightedMeanBetween(x: real, wx: real, y: real, wy: real)
    requires wx >= 0.0 && wy > 0.0
    ensures MinReal(x, y) <= (x * wx + y * wy) / (wx + wy)
    ensures (x * wx + y * wy) / (wx + wy) <= x + y - MinReal(x, y)
  {
    var w := wx + wy;
    var m := (x * wx + y * wy) / w;
    assert m * w == x * wx + y * wy;
    var lo := MinReal(x, y);
    var hi := x + y - lo;
    assert lo * w <= m * w by {
      assert lo * wx <= x * wx;
      assert lo * wy <= y * wy;
    }
    assert m * w <= hi * w by {
      assert x * wx <= hi * wx;
      assert y * wy <= hi * wy;
    }
  }

  /** From a flat position any fill opens at the fill price. */
  lemma OpenFromFlat(r: RiskState, symbol: string, price: real, quantity: real, side: Side, corrected: bool)
    requires quantity > 0.0 && GetPosition(r, symbol) == 0.0
    ensures GetAvgPrice(Record(r, symbol, price, quantity, side, corrected), symbol) == price
    ensures GetRealizedPnl(Record(r, symbol, price, quantity, side, corrected), symbol) == GetRealizedPnl(r, symbol)
  {
    var oldAvg := GetAvgPrice(r, symbol);
    assert (oldAvg * 0.0 + price * quantity) / (0.0 + quantity) == price;
  }

  /**
   * Flattening a long exactly (Sell of the whole position) takes the
   * partial-close branch, since `signum(+0.0) == 1`: the average stays and
   * the gain is `(price - avg) * position`.
   */
  lemma FlattenLongIsPartialClose(r: RiskState, symbol: string, price: real, corrected: bool)
    requires GetPosition(r, symbol) > 0.0
    ensures
      var p := GetPosition(r, symbol);
      var r' := Record(r, symbol, price, p, Sell, corrected);
      && Classify(p, p + Signed(p, Sell)) == PartialClose
      && GetPosition(r', symbol) == 0.0
      && GetAvgPrice(r', symbol) == GetAvgPrice(r, symbol)
      && GetRealizedPnl(r', symbol) == GetRealizedPnl(r, symbol) + (price - GetAvgPrice(r, symbol)) * p
  {
  }

  /**
   * Flattening a short exactly (Buy of the whole position) takes the
   * reversal branch: the average resets to the fill price.
   */
  lemma FlattenShortIsReversal(r: RiskState, symbol: string, price: real, corrected: bool)
    requires GetPosition(r, symbol) < 0.0
    ensures
      var p := GetPosition(r, symbol);
      var r' := Record(r, symbol, price, -p, Buy, corrected);
      && Classify(p, p + Signed(-p, Buy)) == Reversal
      && GetPosition(r', symbol) == 0.0
      && GetAvgPrice(r', symbol) == price
      && GetRealizedPnl(r', symbol) == GetRealizedPnl(r, symbol) + ReversalPnl(price, GetAvgPrice(r, symbol), p, corrected)
  {
  }

  /** As written, a reversal books `(price - avg) * |old|` and resets the average to the fill price. */
  lemma ReversalAsWritten(r: RiskState, symbol: string, price: real, quantity: real, side: Side)
    requires quantity > 0.0
    requires Classify(GetPosition(r, symbol), GetPosition(r, symbol) + Signed(quantity, side)) == Reversal
    ensures
      var r' := RecordTransactionAsWritten(r, symbol, price, quantity, side);
      && GetAvgPrice(r', symbol) == price
      && GetRealizedPnl(r', symbol)
           == GetRealizedPnl(r, symbol) + (price - GetAvgPrice(r, symbol)) * Abs(GetPosition(r, symbol))
  {
  }

  /** From flat: Buy 100 @ 10 then Sell 100 @ 12 leaves no position and +200 realized. */
  lemma RoundTripScenario(corrected: bool)
    ensures
      var r1 := Record(NewRisk(1000.0), "X", 10.0, 100.0, Buy, corrected);
      var r2 := Record(r1, "X", 12.0, 100.0, Sell, corrected);
      GetPosition(r2, "X") == 0.0 && GetRealizedPnl(r2, "X") == 200.0
  {
  }

  /** The unrealized formula is `(mark - avg) * position` for every sign of position, and 0 without a mark. */
  lemma UnrealizedIsSignedGain(position: real, avg: real, mark: Option<real>)
    ensures Unrealized(position, avg, mark) == if mark.Some? then (mark.value - avg) * position else 0.0
  {
  }

  /** A higher mark raises a long's unrealized P&L and lowers a short's. */
  lemma UnrealizedOrderedByMark(position: real, avg: real, low: real, high: real)
    requires low < high
    ensures position > 0.0 ==> Unrealized(position, avg, Some(low)) < Unrealized(position, avg, Some(high))
    ensures position < 0.0 ==> Unrealized(position, avg, Some(low)) > Unrealized(position, avg, Some(high))
  {
    UnrealizedIsSignedGain(position, avg, Some(low));
    UnrealizedIsSignedGain(position, avg, Some(high));
    assert (high - avg) * position - (low - avg) * position == (high - low) * position;
    if position > 0.0 {
      assert (high - low) * position > 0.0;
    } else if position < 0.0 {
      assert (high - low) * position < 0.0;
    }
  }

  /**
   * As written, closing a short in full books the opposite of its
   * unrealized P&L: from flat, Sell 100 @ 10 then Buy 100 @ 8 realizes
   * -200 although the short gained 200.
   */
  lemma ShortReversalSignCounterexample()
    ensures
      var r1 := RecordTransactionAsWritten(NewRisk(1000.0), "X", 10.0, 100.0, Sell);
      var r2 := RecordTransactionAsWritten(r1, "X", 8.0, 100.0, Buy);
      && Unrealized(GetPosition(r1, "X"), GetAvgPrice(r1, "X"), Some(8.0)) == 200.0
      && GetPosition(r2, "X") == 0.0
      && GetRealizedPnl(r2, "X") == -200.0
  {
  }

  /**
   * With the corrected rule, closing a whole position at a price realizes
   * exactly the unrealized P&L reported at that price, long or short.
   */
  lemma {:induction false} CloseRealizesUnrealized(r: RiskState, symbol: string, price: real)
    requires GetPosition(r, symbol) != 0.0
    ensures
      var p := GetPosition(r, symbol);
      var closing := if p > 0.0 then Sell else Buy;
      var r' := RecordTransaction(r, symbol, price, Abs(p), closing);
      && GetPosition(r', symbol) == 0.0
      && GetRealizedPnl(r', symbol)
           == GetRealizedPnl(r, symbol) + Unrealized(p, GetAvgPrice(r, symbol), Some(price))
  {
    var p := GetPosition(r, symbol);
    var avg := GetAvgPrice(r, symbol);
    if p > 0.0 {
      FlattenLongIsPartialClose(r, symbol, price, true);
      assert Unrealized(p, avg, Some(price)) == (price - avg) * p;
    } else {
      FlattenShortIsReversal(r, symbol, price, true);
      assert Abs(p) == -p;
      assert Unrealized(p, avg, Some(price)) == (avg - price) * -p;
      assert (avg - price) * -p == (price - avg) * p;
    }
  }
}
