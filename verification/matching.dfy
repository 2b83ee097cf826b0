/**
 * The price-time-priority matcher: `match_buy_order` / `match_sell_order`
 * walk the opposite side's levels in key order (asks ascending, bids
 * descending), stop at the first price the taker's price check rejects,
 * and fill the resting orders of each level oldest first.
 *
 * The two source functions differ only in which side they walk and which
 * way round the buyer and seller ids go; both are `MatchAgainst` here.
 */
module Matching {
  import opened Common
  import opened OrderBook

  /** An execution. The source's clock-derived id and timestamp are not modelled. */
  datatype Trade = Trade(symbol: string, price: int, quantity: int, buyerId: nat, sellerId: nat)

  /** The `price_check` closure handed to the matcher. */
  datatype PriceCheck = AnyPrice | AtMost(limit: int) | AtLeast(limit: int)

  predicate Accepts(check: PriceCheck, price: int) {
    match check
    case AnyPrice => true
    case AtMost(limit) => price <= limit
    case AtLeast(limit) => price >= limit
  }

  /** Once a price fails the check, every price after it in the side's key order fails too. */
  ghost predicate Monotone(check: PriceCheck, side: Side) {
    forall a, b | KeyBefore(side, a, b) && !Accepts(check, a) :: !Accepts(check, b)
  }

  /** The buyer is the taker for a buy and the maker for a sell. */
  function MakeTrade(taker: Order, maker: Order, price: int, quantity: int): (t: Trade)
    ensures t.symbol == taker.symbol && t.price == price && t.quantity == quantity
    ensures taker.side == Buy ==> t.buyerId == taker.id && t.sellerId == maker.id
    ensures taker.side == Sell ==> t.buyerId == maker.id && t.sellerId == taker.id
  {
    match taker.side
    case Buy => Trade(taker.symbol, price, quantity, taker.id, maker.id)
    case Sell => Trade(taker.symbol, price, quantity, maker.id, taker.id)
  }

  /** The resting side of a trade, seen from the taker. */
  function MakerId(t: Trade, takerSide: Side): nat {
    match takerSide
    case Buy => t.sellerId
    case Sell => t.buyerId
  }

  function SumQty(trades: seq<Trade>): int {
    if |trades| == 0 then 0 else trades[0].quantity + SumQty(trades[1..])
  }

  lemma {:induction false} SumQtyAppend(a: seq<Trade>, b: seq<Trade>)
    ensures SumQty(a + b) == SumQty(a) + SumQty(b)
  {
    if |a| == 0 {
      assert a + b == b;
    } else {
      assert (a + b)[1..] == a[1..] + b;
      SumQtyAppend(a[1..], b);
    }
  }

  // ---------------------------------------------------------------------------
  // One level: fill its queue oldest first
  // ---------------------------------------------------------------------------

  /**
   * The outcome of filling one level: the trades, the orders left at the
   * level (in order), the ids of the makers that were used up, and the
   * taker's remaining quantity.
   */
  datatype Fill = Fill(trades: seq<Trade>, kept: seq<Order>, filled: seq<nat>, remaining: int)

  /**
   * The inner loop over `orders_at_price`: stop once the taker has nothing
   * left; otherwise trade `min(remaining, resting)` at the level price,
   * decrement both, and drop a maker that is reduced to nothing.
   */
  function FillQueue(queue: seq<Order>, price: int, taker: Order, remaining: int): (r: Fill)
    ensures |r.trades| <= |queue|
  {
    if |queue| == 0 || remaining <= 0 then
      Fill([], queue, [], remaining)
    else
      var maker := queue[0];
      var qty := Min(remaining, maker.quantity);
      var reduced := maker.(quantity := maker.quantity - qty);
      var gone := reduced.quantity <= 0;
      var rest := FillQueue(queue[1..], price, taker, remaining - qty);
      Fill([MakeTrade(taker, maker, price, qty)] + rest.trades,
           (if gone then [] else [reduced]) + rest.kept,
           (if gone then [maker.id] else []) + rest.filled,
           rest.remaining)
  }

  /** The taker's remaining quantity falls by exactly the traded quantity; at most one trade per maker. */
  lemma {:induction false} FillConserves(queue: seq<Order>, price: int, taker: Order, remaining: int)
    ensures FillQueue(queue, price, taker, remaining).remaining
         == remaining - SumQty(FillQueue(queue, price, taker, remaining).trades)
    ensures |FillQueue(queue, price, taker, remaining).trades| <= |queue|
  {
    if |queue| > 0 && remaining > 0 {
      var qty := Min(remaining, queue[0].quantity);
      FillConserves(queue[1..], price, taker, remaining - qty);
      var f := FillQueue(queue, price, taker, remaining);
      assert f.trades[1..] == FillQueue(queue[1..], price, taker, remaining - qty).trades;
    }
  }

  /**
   * The i-th trade of a level is against the i-th resting order (FIFO), at
   * the level price, for `min(remaining before it, resting quantity)`, and
   * the taker still had quantity when it was made.
   */
  lemma {:induction false} FillTrades(queue: seq<Order>, price: int, taker: Order, remaining: int, i: int)
    requires 0 <= i < |FillQueue(queue, price, taker, remaining).trades|
    ensures i < |queue|
    ensures
      var trades := FillQueue(queue, price, taker, remaining).trades;
      var before := remaining - SumQty(trades[..i]);
      && before > 0
      && trades[i] == MakeTrade(taker, queue[i], price, Min(before, queue[i].quantity))
  {
    var f := FillQueue(queue, price, taker, remaining);
    var qty := Min(remaining, queue[0].quantity);
    var rest := FillQueue(queue[1..], price, taker, remaining - qty);
    assert f.trades == [MakeTrade(taker, queue[0], price, qty)] + rest.trades;
    if i > 0 {
      FillTrades(queue[1..], price, taker, remaining - qty, i - 1);
      assert f.trades[..i] == [f.trades[0]] + rest.trades[..i - 1];
      assert SumQty(f.trades[..i]) == qty + SumQty(rest.trades[..i - 1]);
    }
  }

  /** A maker that is only partly filled: it has quantity left after its trade. */
  predicate PartlyFilled(queue: seq<Order>, trades: seq<Trade>) {
    0 < |trades| <= |queue| && trades[|trades| - 1].quantity < queue[|trades| - 1].quantity
  }

  /**
   * The taker leaves a level early, or leaves a maker partly filled, only
   * once it has nothing left.
   */
  lemma {:induction false} FillStops(queue: seq<Order>, price: int, taker: Order, remaining: int)
    ensures
      var f := FillQueue(queue, price, taker, remaining);
      && (|f.trades| < |queue| ==> f.remaining <= 0)
      && (PartlyFilled(queue, f.trades) ==> f.remaining <= 0)
  {
    if |queue| > 0 && remaining > 0 {
      var maker := queue[0];
      var qty := Min(remaining, maker.quantity);
      var tail := queue[1..];
      var f := FillQueue(queue, price, taker, remaining);
      var rest := FillQueue(tail, price, taker, remaining - qty);
      FillStops(tail, price, taker, remaining - qty);
      assert f.trades == [MakeTrade(taker, maker, price, qty)] + rest.trades;
      if |rest.trades| > 0 {
        assert f.trades[|f.trades| - 1] == rest.trades[|rest.trades| - 1];
        assert queue[|f.trades| - 1] == tail[|rest.trades| - 1];
      }
    }
  }

  /** Every maker before the last one traded with was used up completely. */
  lemma {:induction false} FillUsedUp(queue: seq<Order>, price: int, taker: Order, remaining: int)
    ensures
      var f := FillQueue(queue, price, taker, remaining);
      forall i | 0 <= i < |f.trades| - 1 :: f.trades[i].quantity == queue[i].quantity
  {
    if |queue| > 0 && remaining > 0 {
      var maker := queue[0];
      var qty := Min(remaining, maker.quantity);
      var tail := queue[1..];
      var f := FillQueue(queue, price, taker, remaining);
      var rest := FillQueue(tail, price, taker, remaining - qty);
      FillUsedUp(tail, price, taker, remaining - qty);
      assert f.trades == [MakeTrade(taker, maker, price, qty)] + rest.trades;
      if |rest.trades| > 0 {
        assert remaining - qty > 0;
      }
      assert forall i | 1 <= i < |f.trades| :: f.trades[i] == rest.trades[i - 1] && queue[i] == tail[i - 1];
    }
  }

  /**
   * What a level keeps: the last maker traded with stays at the FRONT of
   * the queue with its reduced quantity if anything is left of it, and the
   * makers not reached follow in their original order.
   */
  lemma {:induction false} FillKept(queue: seq<Order>, price: int, taker: Order, remaining: int)
    ensures
      var f := FillQueue(queue, price, taker, remaining);
      var n := |f.trades|;
      && n <= |queue|
      && f.kept == (if PartlyFilled(queue, f.trades)
                    then [queue[n - 1].(quantity := queue[n - 1].quantity - f.trades[n - 1].quantity)]
                    else []) + queue[n..]
  {
    FillConserves(queue, price, taker, remaining);
    if |queue| > 0 && remaining > 0 {
      var maker := queue[0];
      var qty := Min(remaining, maker.quantity);
      var tail := queue[1..];
      var f := FillQueue(queue, price, taker, remaining);
      var rest := FillQueue(tail, price, taker, remaining - qty);
      FillKept(tail, price, taker, remaining - qty);
      var m := |rest.trades|;
      assert f.trades == [MakeTrade(taker, maker, price, qty)] + rest.trades;
      if m == 0 {
        assert rest.kept == tail;
      } else {
        assert remaining - qty > 0;
        assert f.trades[m] == rest.trades[m - 1];
        assert queue[m] == tail[m - 1];
        assert queue[1 + m..] == tail[m..];
      }
    }
  }

  /** The makers reported as filled are exactly the used-up ones, in queue order. */
  lemma {:induction false} FillFilledIds(queue: seq<Order>, price: int, taker: Order, remaining: int)
    ensures
      var f := FillQueue(queue, price, taker, remaining);
      && |f.filled| == (if PartlyFilled(queue, f.trades) then |f.trades| - 1 else |f.trades|)
      && forall i | 0 <= i < |f.filled| :: f.filled[i] == queue[i].id
  {
    if |queue| > 0 && remaining > 0 {
      var maker := queue[0];
      var qty := Min(remaining, maker.quantity);
      var tail := queue[1..];
      var f := FillQueue(queue, price, taker, remaining);
      var rest := FillQueue(tail, price, taker, remaining - qty);
      FillFilledIds(tail, price, taker, remaining - qty);
      var m := |rest.trades|;
      assert f.trades == [MakeTrade(taker, maker, price, qty)] + rest.trades;
      if m > 0 {
        FillTailPartly(queue, price, taker, remaining);
        assert f.filled == [maker.id] + rest.filled;
      } else {
        assert |rest.filled| == 0;
        assert PartlyFilled(queue, f.trades) <==> maker.quantity - qty > 0;
      }
      forall i | 1 <= i < |f.filled|
        ensures f.filled[i] == queue[i].id
      {
        assert f.filled[i] == rest.filled[i - 1];
        assert queue[i] == tail[i - 1];
      }
    }
  }

  /** Once a later maker trades, the first was used up, and partial filling is decided further down. */
  lemma FillTailPartly(queue: seq<Order>, price: int, taker: Order, remaining: int)
    requires |queue| > 0 && remaining > 0
    requires |FillQueue(queue[1..], price, taker, remaining - Min(remaining, queue[0].quantity)).trades| > 0
    ensures
      var qty := Min(remaining, queue[0].quantity);
      var rest := FillQueue(queue[1..], price, taker, remaining - qty);
      && qty == queue[0].quantity
      && (PartlyFilled(queue, FillQueue(queue, price, taker, remaining).trades) <==> PartlyFilled(queue[1..], rest.trades))
  {
    var qty := Min(remaining, queue[0].quantity);
    var rest := FillQueue(queue[1..], price, taker, remaining - qty);
    var f := FillQueue(queue, price, taker, remaining);
    var m := |rest.trades|;
    assert f.trades == [MakeTrade(taker, queue[0], price, qty)] + rest.trades;
    assert f.trades[m] == rest.trades[m - 1];
    assert queue[m] == queue[1..][m - 1];
  }

  /** Filling a well-formed level leaves only positive resting orders of the same level. */
  lemma FillKeptWF(queue: seq<Order>, symbol: string, side: Side, price: int, taker: Order, remaining: int)
    requires forall k | 0 <= k < |queue| :: RestsAt(queue[k], symbol, side, price)
    ensures forall k | 0 <= k < |FillQueue(queue, price, taker, remaining).kept| ::
      RestsAt(FillQueue(queue, price, taker, remaining).kept[k], symbol, side, price)
  {
    FillKept(queue, price, taker, remaining);
    var f := FillQueue(queue, price, taker, remaining);
    var n := |f.trades|;
    forall k | 0 <= k < |f.kept|
      ensures RestsAt(f.kept[k], symbol, side, price)
    {
      if PartlyFilled(queue, f.trades) && k == 0 {
        assert RestsAt(queue[n - 1], symbol, side, price);
      } else if PartlyFilled(queue, f.trades) {
        assert f.kept[k] == queue[n + k - 1];
      } else {
        assert f.kept[k] == queue[n + k];
      }
    }
  }

  /** A well-formed level yields only positive trades. */
  lemma FillPositive(queue: seq<Order>, symbol: string, side: Side, price: int, taker: Order, remaining: int, i: int)
    requires forall k | 0 <= k < |queue| :: RestsAt(queue[k], symbol, side, price)
    requires 0 <= i < |FillQueue(queue, price, taker, remaining).trades|
    ensures FillQueue(queue, price, taker, remaining).trades[i].quantity > 0
  {
    FillTrades(queue, price, taker, remaining, i);
  }

  // ---------------------------------------------------------------------------
  // The walk over the opposite side
  // ---------------------------------------------------------------------------

  /** The outcome of a walk: trades, the side's levels afterwards, used-up makers, remaining quantity. */
  datatype Sweep = Sweep(trades: seq<Trade>, levels: Levels, filled: seq<nat>, remaining: int)

  /**
   * The outer loop over `prices_to_check` in key order: stop at the first
   * price the check rejects; otherwise fill that level, drop it if it
   * empties, and go on to the next price while the taker has quantity left.
   */
  function Walk(levels: Levels, check: PriceCheck, taker: Order, remaining: int): Sweep {
    if |levels| == 0 || !Accepts(check, levels[0].price) then
      Sweep([], levels, [], remaining)
    else
      var f := FillQueue(levels[0].orders, levels[0].price, taker, remaining);
      var head := if |f.kept| == 0 then [] else [Level(levels[0].price, f.kept)];
      if f.remaining <= 0 then
        Sweep(f.trades, head + levels[1..], f.filled, f.remaining)
      else
        var rest := Walk(levels[1..], check, taker, f.remaining);
        Sweep(f.trades + rest.trades, head + rest.levels, f.filled + rest.filled, rest.remaining)
  }

  /** Across the walk the taker's remaining quantity falls by exactly the traded quantity. */
  lemma {:induction false} WalkConserves(levels: Levels, check: PriceCheck, taker: Order, remaining: int)
    ensures Walk(levels, check, taker, remaining).remaining
         == remaining - SumQty(Walk(levels, check, taker, remaining).trades)
  {
    if |levels| > 0 && Accepts(check, levels[0].price) {
      var f := FillQueue(levels[0].orders, levels[0].price, taker, remaining);
      FillConserves(levels[0].orders, levels[0].price, taker, remaining);
      if f.remaining > 0 {
        var rest := Walk(levels[1..], check, taker, f.remaining);
        WalkConserves(levels[1..], check, taker, f.remaining);
        SumQtyAppend(f.trades, rest.trades);
      }
    }
  }

  /** A taker never goes below zero: each trade takes at most what it has left. */
  lemma {:induction false} FillRemaining(queue: seq<Order>, price: int, taker: Order, remaining: int)
    requires remaining >= 0
    ensures FillQueue(queue, price, taker, remaining).remaining >= 0
  {
    if |queue| > 0 && remaining > 0 {
      FillRemaining(queue[1..], price, taker, remaining - Min(remaining, queue[0].quantity));
    }
  }

  /** A walk leaves a non-negative remainder, and a taker with nothing to fill makes no trades. */
  lemma {:induction false} WalkRemaining(levels: Levels, check: PriceCheck, taker: Order, remaining: int)
    ensures remaining >= 0 ==> Walk(levels, check, taker, remaining).remaining >= 0
    ensures remaining <= 0 ==> Walk(levels, check, taker, remaining).trades == []
  {
    if |levels| > 0 && Accepts(check, levels[0].price) {
      var f := FillQueue(levels[0].orders, levels[0].price, taker, remaining);
      if remaining >= 0 {
        FillRemaining(levels[0].orders, levels[0].price, taker, remaining);
      }
      if f.remaining > 0 {
        WalkRemaining(levels[1..], check, taker, f.remaining);
      }
    }
  }

  /** Every trade of a walk is at the price of a level it visited, and that price passed the check. */
  lemma {:induction false} WalkTradePrice(levels: Levels, check: PriceCheck, taker: Order, remaining: int, i: int)
    requires 0 <= i < |Walk(levels, check, taker, remaining).trades|
    ensures
      var p := Walk(levels, check, taker, remaining).trades[i].price;
      Accepts(check, p) && Find(levels, p).Some?
  {
    var f := FillQueue(levels[0].orders, levels[0].price, taker, remaining);
    var w := Walk(levels, check, taker, remaining);
    if i < |f.trades| {
      FillTrades(levels[0].orders, levels[0].price, taker, remaining, i);
      assert w.trades[i] == f.trades[i];
    } else {
      var rest := Walk(levels[1..], check, taker, f.remaining);
      assert w.trades[i] == rest.trades[i - |f.trades|];
      WalkTradePrice(levels[1..], check, taker, f.remaining, i - |f.trades|);
    }
  }

  /** Every trade of a walk has the taker's symbol, and the taker on its own side of the trade. */
  lemma {:induction false} WalkTradeParties(levels: Levels, check: PriceCheck, taker: Order, remaining: int, i: int)
    requires 0 <= i < |Walk(levels, check, taker, remaining).trades|
    ensures
      var t := Walk(levels, check, taker, remaining).trades[i];
      && t.symbol == taker.symbol
      && (taker.side == Buy ==> t.buyerId == taker.id)
      && (taker.side == Sell ==> t.sellerId == taker.id)
  {
    var f := FillQueue(levels[0].orders, levels[0].price, taker, remaining);
    var w := Walk(levels, check, taker, remaining);
    if i < |f.trades| {
      FillTrades(levels[0].orders, levels[0].price, taker, remaining, i);
      assert w.trades[i] == f.trades[i];
    } else {
      var rest := Walk(levels[1..], check, taker, f.remaining);
      assert w.trades[i] == rest.trades[i - |f.trades|];
      WalkTradeParties(levels[1..], check, taker, f.remaining, i - |f.trades|);
    }
  }

  /** No order resting on these levels carries `id`. */
  predicate NoRestingId(levels: Levels, id: nat) {
    forall j, k | 0 <= j < |levels| && 0 <= k < |levels[j].orders| :: levels[j].orders[k].id != id
  }

  /** The maker of every trade of a walk is an order that rested on the walked levels. */
  lemma {:induction false} WalkMakerResting(levels: Levels, check: PriceCheck, taker: Order, remaining: int, id: nat, i: int)
    requires NoRestingId(levels, id)
    requires 0 <= i < |Walk(levels, check, taker, remaining).trades|
    ensures MakerId(Walk(levels, check, taker, remaining).trades[i], taker.side) != id
  {
    var f := FillQueue(levels[0].orders, levels[0].price, taker, remaining);
    var w := Walk(levels, check, taker, remaining);
    if i < |f.trades| {
      FillTrades(levels[0].orders, levels[0].price, taker, remaining, i);
      assert w.trades[i] == f.trades[i];
      assert levels[0].orders[i].id != id;
    } else {
      var rest := Walk(levels[1..], check, taker, f.remaining);
      assert w.trades[i] == rest.trades[i - |f.trades|];
      assert NoRestingId(levels[1..], id) by {
        forall j, k | 0 <= j < |levels[1..]| && 0 <= k < |levels[1..][j].orders|
          ensures levels[1..][j].orders[k].id != id
        {
          assert levels[1..][j] == levels[j + 1];
        }
      }
      WalkMakerResting(levels[1..], check, taker, f.remaining, id, i - |f.trades|);
    }
  }

  /** On a well-formed side every trade of a walk has a positive quantity. */
  lemma {:induction false} WalkPositive(levels: Levels, symbol: string, side: Side, check: PriceCheck, taker: Order, remaining: int, i: int)
    requires LevelsWF(levels, symbol, side)
    requires 0 <= i < |Walk(levels, check, taker, remaining).trades|
    ensures Walk(levels, check, taker, remaining).trades[i].quantity > 0
  {
    var f := FillQueue(levels[0].orders, levels[0].price, taker, remaining);
    var w := Walk(levels, check, taker, remaining);
    assert LevelWF(levels[0], symbol, side);
    if i < |f.trades| {
      FillPositive(levels[0].orders, symbol, side, levels[0].price, taker, remaining, i);
      assert w.trades[i] == f.trades[i];
    } else {
      var rest := Walk(levels[1..], check, taker, f.remaining);
      assert w.trades[i] == rest.trades[i - |f.trades|];
      assert forall j | 0 <= j < |levels[1..]| :: levels[1..][j] == levels[j + 1];
      WalkPositive(levels[1..], symbol, side, check, taker, f.remaining, i - |f.trades|);
    }
  }

  /** Trade prices never go back against the side's key order. */
  predicate InKeyOrder(side: Side, trades: seq<Trade>) {
    forall i, j | 0 <= i < j < |trades| ::
      trades[i].price == trades[j].price || KeyBefore(side, trades[i].price, trades[j].price)
  }

  /**
   * Price priority: the trades of a walk come in the side's key order
   * (ascending for asks, descending for bids); equal prices are one level.
   */
  lemma {:induction false} WalkPricePriority(levels: Levels, side: Side, check: PriceCheck, taker: Order, remaining: int)
    requires Ordered(side, levels)
    ensures InKeyOrder(side, Walk(levels, check, taker, remaining).trades)
  {
    var w := Walk(levels, check, taker, remaining);
    if |levels| > 0 && Accepts(check, levels[0].price) {
      var f := FillQueue(levels[0].orders, levels[0].price, taker, remaining);
      forall k | 0 <= k < |f.trades|
        ensures f.trades[k].price == levels[0].price
      {
        FillTrades(levels[0].orders, levels[0].price, taker, remaining, k);
      }
      if f.remaining > 0 {
        var tail := levels[1..];
        var rest := Walk(tail, check, taker, f.remaining);
        OrderedTail(side, levels);
        WalkPricePriority(tail, side, check, taker, f.remaining);
        assert w.trades == f.trades + rest.trades;
        forall k | 0 <= k < |rest.trades|
          ensures KeyBefore(side, levels[0].price, rest.trades[k].price)
        {
          WalkTradePrice(tail, check, taker, f.remaining, k);
        }
        forall i, j | 0 <= i < j < |w.trades|
          ensures w.trades[i].price == w.trades[j].price || KeyBefore(side, w.trades[i].price, w.trades[j].price)
        {
          var n := |f.trades|;
          if j < n {
            assert w.trades[i] == f.trades[i] && w.trades[j] == f.trades[j];
          } else if i < n {
            assert w.trades[i] == f.trades[i] && w.trades[j] == rest.trades[j - n];
          } else {
            assert w.trades[i] == rest.trades[i - n] && w.trades[j] == rest.trades[j - n];
            assert InKeyOrder(side, rest.trades);
          }
        }
      }
    }
  }

  /** A taker with quantity left after a level has used up every maker there. */
  lemma FillExhausts(queue: seq<Order>, price: int, taker: Order, remaining: int)
    requires FillQueue(queue, price, taker, remaining).remaining > 0
    ensures FillQueue(queue, price, taker, remaining).kept == []
  {
    FillStops(queue, price, taker, remaining);
    FillKept(queue, price, taker, remaining);
  }

  /** A level price of an ordered side never comes before the side's first price. */
  lemma FoundNotBeforeFirst(side: Side, levels: Levels, price: int)
    requires Ordered(side, levels) && |levels| > 0 && Find(levels, price).Some?
    ensures !KeyBefore(side, price, levels[0].price)
  {
    var k :| 0 <= k < |levels| && levels[k].price == price;
    if k > 0 {
      assert KeyBefore(side, levels[0].price, levels[k].price);
    }
  }

  /** A trade made at the first level is at that level's price. */
  lemma WalkHeadTrade(levels: Levels, check: PriceCheck, taker: Order, remaining: int, i: int)
    requires |levels| > 0 && Accepts(check, levels[0].price)
    requires 0 <= i < |FillQueue(levels[0].orders, levels[0].price, taker, remaining).trades|
    ensures i < |Walk(levels, check, taker, remaining).trades|
    ensures Walk(levels, check, taker, remaining).trades[i].price == levels[0].price
  {
    FillTrades(levels[0].orders, levels[0].price, taker, remaining, i);
  }

  /** A taker that gets past the first level leaves nothing of it behind. */
  lemma WalkPastHead(levels: Levels, check: PriceCheck, taker: Order, remaining: int)
    requires |levels| > 0 && Accepts(check, levels[0].price)
    requires FillQueue(levels[0].orders, levels[0].price, taker, remaining).remaining > 0
    ensures
      var f := FillQueue(levels[0].orders, levels[0].price, taker, remaining);
      var rest := Walk(levels[1..], check, taker, f.remaining);
      && Walk(levels, check, taker, remaining).trades == f.trades + rest.trades
      && Walk(levels, check, taker, remaining).levels == rest.levels
      && Walk(levels, check, taker, remaining).remaining == rest.remaining
  {
    var f := FillQueue(levels[0].orders, levels[0].price, taker, remaining);
    var rest := Walk(levels[1..], check, taker, f.remaining);
    FillExhausts(levels[0].orders, levels[0].price, taker, remaining);
    assert [] + rest.levels == rest.levels;
    assert Walk(levels, check, taker, remaining) == Sweep(f.trades + rest.trades, [] + rest.levels, f.filled + rest.filled, rest.remaining);
  }

  /**
   * Best first: no level left on the side comes before a price that
   * traded, so the walk never fills a worse price while a better one
   * still rests.
   */
  lemma {:induction false} WalkNoBetterLeft(levels: Levels, side: Side, check: PriceCheck, taker: Order, remaining: int, i: int, j: int)
    requires Ordered(side, levels)
    requires 0 <= i < |Walk(levels, check, taker, remaining).trades|
    requires 0 <= j < |Walk(levels, check, taker, remaining).levels|
    ensures
      var w := Walk(levels, check, taker, remaining);
      !KeyBefore(side, w.levels[j].price, w.trades[i].price)
  {
    var w := Walk(levels, check, taker, remaining);
    assert |levels| > 0 && Accepts(check, levels[0].price);
    var f := FillQueue(levels[0].orders, levels[0].price, taker, remaining);
    if i < |f.trades| {
      WalkHeadTrade(levels, check, taker, remaining, i);
      WalkPrices(levels, check, taker, remaining, j);
      FoundNotBeforeFirst(side, levels, w.levels[j].price);
    } else {
      assert f.remaining > 0;
      WalkPastHead(levels, check, taker, remaining);
      OrderedTail(side, levels);
      WalkNoBetterLeft(levels[1..], side, check, taker, f.remaining, i - |f.trades|, j);
    }
  }

  /** On a monotone check, a side whose first price fails has no price that passes. */
  lemma FirstRejectedAllRejected(levels: Levels, side: Side, check: PriceCheck)
    requires Ordered(side, levels) && Monotone(check, side)
    requires |levels| > 0 && !Accepts(check, levels[0].price)
    ensures forall j | 0 <= j < |levels| :: !Accepts(check, levels[j].price)
  {
    forall j | 0 < j < |levels|
      ensures !Accepts(check, levels[j].price)
    {
      assert KeyBefore(side, levels[0].price, levels[j].price);
    }
  }

  /**
   * The walk ends only when the taker is exhausted or the next price fails
   * the check: if quantity remains, no level left on the side passes it.
   */
  lemma {:induction false} WalkStops(levels: Levels, side: Side, check: PriceCheck, taker: Order, remaining: int)
    requires Ordered(side, levels) && Monotone(check, side)
    ensures
      var w := Walk(levels, check, taker, remaining);
      w.remaining > 0 ==> forall j | 0 <= j < |w.levels| :: !Accepts(check, w.levels[j].price)
  {
    if |levels| == 0 {
    } else if !Accepts(check, levels[0].price) {
      FirstRejectedAllRejected(levels, side, check);
    } else {
      var f := FillQueue(levels[0].orders, levels[0].price, taker, remaining);
      if f.remaining > 0 {
        WalkPastHead(levels, check, taker, remaining);
        OrderedTail(side, levels);
        WalkStops(levels[1..], side, check, taker, f.remaining);
      }
    }
  }

  /** A walk never adds a price: every level afterwards sits at a price the side had. */
  lemma {:induction false} WalkPrices(levels: Levels, check: PriceCheck, taker: Order, remaining: int, i: int)
    requires 0 <= i < |Walk(levels, check, taker, remaining).levels|
    ensures Find(levels, Walk(levels, check, taker, remaining).levels[i].price).Some?
  {
    var w := Walk(levels, check, taker, remaining);
    if |levels| > 0 && Accepts(check, levels[0].price) {
      var f := FillQueue(levels[0].orders, levels[0].price, taker, remaining);
      if f.remaining > 0 {
        WalkPastHead(levels, check, taker, remaining);
        WalkPrices(levels[1..], check, taker, f.remaining, i);
        var k :| 0 <= k < |levels[1..]| && levels[1..][k].price == w.levels[i].price;
        assert levels[k + 1].price == w.levels[i].price;
      } else {
        var head := if |f.kept| == 0 then [] else [Level(levels[0].price, f.kept)];
        assert w.levels == head + levels[1..];
        if i >= |head| {
          assert w.levels[i] == levels[i - |head| + 1];
        }
      }
    }
  }

  /** A walk keeps the side well formed: emptied levels are gone, the rest stay positive and in key order. */
  lemma {:induction false} WalkWF(levels: Levels, symbol: string, side: Side, check: PriceCheck, taker: Order, remaining: int)
    requires LevelsWF(levels, symbol, side)
    ensures LevelsWF(Walk(levels, check, taker, remaining).levels, symbol, side)
  {
    if |levels| > 0 && Accepts(check, levels[0].price) {
      var f := FillQueue(levels[0].orders, levels[0].price, taker, remaining);
      var head := if |f.kept| == 0 then [] else [Level(levels[0].price, f.kept)];
      assert LevelWF(levels[0], symbol, side);
      FillKeptWF(levels[0].orders, symbol, side, levels[0].price, taker, remaining);
      assert LevelsWF(head, symbol, side) by {
        if |head| == 1 {
          assert LevelWF(head[0], symbol, side);
        }
      }
      var tail := levels[1..];
      OrderedTail(side, levels);
      assert forall j | 0 <= j < |tail| :: LevelWF(tail[j], symbol, side) by {
        assert forall j | 0 <= j < |tail| :: tail[j] == levels[j + 1];
      }
      if f.remaining <= 0 {
        ConsLevelsWF(head, tail, symbol, side);
      } else {
        var after := Walk(tail, check, taker, f.remaining).levels;
        WalkWF(tail, symbol, side, check, taker, f.remaining);
        forall j | 0 <= j < |after|
          ensures KeyBefore(side, levels[0].price, after[j].price)
        {
          WalkPrices(tail, check, taker, f.remaining, j);
        }
        ConsLevelsWF(head, after, symbol, side);
      }
    }
  }

  // ---------------------------------------------------------------------------
  // Resting volume: what the makers lose is what the taker gets
  // ---------------------------------------------------------------------------

  /** The total quantity of a queue of resting orders. */
  function Volume(orders: seq<Order>): int {
    if |orders| == 0 then 0 else orders[0].quantity + Volume(orders[1..])
  }

  /** The total resting quantity of a side's levels. */
  function LevelsVolume(levels: Levels): int {
    if |levels| == 0 then 0 else Volume(levels[0].orders) + LevelsVolume(levels[1..])
  }

  lemma {:induction false} LevelsVolumeAppend(a: Levels, b: Levels)
    ensures LevelsVolume(a + b) == LevelsVolume(a) + LevelsVolume(b)
  {
    if |a| == 0 {
      assert a + b == b;
    } else {
      assert (a + b)[1..] == a[1..] + b;
      LevelsVolumeAppend(a[1..], b);
    }
  }

  /**
   * Filling a level conserves quantity: the level's volume before equals
   * the volume left at it plus the traded quantity, whatever the queue.
   */
  lemma {:induction false} FillVolume(queue: seq<Order>, price: int, taker: Order, remaining: int)
    ensures
      var f := FillQueue(queue, price, taker, remaining);
      Volume(queue) == Volume(f.kept) + SumQty(f.trades)
  {
    if |queue| > 0 && remaining > 0 {
      var maker := queue[0];
      var qty := Min(remaining, maker.quantity);
      var reduced := maker.(quantity := maker.quantity - qty);
      var rest := FillQueue(queue[1..], price, taker, remaining - qty);
      FillVolume(queue[1..], price, taker, remaining - qty);
      var f := FillQueue(queue, price, taker, remaining);
      assert f.trades[1..] == rest.trades;
      if reduced.quantity <= 0 {
        assert f.kept == rest.kept;
      } else {
        assert f.kept[1..] == rest.kept;
      }
    }
  }

  /**
   * A walk conserves quantity: the side's resting volume before equals the
   * volume left on it plus the traded quantity.
   */
  lemma {:induction false} WalkVolume(levels: Levels, check: PriceCheck, taker: Order, remaining: int)
    ensures
      var w := Walk(levels, check, taker, remaining);
      LevelsVolume(levels) == LevelsVolume(w.levels) + SumQty(w.trades)
  {
    if |levels| > 0 && Accepts(check, levels[0].price) {
      var f := FillQueue(levels[0].orders, levels[0].price, taker, remaining);
      var head := if |f.kept| == 0 then [] else [Level(levels[0].price, f.kept)];
      FillVolume(levels[0].orders, levels[0].price, taker, remaining);
      assert LevelsVolume(head) == Volume(f.kept) by {
        if |f.kept| > 0 {
          assert head[1..] == [];
        }
      }
      if f.remaining <= 0 {
        LevelsVolumeAppend(head, levels[1..]);
      } else {
        var rest := Walk(levels[1..], check, taker, f.remaining);
        WalkVolume(levels[1..], check, taker, f.remaining);
        LevelsVolumeAppend(head, rest.levels);
        SumQtyAppend(f.trades, rest.trades);
      }
    }
  }

  // ---------------------------------------------------------------------------
  // match_buy_order / match_sell_order
  // ---------------------------------------------------------------------------

  /** `order_index.remove(id)` for each used-up maker. */
  function Unindex(index: map<nat, IndexEntry>, ids: seq<nat>): (r: map<nat, IndexEntry>)
    ensures forall id :: id in r <==> id in index && id !in ids
    ensures forall id | id in r :: r[id] == index[id]
  {
    map id | id in index && id !in ids :: index[id]
  }

  /**
   * Match a taker against the opposite side of its symbol: walk the levels,
   * write back what is left, and unindex the used-up makers. A symbol with
   * no opposite map yields no trades.
   */
  function MatchAgainst(book: Book, taker: Order, check: PriceCheck): (r: (Book, seq<Trade>))
    ensures SideMap(r.0, taker.side) == SideMap(book, taker.side)
    ensures forall s | s != taker.symbol :: LevelsOf(r.0, Opposite(taker.side), s) == LevelsOf(book, Opposite(taker.side), s)
    ensures forall s :: s in SideMap(r.0, Opposite(taker.side)) <==> s in SideMap(book, Opposite(taker.side))
  {
    var side := Opposite(taker.side);
    var m := SideMap(book, side);
    if taker.symbol !in m then
      (book, [])
    else
      var w := Walk(m[taker.symbol], check, taker, taker.quantity);
      var written := WithLevels(book, side, taker.symbol, w.levels);
      assert Opposite(side) == taker.side;
      (written.(index := Unindex(book.index, w.filled)), w.trades)
  }

  /**
   * What matching does, seen through the walk over the opposite side of the
   * taker's symbol (no levels when the symbol is absent): the side keeps
   * what the walk leaves, the trades are the walk's, and exactly the
   * used-up makers leave the index.
   */
  lemma MatchAgainstWalk(book: Book, taker: Order, check: PriceCheck)
    ensures
      var w := Walk(LevelsOf(book, Opposite(taker.side), taker.symbol), check, taker, taker.quantity);
      var r := MatchAgainst(book, taker, check);
      && LevelsOf(r.0, Opposite(taker.side), taker.symbol) == w.levels
      && r.1 == w.trades
      && r.0.index == Unindex(book.index, w.filled)
  {
    var side := Opposite(taker.side);
    if taker.symbol !in SideMap(book, side) {
      assert Unindex(book.index, []) == book.index;
    }
  }

  /** `match_limit_order`: a buy takes asks at or below its price, a sell takes bids at or above it. */
  function LimitCheck(taker: Order): (c: PriceCheck)
    ensures forall p :: Accepts(c, p) <==> if taker.side == Buy then p <= taker.price else p >= taker.price
    ensures Monotone(c, Opposite(taker.side))
  {
    match taker.side
    case Buy => AtMost(taker.price)
    case Sell => AtLeast(taker.price)
  }
}
