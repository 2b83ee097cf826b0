/**
 * The per-symbol limit order book: bids and asks as price-ordered maps from
 * price to a FIFO queue of resting orders, plus an index from order id to
 * the (symbol, price, side) of the level it rests on.
 *
 * Each side of a symbol is a BTreeMap in the source. It is modelled here as
 * a sequence of levels in the map's key order: asks are keyed by price and
 * iterate in ascending price; bids are keyed by `Reverse(price)` and iterate
 * in DESCENDING price. `Ordered` is that representation invariant, and every
 * operation below preserves it.
 */
module OrderBook {
  import opened Common

  datatype OrderType = Market | Limit

  datatype Side = Buy | Sell

  /** Prices are integer ticks and quantities integer lots. */
  datatype Order = Order(
    id: nat,
    symbol: string,
    price: int,
    quantity: int,
    orderType: OrderType,
    side: Side,
    timestamp: int)

  /** One price level: the resting orders at `price`, oldest first. */
  datatype Level = Level(price: int, orders: seq<Order>)

  type Levels = seq<Level>

  /** What `order_index` records for a resting order id. */
  datatype IndexEntry = IndexEntry(symbol: string, price: int, side: Side)

  datatype Book = Book(
    bids: map<string, Levels>,
    asks: map<string, Levels>,
    index: map<nat, IndexEntry>)

  const EmptyBook: Book := Book(map[], map[], map[])

  function Opposite(side: Side): Side {
    match side
    case Buy => Sell
    case Sell => Buy
  }

  /** The BTreeMap key order of a side: bids by `Reverse(price)`, asks by price. */
  predicate KeyBefore(side: Side, a: int, b: int) {
    match side
    case Buy => a > b
    case Sell => a < b
  }

  /** The levels are strictly sorted in the side's key order. */
  predicate Ordered(side: Side, levels: Levels) {
    forall i, j | 0 <= i < j < |levels| :: KeyBefore(side, levels[i].price, levels[j].price)
  }

  predicate DistinctPrices(levels: Levels) {
    forall i, j | 0 <= i < j < |levels| :: levels[i].price != levels[j].price
  }

  /** A resting order as the book keeps it: a positive Limit order of this level. */
  predicate RestsAt(o: Order, symbol: string, side: Side, price: int) {
    && o.symbol == symbol
    && o.side == side
    && o.price == price
    && o.quantity > 0
    && o.orderType == Limit
  }

  predicate LevelWF(l: Level, symbol: string, side: Side) {
    && l.price > 0
    && |l.orders| > 0
    && forall k | 0 <= k < |l.orders| :: RestsAt(l.orders[k], symbol, side, l.price)
  }

  predicate LevelsWF(levels: Levels, symbol: string, side: Side) {
    && Ordered(side, levels)
    && forall i | 0 <= i < |levels| :: LevelWF(levels[i], symbol, side)
  }

  /** Every level is non-empty, sorted in key order, and holds only positive orders of its own price. */
  predicate BookWF(book: Book) {
    && (forall s | s in book.bids :: LevelsWF(book.bids[s], s, Buy))
    && (forall s | s in book.asks :: LevelsWF(book.asks[s], s, Sell))
  }

  function SideMap(book: Book, side: Side): map<string, Levels> {
    match side
    case Buy => book.bids
    case Sell => book.asks
  }

  /** The levels of one side of one symbol; an absent symbol has none. */
  function LevelsOf(book: Book, side: Side, symbol: string): Levels {
    var m := SideMap(book, side);
    if symbol in m then m[symbol] else []
  }

  function WithLevels(book: Book, side: Side, symbol: string, levels: Levels): (r: Book)
    ensures r.index == book.index
    ensures SideMap(r, side) == SideMap(book, side)[symbol := levels]
    ensures SideMap(r, Opposite(side)) == SideMap(book, Opposite(side))
  {
    match side
    case Buy => book.(bids := book.bids[symbol := levels])
    case Sell => book.(asks := book.asks[symbol := levels])
  }

  /** Every bid of a symbol is strictly below every ask of that symbol. */
  predicate UncrossedLevels(bids: Levels, asks: Levels) {
    forall i, j | 0 <= i < |bids| && 0 <= j < |asks| :: bids[i].price < asks[j].price
  }

  predicate Uncrossed(book: Book) {
    forall s | s in book.bids && s in book.asks :: UncrossedLevels(book.bids[s], book.asks[s])
  }

  // ---------------------------------------------------------------------------
  // The map view of a side: the queue at a price
  // ---------------------------------------------------------------------------

  /** The orders resting at `price`, as `BTreeMap::get` returns them. */
  function Find(levels: Levels, price: int): (r: Option<seq<Order>>)
    ensures r.None? <==> forall i | 0 <= i < |levels| :: levels[i].price != price
    ensures r.Some? ==> exists i | 0 <= i < |levels| :: levels[i].price == price && levels[i].orders == r.value
  {
    if |levels| == 0 then None
    else if levels[0].price == price then Some(levels[0].orders)
    else
      var r := Find(levels[1..], price);
      assert forall i | 1 <= i < |levels| :: levels[i] == levels[1..][i - 1];
      r
  }

  lemma OrderedDistinct(side: Side, levels: Levels)
    requires Ordered(side, levels)
    ensures DistinctPrices(levels)
  {
  }

  lemma OrderedTail(side: Side, levels: Levels)
    requires |levels| > 0 && Ordered(side, levels)
    ensures Ordered(side, levels[1..])
    ensures forall i | 0 <= i < |levels[1..]| :: KeyBefore(side, levels[0].price, levels[1..][i].price)
  {
  }

  /** With distinct prices, looking up a level's own price finds that level. */
  lemma FindAt(levels: Levels, i: int)
    requires DistinctPrices(levels) && 0 <= i < |levels|
    ensures Find(levels, levels[i].price) == Some(levels[i].orders)
  {
  }

  /** A price that comes before the first level in key order is not in the side. */
  lemma FindBeforeFirst(side: Side, levels: Levels, price: int)
    requires Ordered(side, levels) && |levels| > 0
    requires KeyBefore(side, price, levels[0].price)
    ensures Find(levels, price) == None
  {
    forall i | 0 <= i < |levels|
      ensures levels[i].price != price
    {
      if i > 0 {
        assert KeyBefore(side, levels[0].price, levels[i].price);
      }
    }
  }

  // ---------------------------------------------------------------------------
  // add_order
  // ---------------------------------------------------------------------------

  /**
   * `entry(price).or_insert_with(Vec::new).push(order)`: append to the level
   * at the order's price, creating the level in key position if it is absent.
   */
  function Push(levels: Levels, side: Side, o: Order): (r: Levels)
    ensures |r| > 0
  {
    if |levels| == 0 then [Level(o.price, [o])]
    else if levels[0].price == o.price then [levels[0].(orders := levels[0].orders + [o])] + levels[1..]
    else if KeyBefore(side, o.price, levels[0].price) then [Level(o.price, [o])] + levels
    else [levels[0]] + Push(levels[1..], side, o)
  }

  /** Pushing appends `o` to the back of the queue at its price and leaves every other price alone. */
  lemma {:induction false} PushFind(levels: Levels, side: Side, o: Order, p: int)
    requires Ordered(side, levels)
    ensures Find(Push(levels, side, o), p)
         == if p == o.price then Some(Find(levels, p).GetOr([]) + [o]) else Find(levels, p)
  {
    var r := Push(levels, side, o);
    if |levels| == 0 {
      assert [] + [o] == [o];
    } else if levels[0].price == o.price {
      OrderedDistinct(side, levels);
      assert r[1..] == levels[1..];
      if p != o.price {
        assert Find(r, p) == Find(r[1..], p);
      }
    } else if KeyBefore(side, o.price, levels[0].price) {
      FindBeforeFirst(side, levels, o.price);
      assert [] + [o] == [o];
      assert r[1..] == levels;
    } else {
      OrderedTail(side, levels);
      PushFind(levels[1..], side, o, p);
      assert r[1..] == Push(levels[1..], side, o);
    }
  }

  /** Every level after a push sits at the pushed price or at a price the side already had. */
  lemma {:induction false} PushPrices(levels: Levels, side: Side, o: Order, i: int)
    requires 0 <= i < |Push(levels, side, o)|
    ensures Push(levels, side, o)[i].price == o.price || Find(levels, Push(levels, side, o)[i].price).Some?
  {
    var r := Push(levels, side, o);
    if |levels| == 0 {
    } else if levels[0].price == o.price {
      assert r[i].price == levels[i].price;
    } else if KeyBefore(side, o.price, levels[0].price) {
      if i > 0 {
        assert r[i] == levels[i - 1];
      }
    } else if i > 0 {
      PushPrices(levels[1..], side, o, i - 1);
      assert r[i] == Push(levels[1..], side, o)[i - 1];
      assert forall j | 0 <= j < |levels[1..]| :: levels[1..][j] == levels[j + 1];
    }
  }

  /** A well-formed level in front of well-formed levels that all come after it in key order. */
  lemma ConsLevelsWF(head: Levels, after: Levels, symbol: string, side: Side)
    requires |head| <= 1 && LevelsWF(head, symbol, side) && LevelsWF(after, symbol, side)
    requires |head| == 1 ==> forall j | 0 <= j < |after| :: KeyBefore(side, head[0].price, after[j].price)
    ensures LevelsWF(head + after, symbol, side)
  {
    var r := head + after;
    assert forall i | |head| <= i < |r| :: r[i] == after[i - |head|];
  }

  /** Pushing a resting order of this side and symbol keeps the levels well formed and in key order. */
  lemma {:induction false} PushWF(levels: Levels, symbol: string, side: Side, o: Order)
    requires LevelsWF(levels, symbol, side)
    requires o.price > 0 && RestsAt(o, symbol, side, o.price)
    ensures LevelsWF(Push(levels, side, o), symbol, side)
  {
    var single := [Level(o.price, [o])];
    if |levels| == 0 {
    } else if levels[0].price == o.price {
      var q := levels[0].orders + [o];
      assert forall k | 0 <= k < |q| :: q[k] == o || q[k] == levels[0].orders[k];
      OrderedTail(side, levels);
      ConsLevelsWF([levels[0].(orders := q)], levels[1..], symbol, side);
    } else if KeyBefore(side, o.price, levels[0].price) {
      forall j | 0 <= j < |levels|
        ensures KeyBefore(side, o.price, levels[j].price)
      {
        if j > 0 {
          assert KeyBefore(side, levels[0].price, levels[j].price);
        }
      }
      ConsLevelsWF(single, levels, symbol, side);
    } else {
      var tail := levels[1..];
      OrderedTail(side, levels);
      PushWF(tail, symbol, side, o);
      var rest := Push(tail, side, o);
      forall j | 0 <= j < |rest|
        ensures KeyBefore(side, levels[0].price, rest[j].price)
      {
        PushPrices(tail, side, o, j);
      }
      ConsLevelsWF([levels[0]], rest, symbol, side);
    }
  }

  /** An order `add_order` accepts: a Limit order with positive price and quantity. */
  predicate Accepted(o: Order) {
    o.orderType == Limit && o.price > 0 && o.quantity > 0
  }

  /**
   * `add_order`: Market orders and orders with a non-positive price or
   * quantity are dropped; otherwise the index records the order's
   * location and the order joins the back of its level.
   */
  function AddOrder(book: Book, o: Order): (r: Book)
    ensures !Accepted(o) ==> r == book
    ensures Accepted(o) ==> r.index == book.index[o.id := IndexEntry(o.symbol, o.price, o.side)]
    ensures Accepted(o) ==> o.symbol in SideMap(r, o.side)
    ensures SideMap(r, Opposite(o.side)) == SideMap(book, Opposite(o.side))
    ensures forall s | s != o.symbol :: LevelsOf(r, o.side, s) == LevelsOf(book, o.side, s)
    ensures forall s | s in SideMap(book, o.side) :: s in SideMap(r, o.side)
  {
    if o.orderType != Limit then book
    else if o.price <= 0 || o.quantity <= 0 then book
    else
      var indexed := book.(index := book.index[o.id := IndexEntry(o.symbol, o.price, o.side)]);
      WithLevels(indexed, o.side, o.symbol, Push(LevelsOf(book, o.side, o.symbol), o.side, o))
  }

  /**
   * `update_from_market_data`: add, in order, the orders a market-data bar
   * converts to (the conversion itself is not part of this model).
   */
  function AddOrders(book: Book, orders: seq<Order>): Book
    decreases |orders|
  {
    if |orders| == 0 then book else AddOrders(AddOrder(book, orders[0]), orders[1..])
  }

  /** After a bulk add every accepted order is indexed, and no id already indexed is lost. */
  lemma {:induction false} AddOrdersIndexed(book: Book, orders: seq<Order>)
    ensures forall id | id in book.index :: id in AddOrders(book, orders).index
    ensures forall i | 0 <= i < |orders| && Accepted(orders[i]) :: orders[i].id in AddOrders(book, orders).index
    decreases |orders|
  {
    if |orders| > 0 {
      var next := AddOrder(book, orders[0]);
      AddOrdersIndexed(next, orders[1..]);
      forall i | 1 <= i < |orders| && Accepted(orders[i])
        ensures orders[i].id in AddOrders(book, orders).index
      {
        assert orders[1..][i - 1] == orders[i];
      }
    }
  }

  lemma BookLevelsWF(book: Book, side: Side, symbol: string)
    requires BookWF(book)
    ensures LevelsWF(LevelsOf(book, side, symbol), symbol, side)
  {
    if symbol in SideMap(book, side) {
      assert LevelsWF(SideMap(book, side)[symbol], symbol, side);
    }
  }

  /** An accepted order becomes the last order of its side/price level; no other price changes. */
  lemma AddOrderAppends(book: Book, o: Order, p: int)
    requires BookWF(book) && Accepted(o)
    ensures Find(LevelsOf(AddOrder(book, o), o.side, o.symbol), p)
         == if p == o.price
            then Some(Find(LevelsOf(book, o.side, o.symbol), p).GetOr([]) + [o])
            else Find(LevelsOf(book, o.side, o.symbol), p)
  {
    BookLevelsWF(book, o.side, o.symbol);
    PushFind(LevelsOf(book, o.side, o.symbol), o.side, o, p);
  }

  /** `add_order` keeps every level non-empty, positive and in key order. */
  lemma AddOrderWF(book: Book, o: Order)
    requires BookWF(book)
    ensures BookWF(AddOrder(book, o))
  {
    if Accepted(o) {
      BookLevelsWF(book, o.side, o.symbol);
      PushWF(LevelsOf(book, o.side, o.symbol), o.symbol, o.side, o);
      var r := AddOrder(book, o);
      forall s | s in SideMap(r, o.side)
        ensures LevelsWF(SideMap(r, o.side)[s], s, o.side)
      {
        if s != o.symbol {
          assert LevelsOf(r, o.side, s) == LevelsOf(book, o.side, s);
          BookLevelsWF(book, o.side, s);
        }
      }
      if o.side == Buy {
        assert forall s | s in r.bids :: LevelsWF(r.bids[s], s, Buy);
      } else {
        assert forall s | s in r.asks :: LevelsWF(r.asks[s], s, Sell);
      }
    }
  }
  /** A bulk add keeps the book well formed. */
  lemma {:induction false} AddOrdersWF(book: Book, orders: seq<Order>)
    requires BookWF(book)
    ensures BookWF(AddOrders(book, orders))
    decreases |orders|
  {
    if |orders| > 0 {
      AddOrderWF(book, orders[0]);
      AddOrdersWF(AddOrder(book, orders[0]), orders[1..]);
    }
  }


  // ---------------------------------------------------------------------------
  // cancel_order
  // ---------------------------------------------------------------------------

  /** `Vec::retain(|o| o.id != id)`: the queue without the orders carrying `id`. */
  function WithoutId(orders: seq<Order>, id: nat): (r: seq<Order>)
    ensures |r| <= |orders|
    ensures forall k | 0 <= k < |r| :: r[k].id != id && r[k] in orders
    ensures forall k | 0 <= k < |orders| && orders[k].id != id :: orders[k] in r
    ensures |r| == |orders| <==> forall k | 0 <= k < |orders| :: orders[k].id != id
  {
    if |orders| == 0 then []
    else
      var rest := WithoutId(orders[1..], id);
      assert forall k | 1 <= k < |orders| :: orders[k] == orders[1..][k - 1];
      if orders[0].id == id then rest else [orders[0]] + rest
  }

  /** Retaining distributes over concatenation: the survivors keep their relative order. */
  lemma {:induction false} WithoutIdAppend(a: seq<Order>, b: seq<Order>, id: nat)
    ensures WithoutId(a + b, id) == WithoutId(a, id) + WithoutId(b, id)
  {
    if |a| == 0 {
      assert a + b == b;
    } else {
      assert (a + b)[1..] == a[1..] + b;
      WithoutIdAppend(a[1..], b, id);
    }
  }

  /**
   * The level-local part of `cancel_order`: retain the other orders of the
   * level at `price`, drop the level if that empties it, and report whether
   * the level shrank. A vacant price changes nothing and reports false.
   */
  function RetainAt(levels: Levels, price: int, id: nat): (r: (Levels, bool))
    ensures Find(levels, price).None? ==> r == (levels, false)
    ensures Find(levels, price).Some? ==>
      (r.1 <==> |WithoutId(Find(levels, price).value, id)| != |Find(levels, price).value|)
  {
    if |levels| == 0 then
      (levels, false)
    else if levels[0].price == price then
      var kept := WithoutId(levels[0].orders, id);
      (if |kept| == 0 then levels[1..] else [Level(price, kept)] + levels[1..], |kept| != |levels[0].orders|)
    else
      var rest := RetainAt(levels[1..], price, id);
      assert rest.0 == levels[1..] ==> [levels[0]] + rest.0 == levels;
      ([levels[0]] + rest.0, rest.1)
  }

  /** After retaining, the queue at `price` is the survivors (or gone); every other price is untouched. */
  lemma {:induction false} RetainAtFind(levels: Levels, price: int, id: nat, p: int)
    requires DistinctPrices(levels)
    ensures Find(RetainAt(levels, price, id).0, p)
         == if p != price then Find(levels, p)
            else match Find(levels, price)
              case None => None
              case Some(q) => if |WithoutId(q, id)| == 0 then None else Some(WithoutId(q, id))
  {
    var r := RetainAt(levels, price, id).0;
    if |levels| == 0 {
    } else if levels[0].price == price {
      assert Find(levels[1..], price).None?;
      var kept := WithoutId(levels[0].orders, id);
      if |kept| != 0 {
        assert r[1..] == levels[1..];
      }
    } else {
      RetainAtFind(levels[1..], price, id, p);
      assert r[1..] == RetainAt(levels[1..], price, id).0;
    }
  }

  /** Retaining never introduces a price. */
  lemma {:induction false} RetainAtPrices(levels: Levels, price: int, id: nat, i: int)
    requires 0 <= i < |RetainAt(levels, price, id).0|
    ensures Find(levels, RetainAt(levels, price, id).0[i].price).Some?
  {
    var r := RetainAt(levels, price, id).0;
    if |levels| == 0 {
    } else if levels[0].price == price {
      if |WithoutId(levels[0].orders, id)| == 0 {
        assert r[i] == levels[i + 1];
      } else if i > 0 {
        assert r[i] == levels[i];
      }
    } else if i > 0 {
      RetainAtPrices(levels[1..], price, id, i - 1);
      assert r[i] == RetainAt(levels[1..], price, id).0[i - 1];
    }
  }

  /** Retaining keeps the levels well formed: a level it would empty is removed. */
  lemma {:induction false} RetainAtWF(levels: Levels, symbol: string, side: Side, price: int, id: nat)
    requires LevelsWF(levels, symbol, side)
    ensures LevelsWF(RetainAt(levels, price, id).0, symbol, side)
  {
    if |levels| > 0 {
      var tail := levels[1..];
      OrderedTail(side, levels);
      assert LevelsWF(tail, symbol, side) by {
        assert forall j | 0 <= j < |tail| :: tail[j] == levels[j + 1];
      }
      if levels[0].price == price {
        var kept := WithoutId(levels[0].orders, id);
        if |kept| > 0 {
          forall k | 0 <= k < |kept|
            ensures RestsAt(kept[k], symbol, side, price)
          {
            var m :| 0 <= m < |levels[0].orders| && levels[0].orders[m] == kept[k];
          }
          ConsLevelsWF([Level(price, kept)], tail, symbol, side);
        }
      } else {
        RetainAtWF(tail, symbol, side, price, id);
        var rest := RetainAt(tail, price, id).0;
        forall j | 0 <= j < |rest|
          ensures KeyBefore(side, levels[0].price, rest[j].price)
        {
          RetainAtPrices(tail, price, id, j);
        }
        ConsLevelsWF([levels[0]], rest, symbol, side);
      }
    }
  }

  /** The queue `cancel_order` looks at for an indexed id, if that level exists. */
  function IndexedQueue(book: Book, id: nat): Option<seq<Order>>
    requires id in book.index
  {
    var e := book.index[id];
    Find(LevelsOf(book, e.side, e.symbol), e.price)
  }

  /** Some order of the queue carries `id`. */
  predicate HoldsId(orders: seq<Order>, id: nat) {
    exists k | 0 <= k < |orders| :: orders[k].id == id
  }

  /**
   * `cancel_order`: remove the id from the index, then retain the other
   * orders of the indexed level, dropping the level if it empties.
   * Returns the new book and whether an order was removed: true exactly
   * when the indexed level exists and holds an order with that id.
   */
  function CancelOrder(book: Book, id: nat): (r: (Book, bool))
    ensures id !in book.index ==> r == (book, false)
    ensures id in book.index ==> r.0.index == book.index - {id}
    ensures id in book.index ==>
      (r.1 <==> IndexedQueue(book, id).Some? && HoldsId(IndexedQueue(book, id).value, id))
    ensures id in book.index ==>
      var e := book.index[id];
      && SideMap(r.0, Opposite(e.side)) == SideMap(book, Opposite(e.side))
      && (forall s | s != e.symbol :: LevelsOf(r.0, e.side, s) == LevelsOf(book, e.side, s))
      && LevelsOf(r.0, e.side, e.symbol) == RetainAt(LevelsOf(book, e.side, e.symbol), e.price, id).0
    ensures forall s :: s in SideMap(book, Buy) <==> s in SideMap(r.0, Buy)
    ensures forall s :: s in SideMap(book, Sell) <==> s in SideMap(r.0, Sell)
  {
    if id !in book.index then
      (book, false)
    else
      var e := book.index[id];
      var unindexed := book.(index := book.index - {id});
      var m := SideMap(book, e.side);
      if e.symbol !in m then
        (unindexed, false)
      else
        var (levels, cancelled) := RetainAt(m[e.symbol], e.price, id);
        (WithLevels(unindexed, e.side, e.symbol, levels), cancelled)
  }

  /** After a cancel, the indexed level holds exactly the survivors (or is gone); other prices are untouched. */
  lemma CancelOrderLevel(book: Book, id: nat, p: int)
    requires BookWF(book) && id in book.index
    ensures
      var e := book.index[id];
      var after := Find(LevelsOf(CancelOrder(book, id).0, e.side, e.symbol), p);
      if p != e.price then after == Find(LevelsOf(book, e.side, e.symbol), p)
      else match IndexedQueue(book, id)
        case None => after == None
        case Some(q) => after == if |WithoutId(q, id)| == 0 then None else Some(WithoutId(q, id))
  {
    var e := book.index[id];
    BookLevelsWF(book, e.side, e.symbol);
    OrderedDistinct(e.side, LevelsOf(book, e.side, e.symbol));
    RetainAtFind(LevelsOf(book, e.side, e.symbol), e.price, id, p);
  }

  /** `cancel_order` keeps every level non-empty, positive and in key order. */
  lemma CancelOrderWF(book: Book, id: nat)
    requires BookWF(book)
    ensures BookWF(CancelOrder(book, id).0)
  {
    if id in book.index {
      var e := book.index[id];
      var r := CancelOrder(book, id).0;
      BookLevelsWF(book, e.side, e.symbol);
      RetainAtWF(LevelsOf(book, e.side, e.symbol), e.symbol, e.side, e.price, id);
      forall s | s in SideMap(r, e.side)
        ensures LevelsWF(SideMap(r, e.side)[s], s, e.side)
      {
        BookLevelsWF(book, e.side, s);
      }
      if e.side == Buy {
        assert forall s | s in r.bids :: LevelsWF(r.bids[s], s, Buy);
      } else {
        assert forall s | s in r.asks :: LevelsWF(r.asks[s], s, Sell);
      }
    }
  }

  // ---------------------------------------------------------------------------
  // Queries
  // ---------------------------------------------------------------------------

  /** `get_best_ask`: the first key of the asks map, if any. */
  function BestAsk(book: Book, symbol: string): Option<int> {
    var asks := LevelsOf(book, Sell, symbol);
    if |asks| == 0 then None else Some(asks[0].price)
  }

  /**
   * `get_best_bid`: the LAST key of the bids map. Bids are keyed by
   * `Reverse(price)`, so the last key is the lowest bid price.
   */
  function BestBid(book: Book, symbol: string): Option<int> {
    var bids := LevelsOf(book, Buy, symbol);
    if |bids| == 0 then None else Some(bids[|bids| - 1].price)
  }

  /** The highest bid price: the first key of the bids map. */
  function HighestBid(book: Book, symbol: string): Option<int> {
    var bids := LevelsOf(book, Buy, symbol);
    if |bids| == 0 then None else Some(bids[0].price)
  }

  /** The average of two quotes when both exist. */
  function Mid(bid: Option<int>, ask: Option<int>): Option<real> {
    match (bid, ask)
    case (Some(b), Some(a)) => Some((b + a) as real / 2.0)
    case _ => None
  }

  /** `get_mid_price` as written: the average of `get_best_bid` (the lowest bid) and `get_best_ask`. */
  function MidPriceAsWritten(book: Book, symbol: string): Option<real> {
    Mid(BestBid(book, symbol), BestAsk(book, symbol))
  }

  /** `get_mid_price` over the highest bid, as intended. */
  function MidPrice(book: Book, symbol: string): Option<real> {
    Mid(HighestBid(book, symbol), BestAsk(book, symbol))
  }

  /** `get_best_ask` is the lowest ask price, and is absent exactly when the symbol has no asks. */
  lemma BestAskIsLowestAsk(book: Book, symbol: string)
    requires BookWF(book)
    ensures BestAsk(book, symbol).Some? <==> |LevelsOf(book, Sell, symbol)| > 0
    ensures BestAsk(book, symbol).Some? ==>
      var asks := LevelsOf(book, Sell, symbol);
      && Find(asks, BestAsk(book, symbol).value).Some?
      && forall j | 0 <= j < |asks| :: BestAsk(book, symbol).value <= asks[j].price
  {
    BookLevelsWF(book, Sell, symbol);
  }

  /**
   * `get_best_bid` is the LOWEST bid price: `last_key_value` over
   * `Reverse(price)` keys is the smallest price. It is absent exactly when
   * the symbol has no bids.
   */
  lemma BestBidIsLowestBid(book: Book, symbol: string)
    requires BookWF(book)
    ensures BestBid(book, symbol).Some? <==> |LevelsOf(book, Buy, symbol)| > 0
    ensures BestBid(book, symbol).Some? ==>
      var bids := LevelsOf(book, Buy, symbol);
      && Find(bids, BestBid(book, symbol).value).Some?
      && forall j | 0 <= j < |bids| :: BestBid(book, symbol).value <= bids[j].price
  {
    BookLevelsWF(book, Buy, symbol);
    var bids := LevelsOf(book, Buy, symbol);
    if |bids| > 0 {
      assert forall j | 0 <= j < |bids| - 1 :: KeyBefore(Buy, bids[j].price, bids[|bids| - 1].price);
    }
  }

  /** The highest bid price is the first key of the bids map. */
  lemma HighestBidIsHighest(book: Book, symbol: string)
    requires BookWF(book)
    ensures HighestBid(book, symbol).Some? <==> |LevelsOf(book, Buy, symbol)| > 0
    ensures HighestBid(book, symbol).Some? ==>
      var bids := LevelsOf(book, Buy, symbol);
      && Find(bids, HighestBid(book, symbol).value).Some?
      && forall j | 0 <= j < |bids| :: bids[j].price <= HighestBid(book, symbol).value
  {
    BookLevelsWF(book, Buy, symbol);
  }

  /** With two or more bid levels, `get_best_bid` reports a price strictly below the highest bid. */
  lemma BestBidBelowHighestBid(book: Book, symbol: string)
    requires BookWF(book) && |LevelsOf(book, Buy, symbol)| >= 2
    ensures BestBid(book, symbol).value < HighestBid(book, symbol).value
  {
    BookLevelsWF(book, Buy, symbol);
    var bids := LevelsOf(book, Buy, symbol);
    assert KeyBefore(Buy, bids[0].price, bids[|bids| - 1].price);
  }

  /** A concrete book: bids at 11 and 10 report a best bid of 10. */
  lemma BestBidCounterexample()
    ensures
      var o11 := Order(1, "X", 11, 5, Limit, Buy, 0);
      var o10 := Order(2, "X", 10, 5, Limit, Buy, 0);
      var book := AddOrder(AddOrder(EmptyBook, o11), o10);
      && BookWF(book)
      && BestBid(book, "X") == Some(10)
      && HighestBid(book, "X") == Some(11)
  {
    var o11 := Order(1, "X", 11, 5, Limit, Buy, 0);
    var o10 := Order(2, "X", 10, 5, Limit, Buy, 0);
    var b1 := AddOrder(EmptyBook, o11);
    AddOrderWF(EmptyBook, o11);
    AddOrderWF(b1, o10);
    assert LevelsOf(b1, Buy, "X") == [Level(11, [o11])];
    assert LevelsOf(AddOrder(b1, o10), Buy, "X") == [Level(11, [o11]), Level(10, [o10])];
  }

  /**
   * The mid price exists exactly when both sides do; on an uncrossed book
   * it lies strictly inside the spread between the highest bid and the
   * best ask.
   */
  lemma MidPriceWithinSpread(book: Book, symbol: string)
    requires BookWF(book)
    ensures MidPrice(book, symbol).Some? <==> |LevelsOf(book, Buy, symbol)| > 0 && |LevelsOf(book, Sell, symbol)| > 0
    ensures Uncrossed(book) && MidPrice(book, symbol).Some? ==>
      HighestBid(book, symbol).value as real < MidPrice(book, symbol).value < BestAsk(book, symbol).value as real
  {
    if Uncrossed(book) && MidPrice(book, symbol).Some? {
      var bids := LevelsOf(book, Buy, symbol);
      var asks := LevelsOf(book, Sell, symbol);
      assert symbol in book.bids && symbol in book.asks;
      assert bids[0].price < asks[0].price;
    }
  }

  /**
   * `get_mid_price` as written exists exactly when both sides do; on an
   * uncrossed book it lies strictly between the reported best bid (the
   * lowest bid) and the best ask.
   */
  lemma MidPriceAsWrittenWithinSpread(book: Book, symbol: string)
    requires BookWF(book)
    ensures MidPriceAsWritten(book, symbol).Some? <==> |LevelsOf(book, Buy, symbol)| > 0 && |LevelsOf(book, Sell, symbol)| > 0
    ensures Uncrossed(book) && MidPriceAsWritten(book, symbol).Some? ==>
      BestBid(book, symbol).value as real < MidPriceAsWritten(book, symbol).value < BestAsk(book, symbol).value as real
  {
    if Uncrossed(book) && MidPriceAsWritten(book, symbol).Some? {
      var bids := LevelsOf(book, Buy, symbol);
      var asks := LevelsOf(book, Sell, symbol);
      assert symbol in book.bids && symbol in book.asks;
      assert bids[|bids| - 1].price < asks[0].price;
    }
  }

  /**
   * As written, the mid price uses the lowest bid: with two or more bid
   * levels it sits strictly below the mid of the true spread.
   */
  lemma MidPriceAsWrittenBelow(book: Book, symbol: string)
    requires BookWF(book) && |LevelsOf(book, Buy, symbol)| >= 2 && |LevelsOf(book, Sell, symbol)| > 0
    ensures MidPriceAsWritten(book, symbol).value < MidPrice(book, symbol).value
  {
    BestBidBelowHighestBid(book, symbol);
  }

  /** Without an order carrying `id`, retaining changes nothing. */
  lemma {:induction false} WithoutIdAbsent(orders: seq<Order>, id: nat)
    requires !HoldsId(orders, id)
    ensures WithoutId(orders, id) == orders
  {
    if |orders| > 0 {
      assert !HoldsId(orders[1..], id) by {
        assert forall k | 0 <= k < |orders[1..]| :: orders[1..][k] == orders[k + 1];
      }
      WithoutIdAbsent(orders[1..], id);
      assert [orders[0]] + orders[1..] == orders;
    }
  }

  /** Retaining the id just pushed, at its price, undoes the push. */
  lemma {:induction false} RetainAtPush(levels: Levels, symbol: string, side: Side, o: Order)
    requires LevelsWF(levels, symbol, side)
    requires !HoldsId(Find(levels, o.price).GetOr([]), o.id)
    ensures RetainAt(Push(levels, side, o), o.price, o.id) == (levels, true)
  {
    if |levels| == 0 {
      assert Push(levels, side, o) == [Level(o.price, [o])];
      assert WithoutId([o], o.id) == [];
    } else if levels[0].price == o.price {
      var q := levels[0].orders;
      WithoutIdAppend(q, [o], o.id);
      WithoutIdAbsent(q, o.id);
      assert WithoutId([o], o.id) == [];
      assert WithoutId(q + [o], o.id) == q;
      assert [Level(o.price, q)] + levels[1..] == levels;
    } else if KeyBefore(side, o.price, levels[0].price) {
      assert WithoutId([o], o.id) == [];
      assert ([Level(o.price, [o])] + levels)[1..] == levels;
    } else {
      var tail := levels[1..];
      assert forall j | 0 <= j < |tail| :: tail[j] == levels[j + 1];
      assert Find(tail, o.price) == Find(levels, o.price);
      RetainAtPush(tail, symbol, side, o);
      assert [levels[0]] + tail == levels;
    }
  }

  /** Writing one side's levels for a symbol twice keeps only the second write. */
  lemma WithLevelsTwice(book: Book, side: Side, symbol: string, first: Levels, second: Levels)
    ensures WithLevels(WithLevels(book, side, symbol, first), side, symbol, second)
         == WithLevels(book, side, symbol, second)
  {
    match side
    case Buy => assert book.bids[symbol := first][symbol := second] == book.bids[symbol := second];
    case Sell => assert book.asks[symbol := first][symbol := second] == book.asks[symbol := second];
  }

  /**
   * Cancelling a freshly added order restores the book: the cancel reports
   * success, the index is back, and the order's side/symbol levels are as
   * before (the symbol's map entry, once created, stays).
   */
  lemma CancelAfterAdd(book: Book, o: Order)
    requires BookWF(book) && Accepted(o)
    requires o.id !in book.index
    requires !HoldsId(Find(LevelsOf(book, o.side, o.symbol), o.price).GetOr([]), o.id)
    ensures CancelOrder(AddOrder(book, o), o.id).1
    ensures CancelOrder(AddOrder(book, o), o.id).0.index == book.index
    ensures forall s :: LevelsOf(CancelOrder(AddOrder(book, o), o.id).0, o.side, s) == LevelsOf(book, o.side, s)
    ensures SideMap(CancelOrder(AddOrder(book, o), o.id).0, Opposite(o.side)) == SideMap(book, Opposite(o.side))
    ensures o.symbol in SideMap(book, o.side) ==> CancelOrder(AddOrder(book, o), o.id).0 == book
  {
    var levels := LevelsOf(book, o.side, o.symbol);
    var restored := WithLevels(book, o.side, o.symbol, levels);
    CancelAfterAddWrites(book, o);
    if o.symbol in SideMap(book, o.side) {
      assert SideMap(book, o.side)[o.symbol] == levels;
      assert SideMap(restored, o.side) == SideMap(book, o.side);
      assert restored == book by {
        assert o.side == Buy || o.side == Sell;
      }
    }
  }

  /** The cancel after an add succeeds and writes the symbol's original levels back over the pushed ones. */
  lemma CancelAfterAddWrites(book: Book, o: Order)
    requires BookWF(book) && Accepted(o)
    requires o.id !in book.index
    requires !HoldsId(Find(LevelsOf(book, o.side, o.symbol), o.price).GetOr([]), o.id)
    ensures CancelOrder(AddOrder(book, o), o.id)
         == (WithLevels(book, o.side, o.symbol, LevelsOf(book, o.side, o.symbol)), true)
  {
    var levels := LevelsOf(book, o.side, o.symbol);
    var entry := IndexEntry(o.symbol, o.price, o.side);
    BookLevelsWF(book, o.side, o.symbol);
    RetainAtPush(levels, o.symbol, o.side, o);
    var pushed := WithLevels(book, o.side, o.symbol, Push(levels, o.side, o));
    var added := pushed.(index := book.index[o.id := entry]);
    assert AddOrder(book, o) == added;
    assert added.index - {o.id} == book.index;
    assert added.index[o.id] == entry;
    assert SideMap(added, o.side)[o.symbol] == Push(levels, o.side, o);
    assert added.(index := book.index) == pushed;
    WithLevelsTwice(book, o.side, o.symbol, Push(levels, o.side, o), levels);
  }

  /** Cancelling never crosses the book: it only removes liquidity. */
  lemma CancelOrderUncrossed(book: Book, id: nat)
    requires BookWF(book) && Uncrossed(book)
    ensures Uncrossed(CancelOrder(book, id).0)
  {
    if id in book.index {
      var e := book.index[id];
      var r := CancelOrder(book, id).0;
      forall s | s in r.bids && s in r.asks
        ensures UncrossedLevels(r.bids[s], r.asks[s])
      {
        assert s in book.bids && s in book.asks;
        assert UncrossedLevels(book.bids[s], book.asks[s]);
        if s == e.symbol {
          var before := LevelsOf(book, e.side, s);
          var now := LevelsOf(r, e.side, s);
          BookLevelsWF(book, e.side, s);
          OrderedDistinct(e.side, before);
          forall i | 0 <= i < |now|
            ensures exists j | 0 <= j < |before| :: before[j].price == now[i].price
          {
            RetainAtPrices(before, e.price, id, i);
          }
        }
      }
    }
  }

  /** `o` does not reach any level of the opposite side of its symbol. */
  predicate ClearsOpposite(book: Book, o: Order) {
    var opposite := LevelsOf(book, Opposite(o.side), o.symbol);
    forall j | 0 <= j < |opposite| ::
      if o.side == Buy then o.price < opposite[j].price else opposite[j].price < o.price
  }

  /** Resting an order that does not reach the opposite side keeps the book uncrossed. */
  lemma AddOrderUncrossed(book: Book, o: Order)
    requires BookWF(book) && Uncrossed(book) && ClearsOpposite(book, o)
    ensures Uncrossed(AddOrder(book, o))
  {
    if Accepted(o) {
      var r := AddOrder(book, o);
      forall s | s in r.bids && s in r.asks
        ensures UncrossedLevels(r.bids[s], r.asks[s])
      {
        if s != o.symbol {
          assert LevelsOf(r, o.side, s) == LevelsOf(book, o.side, s);
          assert s in book.bids && s in book.asks;
          assert UncrossedLevels(book.bids[s], book.asks[s]);
        } else {
          var before := LevelsOf(book, o.side, s);
          var now := LevelsOf(r, o.side, s);
          var opposite := LevelsOf(book, Opposite(o.side), s);
          assert LevelsOf(r, Opposite(o.side), s) == opposite;
          assert now == Push(before, o.side, o);
          assert before == [] || UncrossedLevels(LevelsOf(book, Buy, s), LevelsOf(book, Sell, s)) by {
            if before != [] {
              assert s in book.bids && s in book.asks;
            }
          }
          forall i, j | 0 <= i < |now| && 0 <= j < |opposite|
            ensures if o.side == Buy then now[i].price < opposite[j].price else opposite[j].price < now[i].price
          {
            PushPrices(before, o.side, o, i);
          }
        }
      }
    }
  }
}
