/**
 * The order-book bookkeeping of backend/logger.py: the conversion between
 * symbols (`BTC/USDT`) and Coinbase product ids (`BTC-USDT`), the entry
 * written for a fetched book (`process_orderbook`) or a Coinbase snapshot
 * (`handle_snapshot`), and the level-2 updates that remove, resize or add a
 * price level and re-sort the side they touch (`handle_update`).
 *
 * Database sessions, timestamps and the JSON encoding of the sides are not
 * modelled: an entry holds the sides as level sequences.
 */
module Logger {
  import opened Wrappers
  import opened Numbers
  import opened Levels
  import opened Search

  /** `s.replace(from, to)` for single characters: every occurrence is replaced. */
  function Replace(s: string, from: char, to: char): (r: string)
    ensures |r| == |s|
    ensures forall i :: 0 <= i < |s| ==> r[i] == (if s[i] == from then to else s[i])
  {
    if |s| == 0 then []
    else [if s[0] == from then to else s[0]] + Replace(s[1..], from, to)
  }

  /** The Coinbase product id of a symbol, `symbol.replace('/', '-')`. */
  function ProductId(symbol: string): (id: string)
    ensures '/' !in id
  {
    Replace(symbol, '/', '-')
  }

  /** The symbol of a Coinbase product id, `product_id.replace('-', '/')`. */
  function SymbolOf(productId: string): (symbol: string)
    ensures '-' !in symbol
  {
    Replace(productId, '-', '/')
  }

  /** The product ids the Coinbase feed subscribes to, one per configured symbol. */
  function ProductIds(symbols: seq<string>): (ids: seq<string>)
    ensures |ids| == |symbols|
    ensures forall i :: 0 <= i < |symbols| ==> ids[i] == ProductId(symbols[i])
  {
    seq(|symbols|, i requires 0 <= i < |symbols| => ProductId(symbols[i]))
  }

  /** A symbol without a dash survives the trip to a product id and back. */
  lemma SymbolRoundTrip(symbol: string)
    requires '-' !in symbol
    ensures SymbolOf(ProductId(symbol)) == symbol
  {
    var back := SymbolOf(ProductId(symbol));
    forall i | 0 <= i < |symbol| ensures back[i] == symbol[i] {
      assert symbol[i] != '-';
    }
  }

  /** A product id without a slash survives the trip to a symbol and back. */
  lemma ProductIdRoundTrip(productId: string)
    requires '/' !in productId
    ensures ProductId(SymbolOf(productId)) == productId
  {
    var back := ProductId(SymbolOf(productId));
    forall i | 0 <= i < |productId| ensures back[i] == productId[i] {
      assert productId[i] != '/';
    }
  }

  /** A symbol that contains a dash does not survive the trip: each dash comes back as a slash. */
  lemma DashedSymbolChanges(symbol: string)
    requires '-' in symbol
    ensures SymbolOf(ProductId(symbol)) != symbol
    ensures forall i :: 0 <= i < |symbol| && symbol[i] == '-' ==> SymbolOf(ProductId(symbol))[i] == '/'
  {
  }

  /** The best price of a side as recorded: the price of its first level, or `None` for an empty side. */
  function TopPrice(levels: seq<Level>): (p: Option<real>)
    ensures p.Some? <==> |levels| > 0
    ensures p.Some? ==> p.value in Prices(levels)
    ensures |levels| > 0 ==> p == Some(levels[0].price)
  {
    if |levels| > 0 then Some(levels[0].price) else None
  }

  /** The size of the first level, or `None` for an empty side. */
  function TopSize(levels: seq<Level>): (q: Option<real>)
    ensures q.Some? <==> |levels| > 0
    ensures |levels| > 0 ==> q == Some(levels[0].size)
  {
    if |levels| > 0 then Some(levels[0].size) else None
  }

  /**
   * On a side sorted best first, the recorded top price is the best price:
   * the highest bid, or the lowest ask.
   */
  lemma TopIsBest(o: Order, levels: seq<Level>)
    requires SortedBy(o, levels) && |levels| > 0
    ensures o == Descending ==> TopPrice(levels) == Some(Max(Prices(levels)).v)
    ensures o == Ascending ==> TopPrice(levels) == Some(Min(Prices(levels)).v)
  {
    var ps := Prices(levels);
    assert ps[0] in ps;
    assert forall i :: 0 <= i < |levels| ==> Key(o, levels[0]) <= Key(o, levels[i]);
    if o == Descending {
      var m := Max(ps).v;
      var j :| 0 <= j < |ps| && ps[j] == m;
      assert Key(o, levels[0]) <= Key(o, levels[j]);
    } else {
      var m := Min(ps).v;
      var j :| 0 <= j < |ps| && ps[j] == m;
      assert Key(o, levels[0]) <= Key(o, levels[j]);
    }
  }

  /**
   * A row of the order-book table. Quantities are recorded only for books
   * fetched from an exchange client; the location only where it is known.
   */
  datatype Entry = Entry(
    exchange: string,
    symbol: string,
    bidPrice: Option<real>,
    bidQuantity: Option<real>,
    askPrice: Option<real>,
    askQuantity: Option<real>,
    location: Option<string>,
    bids: seq<Level>,
    asks: seq<Level>)

  /**
   * `process_orderbook`: a book with a bid and an ask is logged with its
   * first bid and first ask as the top of book and both sides in full; a
   * book with an empty side is skipped.
   */
  function ProcessOrderbook(symbol: string, exchange: string, location: Option<string>,
                            bids: seq<Level>, asks: seq<Level>): (r: Option<Entry>)
    ensures r.Some? <==> |bids| > 0 && |asks| > 0
    ensures r.Some? ==>
      && r.value.bidPrice == TopPrice(bids) && r.value.bidQuantity == TopSize(bids)
      && r.value.askPrice == TopPrice(asks) && r.value.askQuantity == TopSize(asks)
      && r.value.bids == bids && r.value.asks == asks
      && r.value.symbol == symbol && r.value.exchange == exchange && r.value.location == location
  {
    if |bids| > 0 && |asks| > 0 then
      Some(Entry(exchange, symbol, Some(bids[0].price), Some(bids[0].size),
                 Some(asks[0].price), Some(asks[0].size), location, bids, asks))
    else None
  }

  /** The exchange name and location the Coinbase feed records. */
  const Coinbase: string := "coinbase"
  const CoinbaseLocation: string := "San Francisco, USA"

  /** The row written for a book: top prices from the first levels, `None` for an empty side. */
  function CoinbaseEntry(productId: string, bids: seq<Level>, asks: seq<Level>): (e: Entry)
    ensures e.symbol == SymbolOf(productId) && e.exchange == Coinbase
    ensures e.bidPrice == TopPrice(bids) && e.askPrice == TopPrice(asks)
    ensures e.bidQuantity == None && e.askQuantity == None
    ensures e.location == Some(CoinbaseLocation)
    ensures e.bids == bids && e.asks == asks
  {
    Entry(Coinbase, SymbolOf(productId), TopPrice(bids), None, TopPrice(asks), None,
          Some(CoinbaseLocation), bids, asks)
  }

  /**
   * `handle_snapshot`: unlike a fetched book, a snapshot is logged even
   * with an empty side. The top prices are the first levels' prices as
   * delivered; no quantities are recorded.
   */
  function HandleSnapshot(productId: string, bids: seq<Level>, asks: seq<Level>): (e: Entry)
    ensures e.symbol == SymbolOf(productId)
    ensures e.exchange == Coinbase && e.location == Some(CoinbaseLocation)
    ensures e.bidPrice.Some? <==> |bids| > 0
    ensures e.askPrice.Some? <==> |asks| > 0
    ensures |bids| > 0 ==> e.bidPrice == Some(bids[0].price)
    ensures |asks| > 0 ==> e.askPrice == Some(asks[0].price)
    ensures e.bidQuantity == None && e.askQuantity == None
    ensures e.bids == bids && e.asks == asks
  {
    CoinbaseEntry(productId, bids, asks)
  }

  /**
   * A snapshot delivered best first is logged with its best prices: the
   * highest bid and the lowest ask.
   */
  lemma SnapshotRecordsBest(productId: string, bids: seq<Level>, asks: seq<Level>)
    requires SortedBy(Descending, bids) && SortedBy(Ascending, asks)
    ensures var e := HandleSnapshot(productId, bids, asks);
            && (|bids| > 0 ==> e.bidPrice == Some(Max(Prices(bids)).v))
            && (|asks| > 0 ==> e.askPrice == Some(Min(Prices(asks)).v))
  {
    if |bids| > 0 {
      TopIsBest(Descending, bids);
    }
    if |asks| > 0 {
      TopIsBest(Ascending, asks);
    }
  }

  /** One `[side, price, size]` entry of a level-2 update. */
  datatype Change = Change(side: string, price: real, size: real)

  /** A bid side and an ask side. */
  datatype Book = Book(bids: seq<Level>, asks: seq<Level>)

  /** Bids are best (highest) first and asks best (lowest) first. */
  ghost predicate Ordered(b: Book)
  {
    SortedBy(Descending, b.bids) && SortedBy(Ascending, b.asks)
  }

  /** The side a change touches: bids for `'buy'`, asks for anything else. */
  function SideOf(c: Change): BookSide
  {
    if c.side == "buy" then Bids else Asks
  }

  function Select(b: Book, side: BookSide): seq<Level>
  {
    if side == Bids then b.bids else b.asks
  }

  /** Bids are sorted by descending price (`key=-price`), asks by ascending price. */
  function OrderOf(side: BookSide): Order
  {
    if side == Bids then Descending else Ascending
  }

  /** `[level for level in side if level[0] != price]`. */
  function RemovePrice(levels: seq<Level>, price: real): (r: seq<Level>)
    ensures forall l :: l in r ==> l.price != price
    ensures forall l: Level :: l.price != price ==> multiset(r)[l] == multiset(levels)[l]
  {
    if |levels| == 0 then []
    else
      assert levels == [levels[0]] + levels[1..];
      (if levels[0].price == price then [] else [levels[0]]) + RemovePrice(levels[1..], price)
  }

  /** A side without the price is left as it is by a removal. */
  lemma {:induction false} RemoveAbsent(levels: seq<Level>, price: real)
    requires forall l :: l in levels ==> l.price != price
    ensures RemovePrice(levels, price) == levels
  {
    if |levels| > 0 {
      assert levels[0] in levels;
      assert forall l :: l in levels[1..] ==> l in levels;
      RemoveAbsent(levels[1..], price);
      assert RemovePrice(levels, price) == [levels[0]] + RemovePrice(levels[1..], price);
      assert levels == [levels[0]] + levels[1..];
    }
  }

  /** The index of the first level at `price`, if any. */
  function FirstIndexOf(levels: seq<Level>, price: real): (r: Option<nat>)
    ensures r.None? <==> forall j :: 0 <= j < |levels| ==> levels[j].price != price
    ensures r.Some? ==> r.value < |levels| && levels[r.value].price == price
                        && forall j :: 0 <= j < r.value ==> levels[j].price != price
  {
    FirstIndex(levels, (l: Level) => l.price == price)
  }

  /**
   * The non-zero branch of an update: the first level at `price` takes the
   * new size (`level[1] = size; break`); with no level at `price`,
   * `[price, size]` is appended.
   */
  function SetSize(levels: seq<Level>, price: real, size: real): (r: seq<Level>)
    ensures (forall j :: 0 <= j < |levels| ==> levels[j].price != price)
            ==> r == levels + [Level(price, size)]
    ensures forall i :: (0 <= i < |levels| && levels[i].price == price
                         && forall j :: 0 <= j < i ==> levels[j].price != price)
                        ==> r == levels[i := Level(price, size)]
  {
    match FirstIndexOf(levels, price)
    case None => levels + [Level(price, size)]
    case Some(i) => levels[i := Level(price, size)]
  }

  /** A side after one change, before it is re-sorted. */
  function Updated(levels: seq<Level>, c: Change): seq<Level>
  {
    if c.size == 0.0 then RemovePrice(levels, c.price) else SetSize(levels, c.price, c.size)
  }

  /**
   * One change of `handle_update`: the touched side is updated and then
   * sorted stably, bids by descending and asks by ascending price; the
   * other side is untouched. Sortedness, being a permutation, and keeping
   * the order of equal prices determine the new side.
   */
  function ApplyChange(b: Book, c: Change): (r: Book)
    ensures Select(r, Other(SideOf(c))) == Select(b, Other(SideOf(c)))
    ensures var o := OrderOf(SideOf(c));
            var touched := Select(r, SideOf(c));
            var updated := Updated(Select(b, SideOf(c)), c);
            && SortedBy(o, touched)
            && multiset(touched) == multiset(updated)
            && forall k :: WithKey(o, touched, k) == WithKey(o, updated, k)
  {
    var side := SideOf(c);
    var o := OrderOf(side);
    var updated := Updated(Select(b, side), c);
    var sorted := Sort(o, updated);
    assert forall k :: WithKey(o, sorted, k) == WithKey(o, updated, k) by {
      forall k ensures WithKey(o, sorted, k) == WithKey(o, updated, k) {
        SortIsStable(o, updated, k);
      }
    }
    if side == Bids then b.(bids := sorted) else b.(asks := sorted)
  }

  /** The changes of one update message, in order. */
  function ApplyChanges(b: Book, cs: seq<Change>): (r: Book)
    ensures (forall i :: 0 <= i < |cs| ==> SideOf(cs[i]) == Asks) ==> r.bids == b.bids
    ensures (forall i :: 0 <= i < |cs| ==> SideOf(cs[i]) == Bids) ==> r.asks == b.asks
    decreases |cs|
  {
    if |cs| == 0 then b else ApplyChanges(ApplyChange(b, cs[0]), cs[1..])
  }

  /** A change with size 0 removes the price from its side; any other change leaves a level with the new size there. */
  lemma ChangeTakesEffect(b: Book, c: Change)
    ensures var touched := Select(ApplyChange(b, c), SideOf(c));
            && (c.size == 0.0 ==> forall l :: l in touched ==> l.price != c.price)
            && (c.size != 0.0 ==> Level(c.price, c.size) in touched)
  {
    var levels := Select(b, SideOf(c));
    var touched := Select(ApplyChange(b, c), SideOf(c));
    assert forall l :: l in touched <==> l in multiset(touched);
    if c.size != 0.0 {
      var updated := SetSize(levels, c.price, c.size);
      match FirstIndexOf(levels, c.price)
      case None =>
        assert updated[|levels|] == Level(c.price, c.size);
      case Some(i) =>
        assert updated[i] == Level(c.price, c.size);
    }
  }

  /** A change keeps a book ordered: the touched side is re-sorted and the other is untouched. */
  lemma ApplyChangeOrdered(b: Book, c: Change)
    requires Ordered(b)
    ensures Ordered(ApplyChange(b, c))
  {
  }

  /** Every prefix of an update keeps an ordered book ordered. */
  lemma {:induction false} ApplyChangesOrdered(b: Book, cs: seq<Change>)
    requires Ordered(b)
    ensures Ordered(ApplyChanges(b, cs))
    decreases |cs|
  {
    if |cs| > 0 {
      ApplyChangeOrdered(b, cs[0]);
      ApplyChangesOrdered(ApplyChange(b, cs[0]), cs[1..]);
    }
  }

  /** Sorting an already sorted side changes nothing. */
  lemma {:induction false} SortOfSorted(o: Order, s: seq<Level>)
    requires SortedBy(o, s)
    ensures Sort(o, s) == s
  {
    if |s| > 0 {
      SortOfSorted(o, s[1..]);
      assert [s[0]] + s[1..] == s;
    }
  }

  /** The key every level at `price` sorts under. */
  function KeyOfPrice(o: Order, price: real): (k: real)
    ensures forall l: Level :: Key(o, l) == k <==> l.price == price
  {
    Key(o, Level(price, 0.0))
  }

  /** The first level at a price is the first level with that price's key. */
  lemma {:induction false} FirstWithKey(o: Order, s: seq<Level>, i: nat)
    requires i < |s| && forall j :: 0 <= j < i ==> s[j].price != s[i].price
    ensures var w := WithKey(o, s, KeyOfPrice(o, s[i].price));
            |w| > 0 && w[0] == s[i]
  {
    var k := KeyOfPrice(o, s[i].price);
    if i > 0 {
      assert s[1..][i - 1] == s[i];
      FirstWithKey(o, s[1..], i - 1);
      assert Key(o, s[0]) != k;
    }
  }

  /** After a resize, the resized level is the first level at its price. */
  lemma ResizedHeadsItsPrice(o: Order, levels: seq<Level>, price: real, size: real)
    ensures var w := WithKey(o, SetSize(levels, price, size), KeyOfPrice(o, price));
            |w| > 0 && w[0] == Level(price, size)
  {
    var updated := SetSize(levels, price, size);
    match FirstIndexOf(levels, price)
    case None =>
      assert updated[|levels|] == Level(price, size);
      FirstWithKey(o, updated, |levels|);
    case Some(i) =>
      assert updated[i] == Level(price, size);
      FirstWithKey(o, updated, i);
  }

  /** A resize that the first level at its price already carries changes nothing. */
  lemma ResizeToCurrent(o: Order, levels: seq<Level>, price: real, size: real)
    requires var w := WithKey(o, levels, KeyOfPrice(o, price));
             |w| > 0 && w[0] == Level(price, size)
    ensures SetSize(levels, price, size) == levels
  {
    assert Level(price, size) in levels;
    match FirstIndexOf(levels, price)
    case None =>
      assert false;
    case Some(j) =>
      FirstWithKey(o, levels, j);
  }

  /**
   * After a non-zero change, the first level at its price on the re-sorted
   * side already has the new size: equal prices keep their order through
   * the sort, so the level the change resized still heads its price.
   */
  lemma ResizedLevelHeadsItsPrice(b: Book, c: Change)
    requires c.size != 0.0
    ensures var sorted := Select(ApplyChange(b, c), SideOf(c));
            SetSize(sorted, c.price, c.size) == sorted
  {
    var o := OrderOf(SideOf(c));
    var sorted := Select(ApplyChange(b, c), SideOf(c));
    ResizedHeadsItsPrice(o, Select(b, SideOf(c)), c.price, c.size);
    ResizeToCurrent(o, sorted, c.price, c.size);
  }

  /** A second application of a change finds nothing left to do before the sort. */
  lemma UpdatedAgainIsSame(b: Book, c: Change)
    ensures var sorted := Select(ApplyChange(b, c), SideOf(c));
            Updated(sorted, c) == sorted
  {
    var sorted := Select(ApplyChange(b, c), SideOf(c));
    if c.size == 0.0 {
      ChangeTakesEffect(b, c);
      RemoveAbsent(sorted, c.price);
    } else {
      ResizedLevelHeadsItsPrice(b, c);
    }
  }

  /**
   * A change applied twice has the effect of applying it once: a removed
   * price stays removed, and a resized level keeps its size and place.
   */
  lemma ApplyChangeIdempotent(b: Book, c: Change)
    ensures ApplyChange(ApplyChange(b, c), c) == ApplyChange(b, c)
  {
    var side := SideOf(c);
    var o := OrderOf(side);
    var once := ApplyChange(b, c);
    var sorted := Select(once, side);
    UpdatedAgainIsSame(b, c);
    SortOfSorted(o, sorted);
    assert Sort(o, Updated(sorted, c)) == sorted;
    if side == Bids {
      assert ApplyChange(once, c) == once.(bids := sorted);
    } else {
      assert ApplyChange(once, c) == once.(asks := sorted);
    }
  }

  /**
   * What `handle_update` is evidently meant to write: without a logged book
   * for the product nothing is written; otherwise the changes are applied
   * to the latest book in order and the result is logged with the first
   * levels as the top of book. `HandleUpdateAsWritten` is what the code
   * does instead.
   */
  function HandleUpdate(productId: string, latest: Option<Book>, changes: seq<Change>): (r: Option<Entry>)
    ensures r.Some? <==> latest.Some?
    ensures r.Some? ==>
      var book := ApplyChanges(latest.value, changes);
      && r.value.symbol == SymbolOf(productId)
      && r.value.bids == book.bids && r.value.asks == book.asks
      && r.value.bidPrice == TopPrice(book.bids) && r.value.askPrice == TopPrice(book.asks)
  {
    match latest
    case None => None
    case Some(book) =>
      var updated := ApplyChanges(book, changes);
      Some(CoinbaseEntry(productId, updated.bids, updated.asks))
  }

  /**
   * Starting from an ordered book, the prices an update records are the
   * best ones of the new book: the highest bid and the lowest ask.
   */
  lemma UpdateRecordsBest(productId: string, latest: Book, changes: seq<Change>)
    requires Ordered(latest)
    ensures var e := HandleUpdate(productId, Some(latest), changes).value;
            && (|e.bids| > 0 ==> e.bidPrice == Some(Max(Prices(e.bids)).v))
            && (|e.asks| > 0 ==> e.askPrice == Some(Min(Prices(e.asks)).v))
  {
    var book := ApplyChanges(latest, changes);
    ApplyChangesOrdered(latest, changes);
    if |book.bids| > 0 {
      TopIsBest(Descending, book.bids);
    }
    if |book.asks| > 0 {
      TopIsBest(Ascending, book.asks);
    }
  }

  /** The outcome of Python's `await` on a value: the value it resumes with, or the exception it raises. */
  datatype Awaited<T> = Resumed(value: T) | Raised(error: string)

  /**
   * `await v` for a value that is not awaitable, such as the entry or the
   * `None` that `.first()` of a synchronous session returns: it raises
   * `TypeError` before anything is resumed.
   */
  function AwaitPlain<T>(v: T): (r: Awaited<T>)
    ensures r.Raised?
  {
    Raised("TypeError: object can't be used in 'await' expression")
  }

  /**
   * `handle_update` as written: the latest book comes from `await` on a
   * synchronous query (`.first()` of a `sessionmaker` session), the await
   * raises, and the `except` clause logs the error. Had the await resumed,
   * the rest of the body would be `HandleUpdate`.
   */
  function HandleUpdateAsWritten(productId: string, latest: Option<Book>, changes: seq<Change>): (r: Option<Entry>)
    ensures r == None
  {
    match AwaitPlain(latest)
    case Raised(_) => None
    case Resumed(book) => HandleUpdate(productId, book, changes)
  }

  /**
   * Whenever a book was logged for the product, the code as written loses
   * the update that the intended behaviour records.
   */
  lemma UpdateIsLost(productId: string, latest: Book, changes: seq<Change>)
    ensures HandleUpdate(productId, Some(latest), changes).Some?
    ensures HandleUpdateAsWritten(productId, Some(latest), changes) != HandleUpdate(productId, Some(latest), changes)
  {
  }

  /** A concrete update that is lost: one bid of 1.0 at 100.0 resized to 2.0. */
  lemma UpdateIsLostExample()
    ensures var book := Book([Level(100.0, 1.0)], []);
            var changes := [Change("buy", 100.0, 2.0)];
            && HandleUpdate("BTC-USD", Some(book), changes).Some?
            && HandleUpdateAsWritten("BTC-USD", Some(book), changes) == None
  {
    UpdateIsLost("BTC-USD", Book([Level(100.0, 1.0)], []), [Change("buy", 100.0, 2.0)]);
  }
}
