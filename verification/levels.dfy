/**
 * Price levels of an order book and the stable sort by price that both the
 * logger and the tick-size estimator apply to them.
 */
module Levels {

  /** One `[price, size]` pair of a bid or ask list. */
  datatype Level = Level(price: real, size: real)

  /** The two sides of a book: bids (buy orders) and asks (sell orders). */
  datatype BookSide = Bids | Asks

  /** The side opposite `side`. */
  function Other(side: BookSide): (r: BookSide)
    ensures r != side
  {
    if side == Bids then Asks else Bids
  }

  /** The direction of a sort by price. */
  datatype Order = Ascending | Descending

  /** The sort key: the price, negated for a descending sort (`key=lambda x: -x[0]`). */
  function Key(o: Order, l: Level): real
  {
    if o == Ascending then l.price else -l.price
  }

  /** The prices of the levels, in order. */
  function Prices(levels: seq<Level>): (ps: seq<real>)
    ensures |ps| == |levels|
    ensures forall i :: 0 <= i < |levels| ==> ps[i] == levels[i].price
  {
    seq(|levels|, i requires 0 <= i < |levels| => levels[i].price)
  }

  /** The set of prices quoted on the levels. */
  ghost function PriceSet(levels: seq<Level>): set<real>
  {
    set l | l in levels :: l.price
  }

  ghost predicate SortedBy(o: Order, s: seq<Level>)
  {
    forall i, j :: 0 <= i < j < |s| ==> Key(o, s[i]) <= Key(o, s[j])
  }

  /** The levels of `s` whose key is `k`, in their order in `s`. */
  function WithKey(o: Order, s: seq<Level>, k: real): (r: seq<Level>)
    ensures forall l :: l in r <==> l in s && Key(o, l) == k
  {
    if |s| == 0 then []
    else (if Key(o, s[0]) == k then [s[0]] else []) + WithKey(o, s[1..], k)
  }

  /** Places `x` in front of the first element of `s` whose key is not smaller. */
  function Insert(o: Order, x: Level, s: seq<Level>): (r: seq<Level>)
    requires SortedBy(o, s)
    ensures SortedBy(o, r)
    ensures multiset(r) == multiset(s) + multiset{x}
  {
    if |s| == 0 || Key(o, x) <= Key(o, s[0]) then [x] + s
    else
      var rest := Insert(o, x, s[1..]);
      KeyBelowInsert(o, x, s, rest);
      PrependSorted(o, s[0], rest);
      assert multiset(s) == multiset{s[0]} + multiset(s[1..]) by {
        assert s == [s[0]] + s[1..];
      }
      [s[0]] + rest
  }

  /** A level whose key bounds every key of a sorted sequence may go in front of it. */
  lemma PrependSorted(o: Order, y: Level, r: seq<Level>)
    requires SortedBy(o, r)
    requires forall j :: 0 <= j < |r| ==> Key(o, y) <= Key(o, r[j])
    ensures SortedBy(o, [y] + r)
  {
  }

  /** The head of a sorted `s` bounds everything an insertion into its tail yields. */
  lemma KeyBelowInsert(o: Order, x: Level, s: seq<Level>, rest: seq<Level>)
    requires SortedBy(o, s) && |s| > 0 && Key(o, s[0]) < Key(o, x)
    requires multiset(rest) == multiset(s[1..]) + multiset{x}
    ensures forall j :: 0 <= j < |rest| ==> Key(o, s[0]) <= Key(o, rest[j])
  {
    forall j | 0 <= j < |rest| ensures Key(o, s[0]) <= Key(o, rest[j]) {
      assert rest[j] in multiset(rest);
      if rest[j] != x {
        assert rest[j] in multiset(s[1..]);
        var i :| 0 <= i < |s[1..]| && s[1..][i] == rest[j];
        assert s[i + 1] == rest[j];
      }
    }
  }

  /**
   * A stable sort by `Key(o, _)`: Python's `sorted(levels, key=...)`, or
   * JavaScript's `sort((a, b) => a - b)` on the prices.
   */
  function Sort(o: Order, s: seq<Level>): (r: seq<Level>)
    ensures SortedBy(o, r)
    ensures multiset(r) == multiset(s)
  {
    if |s| == 0 then []
    else
      assert s == [s[0]] + s[1..];
      Insert(o, s[0], Sort(o, s[1..]))
  }

  /** `WithKey` of a sequence with a known first element. */
  lemma WithKeyCons(o: Order, y: Level, r: seq<Level>, k: real)
    ensures WithKey(o, [y] + r, k) == (if Key(o, y) == k then [y] else []) + WithKey(o, r, k)
  {
    assert ([y] + r)[1..] == r;
  }

  /** Two pieces of which at least one is empty may trade places in front of `w`. */
  lemma SwapEmpty(a: seq<Level>, b: seq<Level>, w: seq<Level>)
    requires a == [] || b == []
    ensures a + (b + w) == b + (a + w)
  {
    if a == [] {
      assert a + (b + w) == b + w;
      assert a + w == w;
    } else {
      assert b + (a + w) == a + w;
      assert b + w == w;
    }
  }

  /** Inserting an element that precedes `s` puts it before every level with its key. */
  lemma {:induction false} InsertKeepsKeyOrder(o: Order, x: Level, s: seq<Level>, k: real)
    requires SortedBy(o, s)
    ensures WithKey(o, Insert(o, x, s), k)
         == (if Key(o, x) == k then [x] else []) + WithKey(o, s, k)
  {
    if |s| == 0 || Key(o, x) <= Key(o, s[0]) {
      WithKeyCons(o, x, s, k);
    } else {
      var rest := Insert(o, x, s[1..]);
      var mine := if Key(o, x) == k then [x] else [];
      var head := if Key(o, s[0]) == k then [s[0]] else [];
      var w := WithKey(o, s[1..], k);
      WithKeyCons(o, s[0], rest, k);
      InsertKeepsKeyOrder(o, x, s[1..], k);
      WithKeyCons(o, s[0], s[1..], k);
      assert s == [s[0]] + s[1..];
      SwapEmpty(head, mine, w);
    }
  }

  /**
   * The sort is stable: the levels sharing any one key come out in the
   * order they went in.
   */
  lemma {:induction false} SortIsStable(o: Order, s: seq<Level>, k: real)
    ensures WithKey(o, Sort(o, s), k) == WithKey(o, s, k)
  {
    if |s| > 0 {
      SortIsStable(o, s[1..], k);
      InsertKeepsKeyOrder(o, s[0], Sort(o, s[1..]), k);
    }
  }

  /** Sorting keeps the set of quoted prices. */
  lemma SortKeepsPrices(o: Order, s: seq<Level>)
    ensures PriceSet(Sort(o, s)) == PriceSet(s)
  {
    var r := Sort(o, s);
    forall l ensures l in r <==> l in s {
      assert l in r <==> l in multiset(r);
    }
  }
}
