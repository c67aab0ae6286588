/**
 * The observed tick size of a snapshot (`calculateTickSize` in
 * frontend/static/js/main.js) and the dense-mode test that compares the
 * spread with a tick size (`shouldUseDenseMode`).
 */
module TickSize {
  import opened Numbers
  import opened Levels

  /** All quoted prices are one and the same (or there are none). */
  ghost predicate SinglePrice(ps: set<real>)
  {
    forall p, q :: p in ps && q in ps ==> p == q
  }

  /** `d` is the distance between two quoted prices, and no two distinct quoted prices are closer. */
  ghost predicate IsMinGap(ps: set<real>, d: real)
  {
    && d > 0.0
    && (exists p, q :: p in ps && q in ps && q - p == d)
    && (forall p, q :: p in ps && q in ps && p < q ==> d <= q - p)
  }

  /**
   * What the estimator promises: the smallest positive distance between
   * quoted prices, or +Infinity when fewer than two distinct prices exist.
   */
  ghost predicate IsTickSize(ps: set<real>, t: Extended)
  {
    match t
    case Fin(d) => IsMinGap(ps, d)
    case PosInf => SinglePrice(ps)
    case NegInf => false
  }

  /**
   * The loop invariant of `calculateTickSize`: `t` is the least positive
   * price difference among the neighbours `(s[j-1], s[j])` with `j < i`.
   */
  ghost predicate AdjacentMin(s: seq<Level>, i: nat, t: Extended)
    requires i <= |s|
  {
    && t != NegInf
    && (t == PosInf ==> forall j :: 0 < j < i ==> s[j].price <= s[j - 1].price)
    && (t.Fin? ==>
          && t.v > 0.0
          && (exists j :: 0 < j < i && s[j].price - s[j - 1].price == t.v)
          && (forall j :: 0 < j < i && s[j - 1].price < s[j].price ==> t.v <= s[j].price - s[j - 1].price))
  }

  /**
   * `calculateTickSize(bids, asks)`: sort all quoted prices ascending and
   * keep the least positive difference of neighbours, starting from
   * Infinity; a zero difference (a repeated price) is skipped. Sorting the
   * levels by price and reading their prices gives the same sequence as
   * reading the prices and sorting them.
   */
  method CalculateTickSize(bids: seq<Level>, asks: seq<Level>) returns (t: Extended)
    ensures IsTickSize(PriceSet(bids + asks), t)
    ensures t == PosInf <==> SinglePrice(PriceSet(bids + asks))
  {
    var sorted := Sort(Ascending, bids + asks);
    t := PosInf;
    var i := 1;
    while i < |sorted|
      invariant 1 <= i && (i <= |sorted| || |sorted| == 0)
      invariant i <= |sorted| ==> AdjacentMin(sorted, i, t)
      invariant t != NegInf
      invariant |sorted| == 0 ==> t == PosInf
    {
      var diff := sorted[i].price - sorted[i - 1].price;
      ghost var t0 := t;
      if diff > 0.0 && (t == PosInf || diff < t.v) {
        t := Fin(diff);
      }
      AdjacentMinStep(sorted, i, t0, t);
      i := i + 1;
    }
    ScanIsTickSize(bids + asks, sorted, t);
  }

  /** The finished scan over the sorted levels yields the tick size of the unsorted ones. */
  lemma ScanIsTickSize(levels: seq<Level>, sorted: seq<Level>, t: Extended)
    requires sorted == Sort(Ascending, levels)
    requires t != NegInf
    requires |sorted| > 0 ==> AdjacentMin(sorted, |sorted|, t)
    requires |sorted| == 0 ==> t == PosInf
    ensures IsTickSize(PriceSet(levels), t)
    ensures t == PosInf <==> SinglePrice(PriceSet(levels))
  {
    SortKeepsPrices(Ascending, levels);
    if |sorted| == 0 {
      assert PriceSet(sorted) == {};
    } else {
      AdjacentMinIsTickSize(sorted, t);
    }
    if t.Fin? {
      MinGapIsNotSingle(PriceSet(levels), t.v);
    }
  }

  /** One step of the scan extends the invariant by one neighbour pair. */
  lemma AdjacentMinStep(s: seq<Level>, i: nat, t: Extended, t': Extended)
    requires 0 < i < |s| && AdjacentMin(s, i, t)
    requires var diff := s[i].price - s[i - 1].price;
             t' == if diff > 0.0 && (t == PosInf || diff < t.v) then Fin(diff) else t
    ensures AdjacentMin(s, i + 1, t')
  {
    var diff := s[i].price - s[i - 1].price;
    if t' == t {
      if t.Fin? {
        var j :| 0 < j < i && s[j].price - s[j - 1].price == t.v;
        assert 0 < j < i + 1;
      }
      forall j | 0 < j < i + 1 && t.Fin? && s[j - 1].price < s[j].price
        ensures t.v <= s[j].price - s[j - 1].price
      {
        if j == i {
          assert !(diff < t.v);
        }
      }
      forall j | 0 < j < i + 1 && t == PosInf ensures s[j].price <= s[j - 1].price {
        if j == i {
          assert !(diff > 0.0);
        }
      }
    } else {
      assert t' == Fin(diff);
      assert 0 < i < i + 1 && s[i].price - s[i - 1].price == t'.v;
      forall j | 0 < j < i + 1 && s[j - 1].price < s[j].price
        ensures t'.v <= s[j].price - s[j - 1].price
      {
        if j < i && t.Fin? {
          assert t.v <= s[j].price - s[j - 1].price;
        }
      }
    }
  }

  /** Between two distinct prices of an ascending sequence lies a positive neighbour gap no wider than them. */
  lemma {:induction false} GapBetween(s: seq<Level>, a: nat, b: nat) returns (j: nat)
    requires SortedBy(Ascending, s)
    requires a < b < |s| && s[a].price < s[b].price
    ensures a < j <= b && s[j - 1].price < s[j].price
    ensures s[j].price - s[j - 1].price <= s[b].price - s[a].price
  {
    assert Key(Ascending, s[a]) <= Key(Ascending, s[b - 1]);
    if s[b - 1].price == s[a].price || b - 1 == a {
      j := b;
    } else {
      j := GapBetween(s, a, b - 1);
    }
  }

  /** A quoted price sits at some index of the levels. */
  lemma IndexOfPrice(s: seq<Level>, p: real) returns (a: nat)
    requires p in PriceSet(s)
    ensures a < |s| && s[a].price == p
  {
    var l :| l in s && l.price == p;
    a :| 0 <= a < |s| && s[a] == l;
  }

  /** Every two distinct quoted prices of an ascending sequence are at least the least neighbour gap apart. */
  lemma AdjacentMinBoundsPairs(s: seq<Level>, t: Extended)
    requires SortedBy(Ascending, s) && |s| > 0
    requires AdjacentMin(s, |s|, t)
    ensures forall p, q :: p in PriceSet(s) && q in PriceSet(s) && p < q ==> t.Fin? && t.v <= q - p
  {
    var ps := PriceSet(s);
    forall p, q | p in ps && q in ps && p < q
      ensures t.Fin? && t.v <= q - p
    {
      var a := IndexOfPrice(s, p);
      var b := IndexOfPrice(s, q);
      assert Key(Ascending, s[a]) < Key(Ascending, s[b]);
      assert a < b;
      var j := GapBetween(s, a, b);
      assert 0 < j < |s|;
    }
  }

  /** A finite result of the scan is the least gap over all pairs of quoted prices. */
  lemma FiniteScanIsMinGap(s: seq<Level>, d: real)
    requires SortedBy(Ascending, s) && |s| > 0
    requires AdjacentMin(s, |s|, Fin(d))
    ensures IsMinGap(PriceSet(s), d)
  {
    var ps := PriceSet(s);
    AdjacentMinBoundsPairs(s, Fin(d));
    var j :| 0 < j < |s| && s[j].price - s[j - 1].price == d;
    assert s[j - 1] in s && s[j] in s;
    assert s[j - 1].price in ps && s[j].price in ps;
  }

  /** An infinite result of the scan means a single quoted price. */
  lemma InfiniteScanIsSingle(s: seq<Level>)
    requires SortedBy(Ascending, s) && |s| > 0
    requires AdjacentMin(s, |s|, PosInf)
    ensures SinglePrice(PriceSet(s))
  {
    var ps := PriceSet(s);
    AdjacentMinBoundsPairs(s, PosInf);
    forall p, q | p in ps && q in ps ensures p == q {
      if p < q {
      } else if q < p {
      }
    }
  }

  /** At the end of the scan, the least neighbour gap is the least gap over all pairs of quoted prices. */
  lemma AdjacentMinIsTickSize(s: seq<Level>, t: Extended)
    requires SortedBy(Ascending, s) && |s| > 0
    requires AdjacentMin(s, |s|, t)
    ensures IsTickSize(PriceSet(s), t)
  {
    match t
    case Fin(d) => FiniteScanIsMinGap(s, d);
    case PosInf => InfiniteScanIsSingle(s);
  }

  /** A positive minimum gap needs two distinct prices. */
  lemma MinGapIsNotSingle(ps: set<real>, d: real)
    requires IsMinGap(ps, d)
    ensures !SinglePrice(ps)
  {
    var p, q :| p in ps && q in ps && q - p == d;
  }

  /**
   * The tick size is determined by the set of quoted prices alone: two
   * results for the same set agree, whatever the order of the levels or
   * the number of times a price repeats.
   */
  lemma TickSizeIsUnique(ps: set<real>, t1: Extended, t2: Extended)
    requires IsTickSize(ps, t1) && IsTickSize(ps, t2)
    ensures t1 == t2
  {
    if t1.Fin? && t2.Fin? {
      var p1, q1 :| p1 in ps && q1 in ps && q1 - p1 == t1.v;
      var p2, q2 :| p2 in ps && q2 in ps && q2 - p2 == t2.v;
      assert t2.v <= q1 - p1;
      assert t1.v <= q2 - p2;
    } else if t1.Fin? {
      MinGapIsNotSingle(ps, t1.v);
    } else if t2.Fin? {
      MinGapIsNotSingle(ps, t2.v);
    }
  }

  /**
   * `(spread / tickSize) < 10` for a finite spread, with JavaScript's
   * division: a finite spread over an infinite tick is 0, and over a zero
   * tick it is an infinity of the spread's sign, or NaN for a zero spread.
   */
  function FewerThanTenTicks(spread: real, tickSize: Extended): bool
  {
    match tickSize
    case Fin(tick) =>
      if tick == 0.0 then spread < 0.0 else spread / tick < 10.0
    case _ => true
  }

  /**
   * `shouldUseDenseMode(bids, asks, tickSize)`: `(spread / tickSize) < 10`.
   * An empty side makes the spread +Infinity (`Math.min()` less a price, a
   * price less `Math.max()`, or +Infinity less -Infinity). +Infinity over a
   * finite tick is an infinity of the tick's sign, so only a negative tick
   * passes the test; over an infinite tick it is NaN, which fails it.
   */
  function ShouldUseDenseMode(bids: seq<Level>, asks: seq<Level>, tickSize: Extended): (dense: bool)
    ensures !(|bids| > 0 && |asks| > 0) ==> (dense <==> tickSize.Fin? && tickSize.v < 0.0)
    ensures |bids| > 0 && |asks| > 0 ==>
      var spread := Min(Prices(asks)).v - Max(Prices(bids)).v;
      (dense <==> || !tickSize.Fin?
                  || (tickSize.v > 0.0 && spread < 10.0 * tickSize.v)
                  || (tickSize.v < 0.0 && spread > 10.0 * tickSize.v)
                  || (tickSize.v == 0.0 && spread < 0.0))
  {
    var bestBid := Max(Prices(bids));
    var bestAsk := Min(Prices(asks));
    if bestBid.Fin? && bestAsk.Fin? then
      var spread := bestAsk.v - bestBid.v;
      if tickSize.Fin? && tickSize.v != 0.0 then
        SpreadInTicks(spread, tickSize.v);
        FewerThanTenTicks(spread, tickSize)
      else
        FewerThanTenTicks(spread, tickSize)
    else
      tickSize.Fin? && tickSize.v < 0.0
  }

  /** With an empty side no tick size the estimator can return gives dense mode. */
  lemma EmptySideIsNotDense(bids: seq<Level>, asks: seq<Level>, t: Extended)
    requires IsTickSize(PriceSet(bids + asks), t)
    requires |bids| == 0 || |asks| == 0
    ensures !ShouldUseDenseMode(bids, asks, t)
  {
  }

  /** For an estimated tick size the test is simply whether the spread is below ten ticks, or the tick is infinite. */
  lemma DenseModeWithEstimatedTick(bids: seq<Level>, asks: seq<Level>, t: Extended)
    requires IsTickSize(PriceSet(bids + asks), t)
    requires |bids| > 0 && |asks| > 0
    ensures ShouldUseDenseMode(bids, asks, t)
            <==> t == PosInf || Min(Prices(asks)).v - Max(Prices(bids)).v < 10.0 * t.v
  {
  }

  /** `spread / tick < 10` says `spread < 10 * tick` for a positive tick and `spread > 10 * tick` for a negative one. */
  lemma SpreadInTicks(spread: real, tick: real)
    requires tick != 0.0
    ensures tick > 0.0 ==> (spread / tick < 10.0 <==> spread < 10.0 * tick)
    ensures tick < 0.0 ==> (spread / tick < 10.0 <==> spread > 10.0 * tick)
  {
    assert (spread / tick) * tick == spread;
  }
}
