/**
 * The depth histogram of frontend/static/js/main.js: the per-token
 * profile, the zero-volume bins from just below the lowest bid to just
 * above the highest ask (`createHistogramData`), the bid and ask volume
 * passes, the relative tick size, and the best bid, best ask and mid price
 * that `drawHistogram` reads back from the bins.
 */
module Histogram {
  import opened Wrappers
  import opened Numbers
  import opened Levels

  /** A token's bin width, padding beyond the outermost quotes, and price precision. */
  datatype Profile = Profile(tickSize: real, padding: real, decimals: nat)

  /** The `tokenConfig` table; any other token (DOGE, say) has no profile. */
  function ProfileFor(token: string): (p: Option<Profile>)
    ensures p.Some? <==> token in {"XRP", "BTC", "ETH", "SOL"}
    ensures p.Some? ==> p.value.tickSize > 0.0 && p.value.padding > 0.0
  {
    if token == "XRP" then Some(Profile(0.0001, 0.0001, 4))
    else if token == "BTC" then Some(Profile(0.01, 0.01, 2))
    else if token == "ETH" then Some(Profile(0.01, 0.01, 2))
    else if token == "SOL" then Some(Profile(0.0001, 0.01, 2))
    else None
  }

  /** The volumes recorded at one rounded price. */
  datatype Bin = Bin(bidVolume: real, askVolume: real)

  /** The histogram: rounded price to bin. */
  type Bins = map<real, Bin>

  /** The volume a bin records for one side. */
  function Volume(b: Bin, side: BookSide): real
  {
    if side == Bids then b.bidVolume else b.askVolume
  }

  /** The bin with one side's volume replaced. */
  function WithVolume(b: Bin, side: BookSide, v: real): (r: Bin)
    ensures Volume(r, side) == v
    ensures Volume(r, Other(side)) == Volume(b, Other(side))
  {
    if side == Bids then b.(bidVolume := v) else b.(askVolume := v)
  }

  /** The price the bin loop holds after `k` increments of `tick` from `lo`. */
  function StepPrice(lo: real, tick: real, k: nat): real
  {
    lo + k as real * tick
  }

  /** `x` is the rounding of a price the bin loop visits, stepping from `lo` while the price is at most `hi`. */
  ghost predicate IsStepKey(x: real, lo: real, hi: real, p: Profile)
  {
    exists k: nat :: StepPrice(lo, p.tickSize, k) <= hi && RoundTo(StepPrice(lo, p.tickSize, k), p.decimals) == x
  }

  lemma StepPriceMonotone(lo: real, tick: real, j: nat, k: nat)
    requires tick > 0.0 && j <= k
    ensures StepPrice(lo, tick, j) <= StepPrice(lo, tick, k)
  {
    assert StepPrice(lo, tick, k) - StepPrice(lo, tick, j) == (k - j) as real * tick;
  }

  /** One more increment of `tick` removes exactly one step from the steps left before `hi`. */
  lemma StepsLeftDecrease(hi: real, price: real, tick: real)
    requires tick > 0.0
    ensures ((hi - (price + tick)) / tick).Floor == ((hi - price) / tick).Floor - 1
  {
    assert tick / tick == 1.0;
    assert (hi - price - tick) / tick == (hi - price) / tick - tick / tick;
  }

  lemma StepsLeftNonNegative(hi: real, price: real, tick: real)
    requires tick > 0.0 && price <= hi
    ensures ((hi - price) / tick).Floor >= 0
  {
    DivSign(hi - price, tick);
  }

  /**
   * The bin loop of `createHistogramData`: from `lo` while the price is at
   * most `hi`, in steps of the profile's tick, a zero bin at each price
   * rounded to the profile's decimals. The bounds are `Math.min` of the bid
   * prices less the padding and `Math.max` of the ask prices plus the
   * padding, so an empty bid side makes `lo` +Infinity and an empty ask
   * side makes `hi` -Infinity; either way the first test fails.
   */
  method CreateBins(lo: Extended, hi: Extended, p: Profile) returns (bins: Bins)
    requires p.tickSize > 0.0
    requires lo != NegInf && hi != PosInf
    ensures forall x :: x in bins <==> lo.Fin? && hi.Fin? && IsStepKey(x, lo.v, hi.v, p)
    ensures forall x :: x in bins ==> bins[x] == Bin(0.0, 0.0)
  {
    bins := map[];
    if lo.Fin? && hi.Fin? {
      var price := lo.v;
      ghost var k: nat := 0;
      while price <= hi.v
        invariant price == StepPrice(lo.v, p.tickSize, k)
        invariant forall j: nat :: j < k ==> StepPrice(lo.v, p.tickSize, j) <= hi.v
        invariant forall x :: x in bins <==>
                    exists j: nat :: j < k && RoundTo(StepPrice(lo.v, p.tickSize, j), p.decimals) == x
        invariant forall x :: x in bins ==> bins[x] == Bin(0.0, 0.0)
        decreases ((hi.v - price) / p.tickSize).Floor + 1
      {
        StepsLeftNonNegative(hi.v, price, p.tickSize);
        StepsLeftDecrease(hi.v, price, p.tickSize);
        var rounded := RoundTo(price, p.decimals);
        bins := bins[rounded := Bin(0.0, 0.0)];
        price := price + p.tickSize;
        k := k + 1;
      }
      forall x | IsStepKey(x, lo.v, hi.v, p) ensures x in bins {
        var j: nat :| StepPrice(lo.v, p.tickSize, j) <= hi.v
                      && RoundTo(StepPrice(lo.v, p.tickSize, j), p.decimals) == x;
        if k <= j {
          StepPriceMonotone(lo.v, p.tickSize, k, j);
        }
      }
    }
  }

  /** The size of the last level whose price rounds to `x`, or `default` when none does. */
  function LastSizeAt(levels: seq<Level>, x: real, d: nat, default: real): real
  {
    if |levels| == 0 then default
    else if RoundTo(levels[|levels| - 1].price, d) == x then levels[|levels| - 1].size
    else LastSizeAt(levels[..|levels| - 1], x, d, default)
  }

  /** Writing `a` and then `b` leaves what the last of all of them wrote. */
  lemma {:induction false} LastSizeAtAppend(a: seq<Level>, b: seq<Level>, x: real, d: nat, default: real)
    ensures LastSizeAt(b, x, d, LastSizeAt(a, x, d, default)) == LastSizeAt(a + b, x, d, default)
  {
    if |b| > 0 {
      assert (a + b)[..|a + b| - 1] == a + b[..|b| - 1];
      assert (a + b)[|a + b| - 1] == b[|b| - 1];
      LastSizeAtAppend(a, b[..|b| - 1], x, d, default);
    } else {
      assert a + b == a;
    }
  }

  /** No level rounds to `x`: the default stands. */
  lemma {:induction false} LastSizeAtNone(levels: seq<Level>, x: real, d: nat, default: real)
    requires forall i :: 0 <= i < |levels| ==> RoundTo(levels[i].price, d) != x
    ensures LastSizeAt(levels, x, d, default) == default
  {
    if |levels| > 0 {
      LastSizeAtNone(levels[..|levels| - 1], x, d, default);
    }
  }

  /** The last level that rounds to `x` decides, whatever came before it. */
  lemma {:induction false} LastSizeAtLast(levels: seq<Level>, i: nat, x: real, d: nat, default: real)
    requires i < |levels| && RoundTo(levels[i].price, d) == x
    requires forall j :: i < j < |levels| ==> RoundTo(levels[j].price, d) != x
    ensures LastSizeAt(levels, x, d, default) == levels[i].size
  {
    if i < |levels| - 1 {
      LastSizeAtLast(levels[..|levels| - 1], i, x, d, default);
    }
  }

  /** One iteration of a volume pass: `bins[rounded].bidVolume = size` (or `askVolume`) if the bin exists. */
  function Write(bins: Bins, l: Level, side: BookSide, d: nat): (r: Bins)
    ensures r.Keys == bins.Keys
  {
    var key := RoundTo(l.price, d);
    if key in bins then bins[key := WithVolume(bins[key], side, l.size)] else bins
  }

  /**
   * `bids.forEach(...)` or `asks.forEach(...)`: the writes in input order.
   * No bin is added, the other side's volume is untouched, and each bin's
   * volume on this side is the size of the last level rounding to it, an
   * assignment and never a sum.
   */
  function AssignVolumes(bins: Bins, levels: seq<Level>, side: BookSide, d: nat): (r: Bins)
    ensures r.Keys == bins.Keys
    ensures forall x :: x in r ==> Volume(r[x], Other(side)) == Volume(bins[x], Other(side))
    ensures forall x :: x in r ==> Volume(r[x], side) == LastSizeAt(levels, x, d, Volume(bins[x], side))
    decreases |levels|
  {
    if |levels| == 0 then bins
    else
      var written := Write(bins, levels[0], side, d);
      var r := AssignVolumes(written, levels[1..], side, d);
      assert forall x :: x in bins ==> Volume(written[x], side) == LastSizeAt([levels[0]], x, d, Volume(bins[x], side));
      assert forall x :: x in bins ==>
        LastSizeAt(levels[1..], x, d, LastSizeAt([levels[0]], x, d, Volume(bins[x], side)))
        == LastSizeAt(levels, x, d, Volume(bins[x], side)) by {
        forall x | x in bins
          ensures LastSizeAt(levels[1..], x, d, LastSizeAt([levels[0]], x, d, Volume(bins[x], side)))
                  == LastSizeAt(levels, x, d, Volume(bins[x], side))
        {
          LastSizeAtAppend([levels[0]], levels[1..], x, d, Volume(bins[x], side));
          assert [levels[0]] + levels[1..] == levels;
        }
      }
      r
  }

  /** The relation of the result of `createHistogramData` to its inputs, for a known token. */
  ghost predicate IsHistogram(h: Bins, bids: seq<Level>, asks: seq<Level>, p: Profile)
  {
    && (forall x :: x in h <==>
          |bids| > 0 && |asks| > 0
          && IsStepKey(x, Min(Prices(bids)).v - p.padding, Max(Prices(asks)).v + p.padding, p))
    && (forall x :: x in h ==>
          h[x] == Bin(LastSizeAt(bids, x, p.decimals, 0.0), LastSizeAt(asks, x, p.decimals, 0.0)))
  }

  /** Every bin price is already rounded to the profile's decimals, so rounding it again names the same bin. */
  lemma BinKeysOnGrid(h: Bins, bids: seq<Level>, asks: seq<Level>, p: Profile, x: real)
    requires IsHistogram(h, bids, asks, p) && x in h
    ensures RoundTo(x, p.decimals) == x
  {
    var lo := Min(Prices(bids)).v - p.padding;
    var hi := Max(Prices(asks)).v + p.padding;
    var k: nat :| StepPrice(lo, p.tickSize, k) <= hi && RoundTo(StepPrice(lo, p.tickSize, k), p.decimals) == x;
    RoundToIdempotent(StepPrice(lo, p.tickSize, k), p.decimals);
  }

  /**
   * The bins cover the padded range from the lowest bid to the highest
   * ask, widened by at most half a unit of the last decimal at each end.
   */
  lemma BinKeysInRange(h: Bins, bids: seq<Level>, asks: seq<Level>, p: Profile, x: real)
    requires p.tickSize > 0.0
    requires IsHistogram(h, bids, asks, p) && x in h
    ensures Min(Prices(bids)).v - p.padding - 0.5 / Pow10(p.decimals) < x
    ensures x <= Max(Prices(asks)).v + p.padding + 0.5 / Pow10(p.decimals)
  {
    var lo := Min(Prices(bids)).v - p.padding;
    var hi := Max(Prices(asks)).v + p.padding;
    var k: nat :| StepPrice(lo, p.tickSize, k) <= hi && RoundTo(StepPrice(lo, p.tickSize, k), p.decimals) == x;
    StepPriceMonotone(lo, p.tickSize, 0, k);
    RoundToIsNearest(StepPrice(lo, p.tickSize, k), p.decimals);
  }

  /** With a bid and an ask, the lowest bid less the padding always gets a bin: the histogram is never empty. */
  lemma FirstBinExists(h: Bins, bids: seq<Level>, asks: seq<Level>, p: Profile)
    requires IsHistogram(h, bids, asks, p) && |bids| > 0 && |asks| > 0
    requires Min(Prices(bids)).v <= Max(Prices(asks)).v
    requires p.padding > 0.0
    ensures RoundTo(Min(Prices(bids)).v - p.padding, p.decimals) in h
  {
    var lo := Min(Prices(bids)).v - p.padding;
    var hi := Max(Prices(asks)).v + p.padding;
    assert StepPrice(lo, p.tickSize, 0) == lo;
    assert IsStepKey(RoundTo(lo, p.decimals), lo, hi, p);
  }

  datatype HistogramError = UnknownToken(token: string)

  /** An extended number moved by a finite amount; the infinities stay where they are. */
  function Plus(e: Extended, delta: real): (r: Extended)
    ensures r.Fin? <==> e.Fin?
    ensures r.Fin? ==> r.v == e.v + delta
    ensures r == NegInf <==> e == NegInf
  {
    if e.Fin? then Fin(e.v + delta) else e
  }

  /**
   * The property names every JavaScript object inherits from
   * `Object.prototype`. Looking one of them up in the profile table yields
   * a function or an object that has no `padding`, `tickSize` or
   * `decimals`, instead of `undefined`.
   */
  const InheritedNames: set<string> := {
    "constructor", "hasOwnProperty", "isPrototypeOf", "propertyIsEnumerable",
    "toLocaleString", "toString", "valueOf", "__proto__",
    "__defineGetter__", "__defineSetter__", "__lookupGetter__", "__lookupSetter__"
  }

  /**
   * `createHistogramData(bids, asks, tickSize)` for the token `token`. The
   * source ignores its `tickSize` argument and uses the profile's, so the
   * model has no such argument. For a token without a profile the source
   * throws (reading `padding` of `undefined`): `UnknownToken`. An inherited
   * name is looked up without a throw, but its missing `padding` makes both
   * bounds NaN, so the bin loop never runs and the empty object comes back.
   */
  method CreateHistogramData(token: string, bids: seq<Level>, asks: seq<Level>)
    returns (r: Result<Bins, HistogramError>)
    ensures token in InheritedNames ==> r == Success(map[])
    ensures ProfileFor(token).None? && token !in InheritedNames ==> r == Failure(UnknownToken(token))
    ensures ProfileFor(token).Some? ==> r.Success? && IsHistogram(r.value, bids, asks, ProfileFor(token).value)
  {
    if token in InheritedNames {
      return Success(map[]);
    }
    var profile := ProfileFor(token);
    if profile.None? {
      return Failure(UnknownToken(token));
    }
    var p := profile.value;
    var minPrice := Plus(Min(Prices(bids)), -p.padding);
    var maxPrice := Plus(Max(Prices(asks)), p.padding);
    var bins := CreateBins(minPrice, maxPrice, p);
    bins := AssignVolumes(bins, bids, Bids, p.decimals);
    bins := AssignVolumes(bins, asks, Asks, p.decimals);
    return Success(bins);
  }

  /**
   * `relativeTickSize = (config.tickSize / midPrice) * 100` with
   * `midPrice = (Math.min(asks) + Math.max(bids)) / 2`, shown only as a
   * label. `None` stands for the values that are not finite numbers: NaN
   * when both sides are empty, Infinity when the mid price is zero. With
   * exactly one side empty the mid price is infinite and the ratio is 0.
   */
  function RelativeTickSize(p: Profile, bids: seq<Level>, asks: seq<Level>): (r: Option<real>)
    requires p.tickSize > 0.0
    ensures |bids| == 0 && |asks| == 0 ==> r == None
    ensures (|bids| == 0) != (|asks| == 0) ==> r == Some(0.0)
    ensures |bids| > 0 && |asks| > 0 ==>
      var mid := (Min(Prices(asks)).v + Max(Prices(bids)).v) / 2.0;
      (r.Some? <==> mid != 0.0) && (r.Some? ==> r.value * mid == 100.0 * p.tickSize)
  {
    var bestAsk := Min(Prices(asks));
    var bestBid := Max(Prices(bids));
    if bestAsk.Fin? && bestBid.Fin? then
      var mid := (bestAsk.v + bestBid.v) / 2.0;
      if mid == 0.0 then None
      else
        assert (p.tickSize / mid) * mid == p.tickSize;
        Some((p.tickSize / mid) * 100.0)
    else if bestAsk.Fin? || bestBid.Fin? then Some(0.0)
    else None
  }

  /** Some bin records a positive volume for `side`. */
  ghost predicate HasVolume(h: Bins, side: BookSide)
  {
    exists x :: x in h && Volume(h[x], side) > 0.0
  }

  /** `prices.filter(p => histogramData[p].<side>Volume > 0)`. */
  function PricesWithVolume(h: Bins, prices: seq<real>, side: BookSide): (r: seq<real>)
    requires forall x :: x in prices ==> x in h
    ensures forall x :: x in r <==> x in prices && Volume(h[x], side) > 0.0
  {
    if |prices| == 0 then []
    else
      assert forall x :: x in prices ==> x == prices[0] || x in prices[1..];
      var rest := PricesWithVolume(h, prices[1..], side);
      var x := prices[0];
      assert x in h;
      if Volume(h[x], side) > 0.0 then [x] + rest else rest
  }

  /** The best bid, best ask and mid price `drawHistogram` reads from the bins. */
  datatype Best = Best(bid: real, ask: real, mid: real)

  /**
   * `drawHistogram`: over the bin prices (`Object.keys`, listed in
   * `prices`), the best bid is the largest price with a positive bid
   * volume and the best ask the smallest price with a positive ask volume,
   * each 0 when there is none; the mid price is their average, so with no
   * bid volume it is half the best ask.
   */
  function BestPrices(h: Bins, prices: seq<real>): (b: Best)
    requires forall x :: x in prices <==> x in h
    ensures HasVolume(h, Bids) ==>
      && b.bid in h && h[b.bid].bidVolume > 0.0
      && forall x :: x in h && h[x].bidVolume > 0.0 ==> x <= b.bid
    ensures !HasVolume(h, Bids) ==> b.bid == 0.0
    ensures HasVolume(h, Asks) ==>
      && b.ask in h && h[b.ask].askVolume > 0.0
      && forall x :: x in h && h[x].askVolume > 0.0 ==> b.ask <= x
    ensures !HasVolume(h, Asks) ==> b.ask == 0.0
    ensures b.mid - b.bid == b.ask - b.mid
  {
    var bidPrices := PricesWithVolume(h, prices, Bids);
    var askPrices := PricesWithVolume(h, prices, Asks);
    var bestBid := if |bidPrices| > 0 then Max(bidPrices).v else 0.0;
    var bestAsk := if |askPrices| > 0 then Min(askPrices).v else 0.0;
    Best(bestBid, bestAsk, (bestBid + bestAsk) / 2.0)
  }
}
