# Globe_crypto order-book core in Dafny

Globe_crypto logs crypto order books from several exchanges and shows them on a 3D globe and in depth histograms. This project models the parts of it that are pure logic and proves properties of them.

- **Frontend histogram** (`frontend/static/js/main.js`). `calculateTickSize` estimates the tick size of a snapshot. `createHistogramData` builds zero-volume bins from just below the lowest bid to just above the highest ask, then writes the bid and ask sizes into them. `shouldUseDenseMode` is the spread test. `drawHistogram` reads the best bid, best ask and mid price back out of the bins.
- **Globe markers** (`frontend/static/js/globe.js`). `latLongToVector3` projects a position onto the globe. `addExchange` registers exchanges per location in the `locationGroups` map and places co-located markers on a small circle. The `markers` map is keyed by exchange name. `updateExchangeData` overlays fields on a marker's record.
- **Logger** (`backend/logger.py`). It converts between symbols (`BTC/USDT`) and Coinbase product ids (`BTC-USDT`). `process_orderbook` and `handle_snapshot` build the logged rows. `handle_update` applies level-2 changes (remove, resize, append, then a stable re-sort of the side).
- **Server reads** (`backend/app.py`). Over rows returned newest first, `get_orderbook` and `background_task` keep the first row per exchange (per exchange and token in `background_task`). `get_exchange_orderbook` builds the pair `symbol/quote` and returns either the newest book or a not-found payload.

## Modules

| file | module | contents |
|---|---|---|
| `wrappers.dfy` | `Wrappers` | `Option`, `Result` |
| `numbers.dfy` | `Numbers` | reals with the two infinities; `Math.min` and `Math.max` over lists; `Math.round`; rounding to `d` decimals |
| `levels.dfy` | `Levels` | price levels, book sides, and the stable sort by price shared by logger and frontend |
| `tick_size.dfy` | `TickSize` | `calculateTickSize`, `shouldUseDenseMode` |
| `histogram.dfy` | `Histogram` | token profiles, bins, volume passes, relative tick size, best bid and ask |
| `globe.dfy` | `Globe` | projection, location groups, markers, record updates |
| `logger.dfy` | `Logger` | symbol and product-id conversion, logged rows, level-2 updates |
| `search.dfy` | `Search` | the first element of a sequence with a property |
| `app.dfy` | `App` | newest row per exchange, the per-token board, the single-exchange book |

Modelling choices:

- **Prices are exact reals.** JavaScript's `Infinity` and `-Infinity` (what `Math.min()` and `Math.max()` return for no arguments) are the `Extended` values `PosInf` and `NegInf`.
- **`Math.round(y)` is `floor(y + 0.5)`.** Halves round towards +Infinity; that is what JavaScript does, including for negative numbers. This differs from rounding halves away from zero only for negative prices, and the model follows the code.
- **Trigonometry is a parameter `Trig(pi, sin, cos)`.** Properties that need facts about it assume only `sin 0 = 0`, `cos 0 = 1` and `pi > 0`. The one exception is the sphere lemma, which assumes `sin² + cos² = 1`.
- **Location keys are coordinate pairs.** The key `` `${lat},${lon}` `` prints distinct numbers differently, so the model keys each group by the pair `(lat, lon)`.
- **Awaits on a synchronous session.** The Coinbase feed holds a plain `sessionmaker` session, yet awaits its calls. In `handle_snapshot` the `commit()` runs before the await on its `None` raises, so the snapshot row is written and then the error is logged. In `handle_update` the await on the query raises before anything is read, so nothing is written. `Logger.HandleUpdate` models what the update is evidently meant to write, and `Logger.HandleUpdateAsWritten` models what the code does (see "## Findings").
- **Rows arrive in query order.** Every database read orders by timestamp, newest first. The model takes the rows in that order as its input, and the lemmas about "newest" assume that order.

## Model

| member | source | states |
|---|---|---|
| TickSize.CalculateTickSize | frontend/static/js/main.js:465-476 | Sorting the prices and scanning neighbours yields the least positive distance between any two quoted prices. The result is +Infinity exactly when fewer than two distinct prices are quoted; repeated prices are skipped. |
| TickSize.AdjacentMinIsTickSize | frontend/static/js/main.js:468-474 | On ascending levels, the least positive neighbour gap is the least positive gap over all pairs of prices, or all prices are equal. |
| TickSize.GapBetween | frontend/static/js/main.js:469-473 | Between two distinct prices of an ascending list there is a positive neighbour gap no wider than their distance. |
| TickSize.TickSizeIsUnique | frontend/static/js/main.js:466-475 | The tick size is fixed by the set of quoted prices alone. It does not depend on the order of the levels or on repeats. |
| TickSize.ShouldUseDenseMode | frontend/static/js/main.js:270-275 | With both sides quoted, dense mode holds iff the spread divided by the tick is below 10, with JavaScript's division by zero and by an infinite tick. With an empty side the spread is +Infinity, so dense mode holds iff the tick is a negative finite number. |
| TickSize.EmptySideIsNotDense | frontend/static/js/main.js:270-275 | For any tick size the estimator can return, an empty side never gives dense mode. |
| TickSize.DenseModeWithEstimatedTick | frontend/static/js/main.js:270-275 | For a tick size the estimator can return, dense mode means the tick is infinite or the spread is below ten ticks. |
| Histogram.ProfileFor | frontend/static/js/main.js:483-489 | Exactly XRP, BTC, ETH and SOL have a profile, each with a positive tick and padding. |
| Histogram.CreateBins | frontend/static/js/main.js:491-502 | The bin keys are exactly the roundings of `lo + k*tick` for every `k` with `lo + k*tick <= hi`, each with zero volumes. An infinite bound gives no bins. |
| Histogram.AssignVolumes | frontend/static/js/main.js:504-516 | A volume pass adds no key, leaves the other side's volume alone, and sets each bin to the size of the last level rounding to it, or leaves it unchanged. It assigns and never sums. |
| Histogram.LastSizeAtLast | frontend/static/js/main.js:504-509 | The last level that rounds to a bin decides its volume, whatever came before it. |
| Histogram.LastSizeAtNone | frontend/static/js/main.js:506-508 | A bin no level rounds to keeps its volume. |
| Histogram.LastSizeAtAppend | frontend/static/js/main.js:504-516 | Writing one list of levels and then another leaves what writing their concatenation leaves. |
| Histogram.CreateHistogramData | frontend/static/js/main.js:478-539 | An unknown token such as DOGE fails. A name inherited from `Object.prototype`, such as `toString`, gives the empty histogram. Otherwise the bins span the padded range between the lowest bid and the highest ask, and each holds the last bid size and the last ask size rounding to it, or 0. An empty side gives no bins. |
| Histogram.BinKeysOnGrid | frontend/static/js/main.js:500-505 | Every bin price is already rounded to the profile's decimals, so a level at that price finds its bin. |
| Histogram.BinKeysInRange | frontend/static/js/main.js:491-500 | Every bin price lies between `min(bids) - padding` and `max(asks) + padding`, widened by at most half a unit of the last decimal. |
| Histogram.FirstBinExists | frontend/static/js/main.js:491-501 | With both sides quoted and the lowest bid not above the highest ask, the bin of `min(bids) - padding` exists. |
| Histogram.RelativeTickSize | frontend/static/js/main.js:495-496 | With both sides quoted, the relative tick times the mid price is 100 ticks, and it is undefined for a zero mid. With one side empty it is 0; with both empty it is NaN. |
| Histogram.PricesWithVolume | frontend/static/js/main.js:291-293 | The filtered bin prices are exactly those with positive volume on the given side. |
| Histogram.BestPrices | frontend/static/js/main.js:289-298 | The best bid is the largest bin price with bid volume and the best ask the smallest with ask volume, each 0 when there is none. The mid price is halfway between them. |
| Numbers.Round | frontend/static/js/main.js:500 | `Math.round` gives the integer within half a unit of its argument, halves going up. |
| Numbers.RoundTo | frontend/static/js/main.js:505 | A price rounded to `d` decimals is a whole number of units of `10^-d`. |
| Numbers.Min | frontend/static/js/main.js:491 | `Math.min` of a list is an element below all others, or +Infinity for an empty list. |
| Numbers.Max | frontend/static/js/main.js:492 | `Math.max` of a list is an element above all others, or -Infinity for an empty list. |
| Numbers.RoundToIdempotent | frontend/static/js/main.js:500 | Rounding an already rounded price to the same decimals changes nothing. |
| Numbers.RoundToIsNearest | frontend/static/js/main.js:500 | Rounding to `d` decimals moves a price by at most half of `10^-d`. |
| Levels.Sort | backend/logger.py:370-373 | The sorted levels are ordered by the key and are a permutation of the input. |
| Levels.SortIsStable | backend/logger.py:370-373 | Levels with equal keys leave the sort in the order they entered it. |
| Levels.SortKeepsPrices | frontend/static/js/main.js:466-468 | Sorting keeps the set of quoted prices. |
| Globe.EmptyRegistry | frontend/static/js/globe.js:9-13 | The globe starts with no groups and no markers, so every grouped name has a marker. |
| Globe.LatLongToVector3 | frontend/static/js/globe.js:119-128 | The height is `r*cos(phi)` with `phi = (90 - lat)*pi/180`, and the horizontal part points along `theta = (lon + 180)*pi/180`. |
| Globe.HeightIgnoresLongitude | frontend/static/js/globe.js:119-127 | The height of a projected point depends on latitude and radius only. |
| Globe.NorthPole | frontend/static/js/globe.js:119-127 | Latitude 90 projects to `(0, r, 0)` for every longitude. |
| Globe.OnSphere | frontend/static/js/globe.js:119-127 | If `sin² + cos² = 1`, every projected point lies on the sphere of the given radius. |
| Globe.Offset | frontend/static/js/globe.js:138-145 | Member `index` of a group of `size` gets the angle `index*2*pi/max(8, size)`. It sits 1.5 degrees away: cosine on the longitude, sine on the latitude. |
| Globe.NamedRecord | frontend/static/js/globe.js:161-164 | The marker record is the given fields plus `name`; a `name` among the fields wins. |
| Globe.AddExchange | frontend/static/js/globe.js:130-167 | The location's group gains the name at its end and no other group changes. The new member's index is the old group size. The marker stored under the name replaces any earlier one, and no other marker changes. |
| Globe.FirstAtLocation | frontend/static/js/globe.js:136-145 | The first exchange at a location gets index 0, angle 0 and position `(lat, lon + 1.5)`. |
| Globe.FirstEightEvenlySpaced | frontend/static/js/globe.js:140 | While a location has at most eight members, member `i` sits at the angle `i*pi/4`. |
| Globe.AnglesIncrease | frontend/static/js/globe.js:136-140 | Members of one location get strictly increasing angles, all below a full turn, in the order they joined. Past eight members the spacing shrinks, but no two members share a direction. |
| Globe.TurnFractionIncreases | frontend/static/js/globe.js:140 | The fraction of a turn, `index / max(8, index + 1)`, grows strictly with the index and stays below 1. |
| Globe.NamesAt | frontend/static/js/globe.js:131-136 | A name is among a location's registered names exactly when some listing at that location carries it. |
| Globe.AddAllGroups | frontend/static/js/globe.js:131-136 | After any sequence of registrations, each group is its earlier contents followed by the names registered there, in order. |
| Globe.AddKeepsConsistent | frontend/static/js/globe.js:130-167 | Every grouped name keeps a marker after an addition. |
| Globe.AddAllKeepsConsistent | frontend/static/js/globe.js:130-167 | Every grouped name keeps a marker after any sequence of additions. |
| Globe.UpdateExchangeData | frontend/static/js/globe.js:248-253 | An existing marker's record takes the given fields and keeps all others, with its position unchanged. An unknown name changes nothing. |
| Globe.UpdateIdempotent | frontend/static/js/globe.js:248-253 | Applying the same update twice equals applying it once. |
| Logger.Replace | backend/logger.py:203 | Replacing one character with another keeps the length and changes exactly the occurrences. |
| Logger.ProductId | backend/logger.py:203 | A product id contains no slash. |
| Logger.SymbolOf | backend/logger.py:304 | A symbol read from a product id contains no dash. |
| Logger.ProductIds | backend/logger.py:203 | Each configured symbol becomes its product id, with no slash left. |
| Logger.SymbolRoundTrip | backend/logger.py:203 | A symbol without a dash comes back unchanged from its product id (the reverse conversion is at lines 304 and 330). |
| Logger.ProductIdRoundTrip | backend/logger.py:304 | A product id without a slash comes back unchanged from its symbol. |
| Logger.DashedSymbolChanges | backend/logger.py:304 | A symbol containing a dash does not survive the round trip: each dash comes back as a slash. |
| Logger.ProcessOrderbook | backend/logger.py:166-186 | A row is written iff both sides are non-empty. Its top prices and quantities come from the first levels, and the sides are stored in full. |
| Logger.TopPrice | backend/logger.py:316-317 | The recorded price of a side is its first level's price, and it is missing exactly for an empty side. |
| Logger.TopSize | backend/logger.py:180-183 | The recorded quantity of a side is its first level's size, and it is missing exactly for an empty side. |
| Logger.HandleSnapshot | backend/logger.py:301-318 | A snapshot is logged for Coinbase in San Francisco under the symbol of its product id, even with an empty side. Each top price is the first level's price, missing exactly when that side is empty. No quantities are recorded, and the sides are stored in full. |
| Logger.SnapshotRecordsBest | backend/logger.py:316-317 | A snapshot delivered best first is logged with the highest bid and the lowest ask as its top prices. |
| Logger.RemovePrice | backend/logger.py:356-357 | A size-0 change removes every level at its price and keeps every other level, with its multiplicity. |
| Logger.FirstIndexOf | backend/logger.py:359-365 | The search finds the first level at the price, or reports that there is none. |
| Logger.SetSize | backend/logger.py:359-367 | A non-zero change resizes only the first level at its price, or appends `[price, size]` when there is none. |
| Logger.ApplyChange | backend/logger.py:346-373 | A `buy` change touches only the bids and any other side touches only the asks. The touched side comes out sorted, bids descending and asks ascending. It is a permutation of the updated levels, and levels with equal prices keep their order. |
| Logger.ApplyChanges | backend/logger.py:346-373 | Changes that all touch the asks leave the bids as they were, and changes that all touch the bids leave the asks as they were. |
| Logger.ChangeTakesEffect | backend/logger.py:356-367 | After a size-0 change its price is gone from the side. After any other change the level `[price, size]` is on the side. |
| Logger.ApplyChangesOrdered | backend/logger.py:346-373 | Applying the changes of an update keeps an ordered book ordered. |
| Logger.ApplyChangeIdempotent | backend/logger.py:346-373 | A change applied twice gives the same book as applying it once. |
| Logger.TopIsBest | backend/logger.py:316-317 | On a sorted side, the recorded top price is the highest bid or the lowest ask. |
| Logger.HandleUpdate | backend/logger.py:327-391 | The intended behaviour: without a logged book nothing is written. Otherwise the changes are applied in order and the top prices of the new book are recorded. |
| Logger.AwaitPlain | backend/logger.py:333 | Awaiting a value that is not awaitable always raises. |
| Logger.HandleUpdateAsWritten | backend/logger.py:327-391 | The code as written never writes a row: the await on the synchronous query raises, and the `except` clause only logs. |
| Logger.UpdateIsLost | backend/logger.py:333 | Whenever a book was logged for the product, the intended behaviour writes a row and the code as written does not. |
| Logger.UpdateIsLostExample | backend/logger.py:333 | Resizing a logged bid of 1.0 at 100.0 to 2.0 writes a row in the intended behaviour and nothing in the code as written. |
| Logger.UpdateRecordsBest | backend/logger.py:370-383 | From an ordered book, the recorded bid and ask prices are the highest bid and the lowest ask of the updated book. |
| Search.FirstIndex | backend/logger.py:359-365 | The search finds the first element with the property, or reports that no element has it. |
| App.FirstMatch | backend/app.py:61-68 | The search finds the first row for the symbol and exchange, or reports that there is none. |
| App.Latest | backend/app.py:61-68 | An exchange keeps a quote exactly when some row is for the symbol and the exchange. |
| App.LatestExtend | backend/app.py:62-64 | Reading one more row changes an exchange's kept quote only if the exchange had none. |
| App.LatestIsNewest | backend/app.py:56-68 | Over rows in newest-first order, the kept quote is the newest one for its exchange. |
| App.GetOrderbook | backend/app.py:53-70 | The result has a key for exactly the exchanges that logged the upper-cased symbol. Each value is the bid, ask and timestamp of that exchange's first row. |
| App.Upper | backend/app.py:57 | Upper-casing keeps the length and maps exactly the letters `a` to `z` to their capitals. |
| App.UpperIdempotent | backend/app.py:57 | Upper-casing twice equals upper-casing once. |
| App.SymbolWithoutSlashMatchesNothing | backend/app.py:57 | If every logged symbol has a slash, a requested symbol without one matches no row. |
| App.Pair | backend/app.py:79 | The pair is the symbol, a slash, then the quote. |
| App.PairSplits | backend/app.py:79 | Two pairs whose quotes contain no slash are equal only if their symbols and their quotes are equal. |
| App.Visit | backend/app.py:146-157 | A row of the token's pair creates its exchange's inner map on first sighting. It records its quote unless the token already has one there; other rows change nothing. |
| App.AddToken | backend/app.py:137-157 | After the walk over one token's rows, each exchange without a quote for the token holds its first row's quote. Nothing else changes. |
| App.BackgroundTask | backend/app.py:129-157 | The board holds, for every token and exchange, exactly the first row's quote of the token's USDT pair. An exchange appears only with a quote. |
| App.Status | backend/app.py:88-101 | A response has status 200 or 404, and 404 exactly for the not-found payload. |
| App.GetExchangeOrderbook | backend/app.py:76-101 | For the pair `symbol/quote` on the exchange, the result is the first row's book and timestamp. If no row matches, it is the not-found payload naming the pair and the exchange, with status 404 exactly in that case. |

## Left out

- Rendering: canvas drawing, axis labels, log-scaled bars, the globe scene, the pulse effect, raycasting, tooltips and all DOM updates (the label showing the relative tick size, for instance). These are display, not logic.
- WebSocket, `fetch`, `setInterval`, reconnects and event listeners in the frontend; database sessions, the exchange clients and the asyncio loops in the logger; the Flask routes, the shapefile conversion and socketio emission in the server. These are I/O and concurrency. The model takes the query results as inputs and returns what would be written or sent. The one exception is `handle_update`, whose failing await is modelled.
- The signed Coinbase subscription (an ECDSA signature from a cryptography library). This is a foreign call.
- The `fetch_orderbooks` function of `backend/logger.py`, which refers to names that do not exist.
- The JSON encoding of the sides (`json.dumps` when a row is written, `json.loads` when it is read back). An entry holds the sides as level sequences, and the encoding is taken to round-trip.
- Timestamps. Their values come from the clock or the exchange. A row's timestamp is an integer, and its ISO-8601 rendering is not modelled.
- Floating point. Prices are exact reals, so the drift of the repeated `price += tickSize` in the bin loop and any rounding error of `Math.pow` or division are not modelled.
- TickSize.ShouldUseDenseMode: no NaN value is modelled. The test's NaN cases (`Infinity / Infinity`, or `0 / 0`) compare false with 10, which the model returns directly. Nothing in the frontend calls this function.
- Histogram.CreateHistogramData: the source's `tickSize` argument is never read (the profile's tick is used), so the model has no such argument. The unknown-token error models the `TypeError` thrown when `config.padding` is read from `undefined`. `InheritedNames` lists the standard members of `Object.prototype`; properties a page script or library adds to it are not modelled.
- Histogram.RelativeTickSize: `None` stands for every result that is not a finite number: NaN with both sides empty, and an infinity for a zero mid price.
- Globe.LatLongToVector3: sine, cosine and pi are arbitrary, so no numeric value of a projected point is stated. The properties hold for any functions with `sin 0 = 0` and `cos 0 = 1`, except `Globe.OnSphere`, which also assumes `sin² + cos² = 1`.
- Logger.HandleUpdate: states the evidently intended behaviour. The code as written writes nothing on any input; this is modelled by `Logger.HandleUpdateAsWritten` and recorded under "## Findings".
- App.GetOrderbook: `str.upper` is modelled on ASCII letters only.
- App.Upper: only ASCII letters are upper-cased, and the length is always kept. Python's `str.upper` also maps other letters, and some of them to several characters (`'ß'.upper()` is `'SS'`).
- Parsing of prices and sizes. `Number(price)` in the frontend and `float(price)` in the logger read decimal strings; the model takes the parsed values as exact reals, and malformed strings (which give NaN or raise) are not modelled.
- App.GetExchangeOrderbook: the 500 response for a database error is not modelled.
- The ordering of rows with equal timestamps, which the database leaves open. The model takes whichever order the query returns.

## Findings

| source | as written | input that shows it | evidently intended | confidence | as-written member | corrected member |
|---|---|---|---|---|---|---|
| backend/logger.py:333 | `latest = await self.session.query(...).first()` on the synchronous session from line 132; the await raises `TypeError`, lines 389-390 log it, and no row is written | any update message for a product with a logged book, e.g. a `buy` change resizing the bid at 100.0 to 2.0 | read the latest book without `await` (or with an async session) and log the updated book | high (not executed) | Logger.HandleUpdateAsWritten, Logger.UpdateIsLost, Logger.UpdateIsLostExample | Logger.HandleUpdate, Logger.UpdateRecordsBest |
