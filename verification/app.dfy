/**
 * The read side of backend/app.py: the latest quote of every exchange for
 * one symbol (`get_orderbook`), the latest quote of every exchange for
 * each dashboard token (`background_task`), and the latest full book of one
 * exchange for one pair (`get_exchange_orderbook`).
 *
 * Each reads the order-book table through a query ordered newest first;
 * the rows are given in the order that query returns them, and the
 * filters the query applies are part of the model. A timestamp is an
 * integer; its ISO-8601 rendering is not modelled.
 */
module App {
  import opened Wrappers
  import opened Levels
  import Logger
  import opened Search

  /** A logged row with the time it was written. */
  datatype Row = Row(entry: Logger.Entry, timestamp: int)

  /** What the endpoints report per exchange: the top-of-book prices and when they were logged. */
  datatype Quote = Quote(bidPrice: Option<real>, askPrice: Option<real>, timestamp: int)

  function QuoteOf(row: Row): Quote
  {
    Quote(row.entry.bidPrice, row.entry.askPrice, row.timestamp)
  }

  /** The query order: no row is newer than one before it. */
  ghost predicate NewestFirst(rows: seq<Row>)
  {
    forall i, j :: 0 <= i < j < |rows| ==> rows[j].timestamp <= rows[i].timestamp
  }

  predicate Matches(row: Row, symbol: string, exchange: string)
  {
    row.entry.symbol == symbol && row.entry.exchange == exchange
  }

  /** The first row logged for `symbol` by `exchange`, if any. */
  function FirstMatch(rows: seq<Row>, symbol: string, exchange: string): (r: Option<nat>)
    ensures r.None? <==> forall i :: 0 <= i < |rows| ==> !Matches(rows[i], symbol, exchange)
    ensures r.Some? ==> r.value < |rows| && Matches(rows[r.value], symbol, exchange)
                        && forall j :: 0 <= j < r.value ==> !Matches(rows[j], symbol, exchange)
  {
    FirstIndex(rows, (row: Row) => Matches(row, symbol, exchange))
  }

  /** The quote of the first row for `symbol` and `exchange`: the one the endpoints keep. */
  function Latest(rows: seq<Row>, symbol: string, exchange: string): (q: Option<Quote>)
    ensures q.Some? <==> exists i :: 0 <= i < |rows| && Matches(rows[i], symbol, exchange)
  {
    match FirstMatch(rows, symbol, exchange)
    case None => None
    case Some(i) => Some(QuoteOf(rows[i]))
  }

  /** Reading one more row changes the first match only when there was none yet. */
  lemma LatestExtend(rows: seq<Row>, i: nat, symbol: string, exchange: string)
    requires i < |rows|
    ensures Latest(rows[..i + 1], symbol, exchange)
            == if Latest(rows[..i], symbol, exchange).Some? then Latest(rows[..i], symbol, exchange)
               else if Matches(rows[i], symbol, exchange) then Some(QuoteOf(rows[i]))
               else None
  {
    var before := FirstMatch(rows[..i], symbol, exchange);
    var after := FirstMatch(rows[..i + 1], symbol, exchange);
    assert forall j :: 0 <= j < i ==> rows[..i + 1][j] == rows[..i][j];
    match before
    case Some(k) =>
      assert after.Some?;
      assert after.value == k;
    case None =>
      if Matches(rows[i], symbol, exchange) {
        assert rows[..i + 1][i] == rows[i];
        assert after == Some(i);
      }
  }

  /**
   * Over rows in query order, the kept quote is the newest one logged for
   * its symbol and exchange: later rows for that exchange are never newer.
   */
  lemma LatestIsNewest(rows: seq<Row>, symbol: string, exchange: string)
    requires NewestFirst(rows)
    requires Latest(rows, symbol, exchange).Some?
    ensures forall j :: 0 <= j < |rows| && Matches(rows[j], symbol, exchange)
                        ==> rows[j].timestamp <= Latest(rows, symbol, exchange).value.timestamp
  {
    var i := FirstMatch(rows, symbol, exchange).value;
    forall j | 0 <= j < |rows| && Matches(rows[j], symbol, exchange)
      ensures rows[j].timestamp <= rows[i].timestamp
    {
    }
  }

  /** `s.upper()` on ASCII letters; every other character is left alone. */
  function Upper(s: string): (r: string)
    ensures |r| == |s|
    ensures forall i :: 0 <= i < |s| ==>
      r[i] == if 'a' <= s[i] <= 'z' then (s[i] as int - 32) as char else s[i]
  {
    if |s| == 0 then []
    else [if 'a' <= s[0] <= 'z' then (s[0] as int - 32) as char else s[0]] + Upper(s[1..])
  }

  /** Upper-casing twice is upper-casing once. */
  lemma UpperIdempotent(s: string)
    ensures Upper(Upper(s)) == Upper(s)
  {
    var once := Upper(s);
    var twice := Upper(once);
    forall i | 0 <= i < |s| ensures twice[i] == once[i] {
      if 'a' <= s[i] <= 'z' {
        assert 'A' <= once[i] <= 'Z';
      }
    }
  }

  /**
   * `get_orderbook(symbol)`: for each exchange that logged the upper-cased
   * symbol, the quote of its newest row; later rows of an exchange are
   * skipped, and no other exchange appears.
   */
  method GetOrderbook(symbol: string, table: seq<Row>) returns (data: map<string, Quote>)
    ensures forall ex :: ex in data <==> Latest(table, Upper(symbol), ex).Some?
    ensures forall ex :: ex in data ==> data[ex] == Latest(table, Upper(symbol), ex).value
  {
    var wanted := Upper(symbol);
    data := map[];
    var i := 0;
    while i < |table|
      invariant 0 <= i <= |table|
      invariant forall ex :: ex in data <==> Latest(table[..i], wanted, ex).Some?
      invariant forall ex :: ex in data ==> data[ex] == Latest(table[..i], wanted, ex).value
    {
      var row := table[i];
      if row.entry.symbol == wanted && row.entry.exchange !in data {
        data := data[row.entry.exchange := QuoteOf(row)];
      }
      forall ex ensures Latest(table[..i + 1], wanted, ex)
                        == if Latest(table[..i], wanted, ex).Some? then Latest(table[..i], wanted, ex)
                           else if Matches(table[i], wanted, ex) then Some(QuoteOf(table[i]))
                           else None
      {
        LatestExtend(table, i, wanted, ex);
      }
      i := i + 1;
    }
    assert table[..|table|] == table;
  }

  /** Logged symbols all carry a slash, so a symbol without one matches no row. */
  lemma SymbolWithoutSlashMatchesNothing(symbol: string, table: seq<Row>, exchange: string)
    requires '/' !in symbol
    requires forall i :: 0 <= i < |table| ==> '/' in table[i].entry.symbol
    ensures Latest(table, Upper(symbol), exchange) == None
  {
    var wanted := Upper(symbol);
    assert '/' !in wanted by {
      forall i | 0 <= i < |wanted| ensures wanted[i] != '/' {
        assert symbol[i] != '/';
      }
    }
    forall i | 0 <= i < |table| ensures !Matches(table[i], wanted, exchange) {
      assert '/' in table[i].entry.symbol;
    }
  }

  /** `f"{symbol}/{quote}"`. */
  function Pair(symbol: string, quote: string): (p: string)
    ensures |p| == |symbol| + 1 + |quote|
    ensures p[..|symbol|] == symbol && p[|symbol|] == '/' && p[|symbol| + 1..] == quote
  {
    symbol + "/" + quote
  }

  /** A pair splits back into its symbol and quote at its last slash when the quote has none. */
  lemma PairSplits(symbol: string, quote: string, symbol': string, quote': string)
    requires '/' !in quote && '/' !in quote'
    requires Pair(symbol, quote) == Pair(symbol', quote')
    ensures symbol == symbol' && quote == quote'
  {
    var p := Pair(symbol, quote);
    assert forall k :: |symbol| < k < |p| ==> p[k] == quote[k - |symbol| - 1];
    assert forall k :: |symbol'| < k < |p| ==> p[k] == quote'[k - |symbol'| - 1];
    assert |symbol| == |symbol'|;
  }

  /** The tokens the dashboard follows, each quoted in USDT. */
  const Tokens: seq<string> := ["BTC", "ETH", "SOL", "XRP"]
  const Stablecoin: string := "USDT"

  /** The nested map of `background_task`: exchange, then token, to quote. */
  type Board = map<string, map<string, Quote>>

  /** The quote a board holds for `token` on `ex`, if any. */
  function Held(board: Board, ex: string, token: string): Option<Quote>
  {
    if ex in board && token in board[ex] then Some(board[ex][token]) else None
  }

  /**
   * `board` holds, for the tokens `tokens`, exactly the latest quotes of
   * `table`, and lists an exchange only with at least one quote.
   */
  ghost predicate BoardOf(board: Board, table: seq<Row>, tokens: seq<string>)
  {
    && (forall ex, t :: Held(board, ex, t) == if t in tokens then Latest(table, Pair(t, Stablecoin), ex) else None)
    && (forall ex :: ex in board ==> exists t :: Held(board, ex, t).Some?)
  }

  /**
   * `r` is `board` after the rows `rows` of `token`'s pair were walked:
   * other tokens are as they were, and `token` gains, on every exchange
   * without a quote for it, the quote of the exchange's first row.
   */
  ghost predicate Extends(r: Board, board: Board, token: string, rows: seq<Row>)
  {
    && (forall ex :: ex in r <==> ex in board || Latest(rows, Pair(token, Stablecoin), ex).Some?)
    && (forall ex, t :: t != token ==> Held(r, ex, t) == Held(board, ex, t))
    && (forall ex :: Held(r, ex, token) == if Held(board, ex, token).Some? then Held(board, ex, token)
                                           else Latest(rows, Pair(token, Stablecoin), ex))
  }

  /**
   * One row of a token's walk: a row of the token's pair creates its
   * exchange's inner map if there is none and records its quote unless the
   * token already has one there.
   */
  function Visit(board: Board, token: string, row: Row): (r: Board)
    ensures row.entry.symbol != Pair(token, Stablecoin) ==> r == board
    ensures row.entry.symbol == Pair(token, Stablecoin) ==>
      && r.Keys == board.Keys + {row.entry.exchange}
      && forall ex, t :: Held(r, ex, t)
                         == if ex == row.entry.exchange && t == token && Held(board, ex, t).None?
                            then Some(QuoteOf(row)) else Held(board, ex, t)
  {
    if row.entry.symbol == Pair(token, Stablecoin) then
      var ex := row.entry.exchange;
      var created := if ex in board then board else board[ex := map[]];
      if token in created[ex] then created
      else created[ex := created[ex][token := QuoteOf(row)]]
    else board
  }

  /** `LatestExtend` for every exchange at once. */
  lemma LatestExtendAll(rows: seq<Row>, i: nat, symbol: string)
    requires i < |rows|
    ensures forall ex :: Latest(rows[..i + 1], symbol, ex)
                         == if Latest(rows[..i], symbol, ex).Some? then Latest(rows[..i], symbol, ex)
                            else if Matches(rows[i], symbol, ex) then Some(QuoteOf(rows[i]))
                            else None
  {
    forall ex ensures Latest(rows[..i + 1], symbol, ex)
                      == if Latest(rows[..i], symbol, ex).Some? then Latest(rows[..i], symbol, ex)
                         else if Matches(rows[i], symbol, ex) then Some(QuoteOf(rows[i]))
                         else None
    {
      LatestExtend(rows, i, symbol, ex);
    }
  }

  /** Visiting the next row lists exactly the exchanges seen so far. */
  lemma VisitKeys(r: Board, board: Board, token: string, rows: seq<Row>, i: nat)
    requires i < |rows| && Extends(r, board, token, rows[..i])
    ensures forall ex :: ex in Visit(r, token, rows[i]) <==>
                         ex in board || Latest(rows[..i + 1], Pair(token, Stablecoin), ex).Some?
  {
    LatestExtendAll(rows, i, Pair(token, Stablecoin));
  }

  /** Visiting the next row gives the token the quote of each exchange's first row so far. */
  lemma VisitToken(r: Board, board: Board, token: string, rows: seq<Row>, i: nat)
    requires i < |rows| && Extends(r, board, token, rows[..i])
    ensures forall ex :: Held(Visit(r, token, rows[i]), ex, token)
                         == if Held(board, ex, token).Some? then Held(board, ex, token)
                            else Latest(rows[..i + 1], Pair(token, Stablecoin), ex)
  {
    var pair := Pair(token, Stablecoin);
    var v := Visit(r, token, rows[i]);
    var e := rows[i].entry.exchange;
    LatestExtendAll(rows, i, pair);
    forall ex ensures Held(v, ex, token) == if Held(board, ex, token).Some? then Held(board, ex, token)
                                            else Latest(rows[..i + 1], pair, ex)
    {
      if rows[i].entry.symbol == pair && ex == e {
        assert Held(v, ex, token) == if Held(r, ex, token).None? then Some(QuoteOf(rows[i])) else Held(r, ex, token);
      }
    }
  }

  /** Visiting the next row extends the walk by that row. */
  lemma VisitStep(r: Board, board: Board, token: string, rows: seq<Row>, i: nat)
    requires i < |rows| && Extends(r, board, token, rows[..i])
    ensures Extends(Visit(r, token, rows[i]), board, token, rows[..i + 1])
  {
    VisitKeys(r, board, token, rows, i);
    VisitToken(r, board, token, rows, i);
  }

  /**
   * One token of `background_task`: walk the rows newest first, keeping
   * the first quote of the token's pair per exchange.
   */
  method AddToken(board: Board, token: string, table: seq<Row>) returns (r: Board)
    ensures Extends(r, board, token, table)
  {
    r := board;
    var i := 0;
    while i < |table|
      invariant 0 <= i <= |table|
      invariant Extends(r, board, token, table[..i])
    {
      VisitStep(r, board, token, table, i);
      r := Visit(r, token, table[i]);
      i := i + 1;
    }
    assert table[..|table|] == table;
  }

  /** A walk of one more token extends a board of latest quotes by that token. */
  lemma AddTokenExtendsBoard(board: Board, r: Board, table: seq<Row>, tokens: seq<string>, token: string)
    requires BoardOf(board, table, tokens)
    requires Extends(r, board, token, table)
    ensures BoardOf(r, table, tokens + [token])
  {
    var ts := tokens + [token];
    assert forall t :: t in ts <==> t in tokens || t == token;
    forall ex | ex in r ensures exists t :: Held(r, ex, t).Some? {
      if ex in board {
        var t :| Held(board, ex, t).Some?;
        if t != token {
          assert Held(r, ex, t).Some?;
        } else {
          assert Held(r, ex, token).Some?;
        }
      } else {
        assert Held(r, ex, token).Some?;
      }
    }
  }

  /**
   * `background_task`, one round: for every token and every exchange that
   * logged the token's USDT pair, the quote of the newest row. An exchange
   * appears only with at least one token, and a token only where it was
   * logged.
   */
  method BackgroundTask(table: seq<Row>) returns (board: Board)
    ensures BoardOf(board, table, Tokens)
  {
    board := map[];
    var k := 0;
    while k < |Tokens|
      invariant 0 <= k <= |Tokens|
      invariant BoardOf(board, table, Tokens[..k])
    {
      var before := board;
      board := AddToken(board, Tokens[k], table);
      AddTokenExtendsBoard(before, board, table, Tokens[..k], Tokens[k]);
      assert Tokens[..k + 1] == Tokens[..k] + [Tokens[k]];
      k := k + 1;
    }
    assert Tokens[..|Tokens|] == Tokens;
  }

  /** The answer of `get_exchange_orderbook`: the newest full book, or a not-found payload with status 404. */
  datatype Response =
    | Found(bids: seq<Level>, asks: seq<Level>, timestamp: int, symbol: string, exchange: string)
    | NotFound(error: string, symbol: string, exchange: string)

  /** The HTTP status of a response. */
  function Status(r: Response): (code: int)
    ensures code == 200 || code == 404
    ensures code == 404 <==> r.NotFound?
  {
    if r.Found? then 200 else 404
  }

  /**
   * `get_exchange_orderbook(symbol, quote, exchange)`: the newest row for
   * the pair `symbol/quote` on `exchange`, in full, or the not-found
   * payload naming the pair and the exchange.
   */
  function GetExchangeOrderbook(symbol: string, quote: string, exchange: string, table: seq<Row>): (r: Response)
    ensures r.symbol == Pair(symbol, quote) && r.exchange == exchange
    ensures r.NotFound? <==> forall i :: 0 <= i < |table| ==> !Matches(table[i], Pair(symbol, quote), exchange)
    ensures Status(r) == 404 <==> forall i :: 0 <= i < |table| ==> !Matches(table[i], Pair(symbol, quote), exchange)
    ensures r.NotFound? ==> r.error == "No data found for " + Pair(symbol, quote) + " on " + exchange
    ensures r.Found? ==>
      exists i :: && 0 <= i < |table|
                  && Matches(table[i], Pair(symbol, quote), exchange)
                  && (forall j :: 0 <= j < i ==> !Matches(table[j], Pair(symbol, quote), exchange))
                  && r.bids == table[i].entry.bids && r.asks == table[i].entry.asks
                  && r.timestamp == table[i].timestamp
  {
    var pair := Pair(symbol, quote);
    match FirstMatch(table, pair, exchange)
    case None => NotFound("No data found for " + pair + " on " + exchange, pair, exchange)
    case Some(i) =>
      var e := table[i].entry;
      Found(e.bids, e.asks, table[i].timestamp, e.symbol, e.exchange)
  }

  /** The full book served for a pair carries the same timestamp and prices' source row as the quote the board keeps. */
  lemma ExchangeOrderbookAgreesWithLatest(symbol: string, quote: string, exchange: string, table: seq<Row>)
    ensures var r := GetExchangeOrderbook(symbol, quote, exchange, table);
            var q := Latest(table, Pair(symbol, quote), exchange);
            && (r.Found? <==> q.Some?)
            && (r.Found? ==> r.timestamp == q.value.timestamp)
  {
  }
}
