/**
 * The three in-memory hubs the proxies publish into and the HTTP layer reads
 * from (app/trade_hub.py, app/depth_hub.py, app/quote_hub.py). Each hub is a
 * value here and each operation returns the hub it leaves behind; the asyncio
 * lock that serialises the operations is not modelled, since one operation at a
 * time is exactly what it guarantees.
 */
module Hubs {
  import opened Wrappers

  // ----- trade hub -----

  /** A per-symbol `deque(maxlen=400)`. */
  const TradeCapacity: nat := 400

  type TradeHub<T> = map<string, seq<T>>

  /** What a bounded deque keeps of `s`: its newest `TradeCapacity` items. */
  function Newest<T>(s: seq<T>): (r: seq<T>)
    ensures |r| <= TradeCapacity
  {
    if |s| <= TradeCapacity then s else s[|s| - TradeCapacity..]
  }

  function Buffer<T>(hub: TradeHub<T>, symbol: string): seq<T> {
    if symbol in hub then hub[symbol] else []
  }

  /**
   * `add`: append to the symbol's buffer, creating it on first use; a full
   * buffer drops its oldest trade. The new trade is last, the buffer grows by one
   * up to the capacity, everything it kept is the tail of the old buffer followed
   * by the new trade, and no other symbol's buffer changes.
   */
  function AddTrade<T>(hub: TradeHub<T>, symbol: string, trade: T): (r: TradeHub<T>)
    ensures symbol in r && r.Keys == hub.Keys + {symbol}
    ensures |r[symbol]| == if |Buffer(hub, symbol)| < TradeCapacity then |Buffer(hub, symbol)| + 1 else TradeCapacity
    ensures r[symbol][|r[symbol]| - 1] == trade
    ensures r[symbol][..|r[symbol]| - 1] == Buffer(hub, symbol)[|Buffer(hub, symbol)| + 1 - |r[symbol]|..]
    ensures forall s :: s in hub && s != symbol ==> s in r && r[s] == hub[s]
  {
    var kept := Newest(Buffer(hub, symbol) + [trade]);
    hub[symbol := kept]
  }

  /** Bounding the buffer before each append keeps the same as bounding once at the end. */
  lemma NewestSnoc<T>(s: seq<T>, t: T)
    ensures Newest(Newest(s) + [t]) == Newest(s + [t])
  {
    if |s| > TradeCapacity {
      assert Newest(s) + [t] == (s + [t])[|s| - TradeCapacity..];
      assert Newest(s + [t]) == (s + [t])[|s| + 1 - TradeCapacity..];
    }
  }

  function AddTrades<T>(hub: TradeHub<T>, symbol: string, trades: seq<T>): TradeHub<T>
    decreases |trades|
  {
    if |trades| == 0 then hub
    else AddTrades(AddTrade(hub, symbol, trades[0]), symbol, trades[1..])
  }

  /**
   * The buffer after any run of adds is the newest 400 of everything ever added
   * for that symbol, in arrival order, starting from any buffer a deque can hold.
   */
  lemma {:induction false} AddTradesKeepsNewest<T>(hub: TradeHub<T>, symbol: string, trades: seq<T>)
    requires |Buffer(hub, symbol)| <= TradeCapacity
    ensures Buffer(AddTrades(hub, symbol, trades), symbol) == Newest(Buffer(hub, symbol) + trades)
    decreases |trades|
  {
    var b := Buffer(hub, symbol);
    if |trades| == 0 {
      assert b + trades == b;
    } else {
      var next := AddTrade(hub, symbol, trades[0]);
      var b' := Newest(b + [trades[0]]);
      BufferAfterAdd(hub, symbol, trades[0]);
      AddTradesKeepsNewest(next, symbol, trades[1..]);
      NewestAppend(b', b + [trades[0]], trades[1..]);
      ConsSplit(b, trades);
    }
  }

  lemma ConsSplit<T>(b: seq<T>, s: seq<T>)
    requires |s| > 0
    ensures b + [s[0]] + s[1..] == b + s
  {
    assert [s[0]] + s[1..] == s;
  }

  lemma BufferAfterAdd<T>(hub: TradeHub<T>, symbol: string, trade: T)
    ensures Buffer(AddTrade(hub, symbol, trade), symbol) == Newest(Buffer(hub, symbol) + [trade])
  {
  }

  /** Adds for one symbol never touch another symbol's buffer. */
  lemma {:induction false} AddTradesOthersUnchanged<T>(hub: TradeHub<T>, symbol: string, trades: seq<T>, other: string)
    requires other != symbol
    ensures Buffer(AddTrades(hub, symbol, trades), other) == Buffer(hub, other)
    decreases |trades|
  {
    if |trades| > 0 {
      AddTradesOthersUnchanged(AddTrade(hub, symbol, trades[0]), symbol, trades[1..], other);
    }
  }

  /** Appending to two sequences with the same newest part leaves the same newest part. */
  lemma NewestAppend<T>(a: seq<T>, b: seq<T>, c: seq<T>)
    requires a == Newest(b)
    ensures Newest(a + c) == Newest(b + c)
    decreases |c|
  {
    if |c| > 0 {
      var c' := c[..|c| - 1];
      var t := c[|c| - 1];
      NewestAppend(a, b, c');
      assert a + c == (a + c') + [t];
      assert b + c == (b + c') + [t];
      NewestSnoc(a + c', t);
      NewestSnoc(b + c', t);
    }
  }

  /** Python's `s[-limit:]`, for any integer `limit`. */
  function TailSlice<T>(s: seq<T>, limit: int): (r: seq<T>)
    ensures |r| <= |s|
    ensures limit > 0 ==> |r| == if limit <= |s| then limit else |s|
    ensures limit >= 0 ==> r == s[|s| - |r|..]
    ensures limit == 0 ==> r == s
  {
    var start :=
      if limit > 0 then (if limit >= |s| then 0 else |s| - limit)
      else (if -limit >= |s| then |s| else -limit);
    s[start..]
  }

  function Reverse<T>(s: seq<T>): (r: seq<T>)
    ensures |r| == |s|
    ensures forall i :: 0 <= i < |s| ==> r[i] == s[|s| - 1 - i]
    decreases |s|
  {
    if |s| == 0 then [] else [s[|s| - 1]] + Reverse(s[..|s| - 1])
  }

  /**
   * `get_last`: the last `limit` trades, newest first. For a positive limit the
   * answer holds min(limit, buffer length) trades and trade `i` of it is the
   * `i`-th newest; a limit of 0 gives the whole buffer, newest first; an unknown
   * symbol or an empty buffer gives nothing.
   */
  function GetLastTrades<T>(hub: TradeHub<T>, symbol: string, limit: int): (r: seq<T>)
    ensures symbol !in hub ==> r == []
    ensures limit > 0 ==> |r| == if limit <= |Buffer(hub, symbol)| then limit else |Buffer(hub, symbol)|
    ensures limit == 0 ==> |r| == |Buffer(hub, symbol)|
    ensures limit >= 0 ==> forall i :: 0 <= i < |r| ==> r[i] == Buffer(hub, symbol)[|Buffer(hub, symbol)| - 1 - i]
  {
    var dq := Buffer(hub, symbol);
    if |dq| == 0 then [] else Reverse(TailSlice(dq, limit))
  }

  /** A trade just added is the first one `get_last` returns, for any positive limit. */
  lemma NewestFirst<T>(hub: TradeHub<T>, symbol: string, trade: T, limit: int)
    requires limit > 0
    ensures var r := GetLastTrades(AddTrade(hub, symbol, trade), symbol, limit);
      |r| >= 1 && r[0] == trade
  {
  }

  /** A negative limit drops that many of the oldest trades instead of keeping the newest. */
  lemma NegativeLimitDropsOldest<T>(hub: TradeHub<T>, symbol: string, limit: int)
    requires limit < 0 && -limit < |Buffer(hub, symbol)|
    ensures |GetLastTrades(hub, symbol, limit)| == |Buffer(hub, symbol)| + limit
  {
  }

  // ----- depth hub -----

  /** The latest levels of a symbol and the millisecond clock reading when they were stored. */
  datatype DepthEntry<L> = DepthEntry(levels: seq<L>, ts: int)

  type DepthHub<L> = map<string, DepthEntry<L>>

  /** `int(time()*1000)`: the wall clock, given in seconds, truncated to milliseconds. */
  function MillisOf(nowSeconds: real): int {
    (nowSeconds * 1000 as real).Floor
  }

  /**
   * `set`: replace the symbol's levels and stamp them; `get_last` then returns
   * exactly those levels and `get_ts` that stamp, for the same symbol, and every
   * other symbol reads as before.
   */
  function SetDepth<L>(hub: DepthHub<L>, symbol: string, levels: seq<L>, nowMs: int): (r: DepthHub<L>)
    ensures GetLastDepth(r, symbol) == levels && GetTs(r, symbol) == Some(nowMs)
    ensures forall s :: s != symbol ==> GetLastDepth(r, s) == GetLastDepth(hub, s) && GetTs(r, s) == GetTs(hub, s)
  {
    hub[symbol := DepthEntry(levels, nowMs)]
  }

  /** `get_last`: the stored levels, or none for a symbol never set. */
  function GetLastDepth<L>(hub: DepthHub<L>, symbol: string): seq<L> {
    if symbol in hub then hub[symbol].levels else []
  }

  /** `get_ts`: the stamp of the stored levels, or `None` for a symbol never set. */
  function GetTs<L>(hub: DepthHub<L>, symbol: string): Option<int> {
    if symbol in hub then Some(hub[symbol].ts) else None
  }

  /** A symbol has a stamp exactly when it was set; only the latest set is visible. */
  lemma DepthLatestWins<L>(hub: DepthHub<L>, symbol: string, a: seq<L>, b: seq<L>, t1: int, t2: int)
    ensures SetDepth(SetDepth(hub, symbol, a, t1), symbol, b, t2) == SetDepth(hub, symbol, b, t2)
  {
  }

  /** A time in seconds becomes the whole number of milliseconds at or just below it. */
  lemma MillisTruncates(nowSeconds: real)
    ensures MillisOf(nowSeconds) as real <= nowSeconds * 1000 as real < MillisOf(nowSeconds) as real + 1 as real
  {
  }

  // ----- quote hub -----

  type QuoteHub<Q> = map<string, Q>

  /** `set`: the symbol's quote becomes `q`; no other symbol's quote changes. */
  function SetQuote<Q>(hub: QuoteHub<Q>, symbol: string, q: Q): (r: QuoteHub<Q>)
    ensures GetQuote(r, symbol) == Some(q)
    ensures forall s :: s != symbol ==> GetQuote(r, s) == GetQuote(hub, s)
    ensures r.Keys == hub.Keys + {symbol}
  {
    hub[symbol := q]
  }

  /** `get`: the symbol's quote, or `None`. */
  function GetQuote<Q>(hub: QuoteHub<Q>, symbol: string): Option<Q> {
    if symbol in hub then Some(hub[symbol]) else None
  }

  /**
   * `snapshot`: a copy of the whole map. Every symbol in it answers `get` with
   * the quote it maps to, and every symbol `get` knows is in it.
   */
  function Snapshot<Q>(hub: QuoteHub<Q>): (r: map<string, Q>)
    ensures forall s :: s in r <==> GetQuote(hub, s).Some?
    ensures forall s :: s in r ==> GetQuote(hub, s) == Some(r[s])
  {
    map s | s in hub :: hub[s]
  }

  /** After two sets of one symbol, the snapshot holds the second quote for it. */
  lemma SnapshotAfterSets<Q>(hub: QuoteHub<Q>, symbol: string, a: Q, b: Q)
    ensures Snapshot(SetQuote(SetQuote(hub, symbol, a), symbol, b))[symbol] == b
  {
  }
}
