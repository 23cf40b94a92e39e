/**
 * The row alignment of `decode_depth_snapshot` (app/depth_parser.py): the parsed
 * bid and ask ladders, best price first, become a table of ten levels with the
 * bid and the ask of the same level side by side. The protobuf parse itself is a
 * parameter, and so is the two-decimal formatting of prices.
 */
module Depth {
  import opened Wrappers
  import opened Bytes

  /** One ladder entry as the generated message class exposes it. */
  datatype Entry<P> = Entry(orders: int, qty: int, price: P)

  /** One table row; a side beyond the end of its ladder is all `None`. */
  datatype Row = Row(
    level: nat,
    bidOrder: Option<int>, bidQty: Option<int>, bidPrice: Option<string>,
    askPrice: Option<string>, askQty: Option<int>, askOrder: Option<int>)

  /** The table always has this many rows. */
  const Levels: nat := 10

  function Max(a: nat, b: nat): nat {
    if a >= b then a else b
  }

  function Min(a: nat, b: nat): nat {
    if a <= b then a else b
  }

  /** Row `i`: level `i + 1`, with entry `i` of each ladder that is long enough. */
  function RowAt<P>(bids: seq<Entry<P>>, asks: seq<Entry<P>>, i: nat, fmt: P -> string): Row {
    var bid := if i < |bids| then Some(bids[i]) else None;
    var ask := if i < |asks| then Some(asks[i]) else None;
    Row(i + 1,
      if bid.Some? then Some(bid.value.orders) else None,
      if bid.Some? then Some(bid.value.qty) else None,
      if bid.Some? then Some(fmt(bid.value.price)) else None,
      if ask.Some? then Some(fmt(ask.value.price)) else None,
      if ask.Some? then Some(ask.value.qty) else None,
      if ask.Some? then Some(ask.value.orders) else None)
  }

  /**
   * The loop `for i in range(min(max(len(bids), len(asks), 10), 10))`. The table
   * has ten rows whatever the ladders' lengths; row `i` is level `i + 1`; a side's
   * columns are empty exactly when its ladder has no entry `i`, and otherwise
   * carry entry `i`'s orders and quantity unchanged and its formatted price.
   */
  function AlignDepth<P>(bids: seq<Entry<P>>, asks: seq<Entry<P>>, fmt: P -> string): (rows: seq<Row>)
    ensures |rows| == Levels
    ensures forall i :: 0 <= i < |rows| ==> rows[i].level == i + 1
    ensures forall i :: 0 <= i < |rows| ==>
      && (rows[i].bidOrder.None? <==> i >= |bids|)
      && (rows[i].bidQty.None? <==> i >= |bids|)
      && (rows[i].bidPrice.None? <==> i >= |bids|)
      && (rows[i].askPrice.None? <==> i >= |asks|)
      && (rows[i].askQty.None? <==> i >= |asks|)
      && (rows[i].askOrder.None? <==> i >= |asks|)
    ensures forall i :: 0 <= i < |rows| && i < |bids| ==>
      rows[i].bidOrder == Some(bids[i].orders) && rows[i].bidQty == Some(bids[i].qty)
      && rows[i].bidPrice == Some(fmt(bids[i].price))
    ensures forall i :: 0 <= i < |rows| && i < |asks| ==>
      rows[i].askOrder == Some(asks[i].orders) && rows[i].askQty == Some(asks[i].qty)
      && rows[i].askPrice == Some(fmt(asks[i].price))
  {
    var n := Min(Max(Max(|bids|, |asks|), Levels), Levels);
    seq(n, i requires 0 <= i < n => RowAt(bids, asks, i, fmt))
  }

  /** The first `Levels` entries of a ladder. */
  function Top<P>(s: seq<Entry<P>>): seq<Entry<P>> {
    if |s| <= Levels then s else s[..Levels]
  }

  /** Entries from index 10 on never reach the table: only the top ten of each ladder count. */
  lemma OnlyTopTenCount<P>(bids: seq<Entry<P>>, asks: seq<Entry<P>>, fmt: P -> string)
    ensures AlignDepth(bids, asks, fmt) == AlignDepth(Top(bids), Top(asks), fmt)
  {
    var a, b := AlignDepth(bids, asks, fmt), AlignDepth(Top(bids), Top(asks), fmt);
    forall i | 0 <= i < Levels
      ensures a[i] == b[i]
    {
      assert i < |bids| <==> i < |Top(bids)|;
      assert i < |asks| <==> i < |Top(asks)|;
    }
  }

  /** The bid side read back from the table, best first, as far as it goes. */
  function BidsOf(rows: seq<Row>): seq<(int, int, string)>
    decreases |rows|
  {
    if |rows| == 0 || rows[0].bidOrder.None? || rows[0].bidQty.None? || rows[0].bidPrice.None? then []
    else [(rows[0].bidOrder.value, rows[0].bidQty.value, rows[0].bidPrice.value)] + BidsOf(rows[1..])
  }

  /** The table gives back the top ten bids in order: nothing is lost, reordered or invented. */
  lemma BidsRoundTrip<P>(bids: seq<Entry<P>>, asks: seq<Entry<P>>, fmt: P -> string)
    ensures var top := Top(bids);
      BidsOf(AlignDepth(bids, asks, fmt)) == seq(|top|, i requires 0 <= i < |top| => (top[i].orders, top[i].qty, fmt(top[i].price)))
  {
    var rows := AlignDepth(bids, asks, fmt);
    var top := Top(bids);
    BidsOfFrom(rows, bids, fmt, 0);
    assert rows[0..] == rows;
  }

  lemma {:induction false} BidsOfFrom<P>(rows: seq<Row>, bids: seq<Entry<P>>, fmt: P -> string, k: nat)
    requires k <= |rows|
    requires forall i :: 0 <= i < |rows| ==> (rows[i].bidOrder.None? <==> i >= |bids|)
    requires forall i :: 0 <= i < |rows| && i < |bids| ==>
      rows[i].bidOrder == Some(bids[i].orders) && rows[i].bidQty == Some(bids[i].qty)
      && rows[i].bidPrice == Some(fmt(bids[i].price))
    ensures var m := Min(|rows|, |bids|);
      BidsOf(rows[k..]) == seq(if k <= m then m - k else 0, i requires 0 <= i < (if k <= m then m - k else 0) =>
        (bids[k + i].orders, bids[k + i].qty, fmt(bids[k + i].price)))
    decreases |rows| - k
  {
    var m := Min(|rows|, |bids|);
    if k < |rows| {
      assert rows[k..][0] == rows[k];
      assert rows[k..][1..] == rows[k + 1..];
      BidsOfFrom(rows, bids, fmt, k + 1);
    }
  }

  /** `ParseFromString` raised: the payload is not a depth snapshot. */
  datatype ParseError = ParseError

  /**
   * `decode_depth_snapshot`: parse the payload, then align. A parse failure is the
   * only error and propagates to the caller; a parsed snapshot, even an empty one,
   * always yields the full ten-row table, so a caller's "non-empty" test passes for
   * every payload that parses.
   */
  function DecodeDepthSnapshot<P>(payload: Bytes, parse: Bytes -> Option<(seq<Entry<P>>, seq<Entry<P>>)>,
                                  fmt: P -> string): (r: Result<seq<Row>, ParseError>)
    ensures r.Err? <==> parse(payload).None?
    ensures r.Ok? ==> |r.value| == Levels
    ensures r.Ok? ==> r.value == AlignDepth(parse(payload).value.0, parse(payload).value.1, fmt)
  {
    var ladders :- parse(payload).ToResult(ParseError);
    Ok(AlignDepth(ladders.0, ladders.1, fmt))
  }
}
