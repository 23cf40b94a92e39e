/**
 * SUBSCRIBE bodies (MQTT 3.1.1 section 3.8) as the three proxies build them:
 * a 2-byte packet id followed by one `length, topic, qos` entry per topic
 * filter. The market and trade proxies send one body after a lone 0x82 frame;
 * the depth proxy sends the provider's chunked variant, one body per topic
 * with a 0x82 between them (app/mqtt_subscribe_chunked.py).
 */
module Subscribe {
  import opened Wrappers
  import opened Bytes
  import opened Varint
  import opened Text
  import Frames

  /** The fixed header byte of SUBSCRIBE: type 8 with the reserved flags 0010. */
  const SubscribeHeader: Byte := 0x82

  /** One topic filter of a SUBSCRIBE payload. */
  datatype Filter = Filter(topic: Bytes, qos: Byte)

  /**
   * Why building a body fails: a length or packet id that `to_bytes(2, "big")`
   * cannot hold (OverflowError), a market topic `encode("ascii")` rejects
   * (UnicodeEncodeError), or an empty topic list (IndexError at `topics[0]`).
   */
  datatype SubscribeError = Overflow | NotAscii | NoTopics

  /** `n.to_bytes(2, "big")`. */
  function U16(n: nat): (r: Result<Bytes, SubscribeError>)
    ensures r.Ok? <==> n < U16Limit
    ensures r.Ok? ==> |r.value| == 2 && DecU16(r.value) == n
    ensures r.Err? ==> r.error == Overflow
  {
    if n < U16Limit then Ok(EncU16(n)) else Err(Overflow)
  }

  /** One payload entry: the 2-byte topic length, the topic and the QoS byte. */
  function EntryBytes(f: Filter): Bytes
    requires |f.topic| < U16Limit
  {
    EncU16(|f.topic|) + f.topic + [f.qos]
  }

  /** The payload entries, in order; the first over-long topic stops the loop. */
  function Entries(fs: seq<Filter>): Result<Bytes, SubscribeError> {
    if |fs| == 0 then Ok([])
    else
      var len :- U16(|fs[0].topic|);
      var rest :- Entries(fs[1..]);
      Ok(len + fs[0].topic + [fs[0].qos] + rest)
  }

  /** A SUBSCRIBE variable header and payload: packet id, then the entries. */
  function Body(pid: nat, fs: seq<Filter>): Result<Bytes, SubscribeError> {
    var id :- U16(pid);
    var es :- Entries(fs);
    Ok(id + es)
  }

  /** The packet id and every topic length fit their 2-byte fields. */
  predicate Encodable(pid: nat, fs: seq<Filter>) {
    pid < U16Limit && forall k :: 0 <= k < |fs| ==> |fs[k].topic| < U16Limit
  }

  /** The server's reading of a SUBSCRIBE payload: entries until the bytes run out. */
  function ParseEntries(b: Bytes): Option<seq<Filter>>
    decreases |b|
  {
    if |b| == 0 then Some([])
    else if |b| < 2 then None
    else
      var n := DecU16(b);
      if |b| < 3 + n then None
      else
        var rest :- ParseEntries(b[3 + n..]);
        Some([Filter(b[2..2 + n], b[2 + n])] + rest)
  }

  function ParseBody(b: Bytes): Option<(nat, seq<Filter>)> {
    if |b| < 2 then None
    else
      var fs :- ParseEntries(b[2..]);
      Some((DecU16(b), fs))
  }

  /** The server reads one entry off the front and carries on with the rest. */
  lemma ParseEntryFront(f: Filter, rest: Bytes)
    requires |f.topic| < U16Limit
    ensures ParseEntries(EntryBytes(f) + rest)
         == if ParseEntries(rest).Some? then Some([f] + ParseEntries(rest).value) else None
  {
    var b := EntryBytes(f) + rest;
    var n := |f.topic|;
    assert b[..2] == EncU16(n);
    assert DecU16(b) == n;
    assert b[2..2 + n] == f.topic;
    assert b[2 + n] == f.qos;
    assert b[3 + n..] == rest;
  }

  lemma {:induction false} EntriesSpec(fs: seq<Filter>)
    ensures Entries(fs).Ok? <==> forall k :: 0 <= k < |fs| ==> |fs[k].topic| < U16Limit
    ensures Entries(fs).Err? ==> Entries(fs).error == Overflow
    ensures Entries(fs).Ok? ==> ParseEntries(Entries(fs).value) == Some(fs)
  {
    if |fs| > 0 {
      EntriesSpec(fs[1..]);
      var f := fs[0];
      if |f.topic| < U16Limit && Entries(fs[1..]).Ok? {
        var rest := Entries(fs[1..]).value;
        assert Entries(fs).value == EntryBytes(f) + rest;
        ParseEntryFront(f, rest);
        assert [f] + fs[1..] == fs;
      }
    }
  }

  /**
   * A body is built exactly when its fields fit, and the server reads back the
   * packet id and the filters it was built from.
   */
  lemma BodySpec(pid: nat, fs: seq<Filter>)
    ensures Body(pid, fs).Ok? <==> Encodable(pid, fs)
    ensures Body(pid, fs).Err? ==> Body(pid, fs).error == Overflow
    ensures Body(pid, fs).Ok? ==> ParseBody(Body(pid, fs).value) == Some((pid, fs))
  {
    EntriesSpec(fs);
    if Body(pid, fs).Ok? {
      var b := Body(pid, fs).value;
      assert b[2..] == Entries(fs).value;
      assert b[..2] == EncU16(pid);
    }
  }

  /** `_enc_vlq(len(body)) + body`: the body with its remaining length in front. */
  function Framed(body: Bytes): Bytes {
    Encode(|body|) + body
  }

  /** A framed body after a 0x82 is one whole SUBSCRIBE packet for the frame walker. */
  lemma FramedIsPacket(body: Bytes)
    ensures [SubscribeHeader] + Framed(body) == Frames.EncodePacket(Frames.Packet(SubscribeHeader, body))
    ensures Frames.Packets(Frames.DepthWalker, [SubscribeHeader] + Framed(body))
         == [Frames.Packet(SubscribeHeader, body)]
  {
    var p := Frames.Packet(SubscribeHeader, body);
    assert [SubscribeHeader] + Framed(body) == Frames.EncodePacket(p);
    Frames.PacketFirst(Frames.DepthWalker, p, []);
    assert Frames.EncodePacket(p) + [] == Frames.EncodePacket(p);
    assert [p] + Frames.Packets(Frames.DepthWalker, []) == [p];
  }

  // ----- market proxy: `_build_sub_body(symbols, pid)` -----

  /** A plain `str` argument counts as one symbol. */
  datatype Symbols = OneSymbol(symbol: string) | SymbolList(symbols: seq<string>)

  function SymbolSeq(s: Symbols): seq<string> {
    match s
    case OneSymbol(sym) => [sym]
    case SymbolList(syms) => syms
  }

  /** `f"mx/symbol/{sym.upper()}@lvl2"`. */
  function MarketTopic(sym: string): string {
    "mx/symbol/" + Upper(sym) + "@lvl2"
  }

  predicate AsciiText(s: string) {
    forall k :: 0 <= k < |s| ==> s[k] as int < 128
  }

  /** One entry per symbol: the ASCII topic, its length in front and QoS 0 after. */
  function MarketEntries(syms: seq<string>): Result<Bytes, SubscribeError> {
    if |syms| == 0 then Ok([])
    else
      var topic :- AsciiEncode(MarketTopic(syms[0])).ToResult(NotAscii);
      var len :- U16(|topic|);
      var rest :- MarketEntries(syms[1..]);
      Ok(len + topic + [0] + rest)
  }

  function MarketSubBody(symbols: Symbols, pid: nat): Result<Bytes, SubscribeError> {
    var id :- U16(pid);
    var es :- MarketEntries(SymbolSeq(symbols));
    Ok(id + es)
  }

  function MarketFilters(syms: seq<string>): (fs: seq<Filter>)
    ensures |fs| == |syms|
  {
    seq(|syms|, k requires 0 <= k < |syms| => Filter(Utf8(MarketTopic(syms[k])), 0))
  }

  /** Every market topic is ASCII and short enough for its length field. */
  predicate MarketEncodable(syms: seq<string>) {
    forall k :: 0 <= k < |syms| ==> AsciiText(MarketTopic(syms[k])) && |MarketTopic(syms[k])| < U16Limit
  }

  /** The market topic adds 15 characters and is ASCII exactly when the symbol is. */
  lemma MarketTopicShape(sym: string)
    ensures |MarketTopic(sym)| == |sym| + 15
    ensures AsciiText(MarketTopic(sym)) <==> AsciiText(sym)
    ensures MarketTopic(Upper(sym)) == MarketTopic(sym)
  {
    var t, u := MarketTopic(sym), Upper(sym);
    var pre, post := "mx/symbol/", "@lvl2";
    assert t == pre + u + post;
    assert |pre| == 10 && |post| == 5;
    UpperIdempotent(sym);
    forall k | 0 <= k < |sym|
      ensures t[10 + k] == UpperChar(sym[k])
    {
      assert t[10 + k] == u[k];
    }
    if AsciiText(sym) {
      forall k | 0 <= k < |t|
        ensures t[k] as int < 128
      {
        if k < 10 {
          assert t[k] == pre[k];
        } else if k < 10 + |sym| {
          assert t[k] == UpperChar(sym[k - 10]);
        } else {
          assert t[k] == post[k - 10 - |sym|];
        }
      }
    }
    if AsciiText(t) {
      forall k | 0 <= k < |sym|
        ensures sym[k] as int < 128
      {
        assert t[10 + k] == UpperChar(sym[k]);
      }
    }
  }

  lemma {:induction false} MarketEntriesSpec(syms: seq<string>)
    ensures MarketEntries(syms).Ok? <==> MarketEncodable(syms)
    ensures MarketEntries(syms).Ok? ==> MarketEntries(syms) == Entries(MarketFilters(syms))
  {
    if |syms| > 0 {
      MarketEntriesSpec(syms[1..]);
      MarketEncodableStep(syms);
      var t := MarketTopic(syms[0]);
      if AsciiText(t) {
        assert AsciiEncode(t) == Some(Utf8(t));
        assert |Utf8(t)| == |t|;
      }
      var fs := MarketFilters(syms);
      assert fs[0] == Filter(Utf8(t), 0);
      assert fs[1..] == MarketFilters(syms[1..]);
    }
  }

  lemma MarketEncodableStep(syms: seq<string>)
    requires |syms| > 0
    ensures MarketEncodable(syms)
        <==> AsciiText(MarketTopic(syms[0])) && |MarketTopic(syms[0])| < U16Limit && MarketEncodable(syms[1..])
  {
    if AsciiText(MarketTopic(syms[0])) && |MarketTopic(syms[0])| < U16Limit && MarketEncodable(syms[1..]) {
      forall k | 0 <= k < |syms|
        ensures AsciiText(MarketTopic(syms[k])) && |MarketTopic(syms[k])| < U16Limit
      {
        if k > 0 {
          assert syms[k] == syms[1..][k - 1];
        }
      }
    }
    if MarketEncodable(syms) {
      forall k | 0 <= k < |syms[1..]|
        ensures AsciiText(MarketTopic(syms[1..][k])) && |MarketTopic(syms[1..][k])| < U16Limit
      {
        assert syms[1..][k] == syms[k + 1];
      }
    }
  }

  /**
   * The market body is built exactly when the packet id fits and every topic is
   * ASCII and fits; the server then reads back the packet id and one QoS 0 filter
   * `mx/symbol/SYM@lvl2` per symbol, in order.
   */
  lemma MarketSubBodySpec(symbols: Symbols, pid: nat)
    ensures MarketSubBody(symbols, pid).Ok?
        <==> pid < U16Limit && MarketEncodable(SymbolSeq(symbols))
    ensures MarketSubBody(symbols, pid).Ok?
        ==> ParseBody(MarketSubBody(symbols, pid).value) == Some((pid, MarketFilters(SymbolSeq(symbols))))
  {
    var syms := SymbolSeq(symbols);
    MarketEntriesSpec(syms);
    BodySpec(pid, MarketFilters(syms));
    if MarketSubBody(symbols, pid).Ok? {
      assert MarketSubBody(symbols, pid) == Body(pid, MarketFilters(syms));
    }
  }

  /** What the market proxy sends after the lone 0x82 frame, for its one symbol. */
  function MarketSubscribe(symbol: string, pid: nat): Result<Bytes, SubscribeError> {
    var body :- MarketSubBody(OneSymbol(Upper(symbol)), pid);
    Ok(Framed(body))
  }

  /** What the heatmap client sends after the lone 0x82 frame, for all its symbols. */
  function HeatmapSubscribe(symbols: seq<string>, pid: nat): Result<Bytes, SubscribeError> {
    var body :- MarketSubBody(SymbolList(seq(|symbols|, k requires 0 <= k < |symbols| => Upper(symbols[k]))), pid);
    Ok(Framed(body))
  }

  /**
   * For a packet id drawn from 0x2000..0x7FFF and an ASCII symbol, the market
   * SUBSCRIBE is one packet whose only filter is `mx/symbol/SYM@lvl2` at QoS 0.
   */
  lemma MarketSubscribeSpec(symbol: string, pid: nat)
    requires 0x2000 <= pid <= 0x7FFF
    requires AsciiText(symbol) && |symbol| < 1000
    ensures MarketSubscribe(symbol, pid).Ok?
    ensures var out := MarketSubscribe(symbol, pid).value;
      exists body ::
        && Frames.Packets(Frames.DepthWalker, [SubscribeHeader] + out) == [Frames.Packet(SubscribeHeader, body)]
        && ParseBody(body) == Some((pid, [Filter(Utf8(MarketTopic(symbol)), 0)]))
  {
    var s := Upper(symbol);
    MarketTopicShape(symbol);
    MarketTopicShape(s);
    assert AsciiText(s) by {
      forall k | 0 <= k < |s|
        ensures s[k] as int < 128
      {
        assert s[k] == UpperChar(symbol[k]);
      }
    }
    MarketSubBodySpec(OneSymbol(s), pid);
    var body := MarketSubBody(OneSymbol(s), pid).value;
    FramedIsPacket(body);
    assert MarketFilters([s]) == [Filter(Utf8(MarketTopic(symbol)), 0)];
  }

  // ----- trade proxy: topic candidates and the multi-topic body -----

  /**
   * `_build_topic_candidates`: the comma-separated configured formats, stripped,
   * empty ones dropped, with `{sym}` and `{symbol}` replaced by the symbol; or
   * the single default `mx/trade/SYM@lvl2` when nothing is configured.
   */
  function TopicCandidates(config: string, symbol: string): seq<string> {
    if config == "" then ["mx/trade/" + symbol + "@lvl2"]
    else Candidates(Split(config, ','), symbol)
  }

  function Candidates(pieces: seq<string>, symbol: string): seq<string> {
    if |pieces| == 0 then [] else Candidate(pieces[0], symbol) + Candidates(pieces[1..], symbol)
  }

  /** One configured item: nothing when it strips to empty, else the filled-in format. */
  function Candidate(piece: string, symbol: string): seq<string> {
    var f := Strip(piece);
    if f == "" then [] else [Replace(Replace(f, "{sym}", symbol), "{symbol}", symbol)]
  }

  /** A configured format as an operator would write it: no comma, no surrounding spaces, no placeholder. */
  predicate PlainFormat(t: string) {
    && |t| > 0 && ',' !in t
    && !IsSpace(t[0]) && !IsSpace(t[|t| - 1])
    && !Contains(t, "{sym}") && !Contains(t, "{symbol}")
  }

  lemma {:induction false} CandidatesOfPlain(ts: seq<string>, symbol: string)
    requires forall k :: 0 <= k < |ts| ==> PlainFormat(ts[k])
    ensures Candidates(ts, symbol) == ts
  {
    if |ts| > 0 {
      CandidatesOfPlain(ts[1..], symbol);
      StripTrimmed(ts[0]);
      ReplaceAbsent(ts[0], "{sym}", symbol);
      ReplaceAbsent(ts[0], "{symbol}", symbol);
      assert [ts[0]] + ts[1..] == ts;
    }
  }

  /** Listing plain topics comma-separated in the configuration subscribes to exactly those topics, in order. */
  lemma ConfiguredTopicsRoundTrip(ts: seq<string>, symbol: string)
    requires |ts| >= 1
    requires forall k :: 0 <= k < |ts| ==> PlainFormat(ts[k])
    ensures TopicCandidates(Join(ts, ','), symbol) == ts
  {
    JoinSplit(ts, ',');
    CandidatesOfPlain(ts, symbol);
    if |ts| == 1 {
      assert Join(ts, ',') == ts[0];
    } else {
      assert Join(ts, ',') == ts[0] + [','] + Join(ts[1..], ',');
    }
  }

  /** An item that is blank after stripping contributes no topic. */
  lemma CandidateBlank(p: string, symbol: string)
    requires forall k :: 0 <= k < |p| ==> IsSpace(p[k])
    ensures Candidate(p, symbol) == []
  {
    StripEnds(p);
  }

  /** Spaces around an item are stripped before it becomes a topic. */
  lemma CandidatePadded(t: string, symbol: string)
    requires PlainFormat(t)
    ensures Candidate(" " + t + " ", symbol) == [t]
  {
    var p := " " + t + " ";
    assert p[1..] == t + " ";
    assert Lead(t + " ") == 0;
    assert p[..|p| - 1] == " " + t;
    assert Trail(" " + t) == 0;
    assert Strip(p) == p[1..|p| - 1] == t;
    ReplaceAbsent(t, "{sym}", symbol);
    ReplaceAbsent(t, "{symbol}", symbol);
  }

  /**
   * A `{sym}` placeholder is filled with the symbol: `mx/trade/{sym}@lvl2`
   * becomes `mx/trade/THYAO@lvl2` for the symbol THYAO.
   */
  lemma PlaceholderFilled(pre: string, post: string, symbol: string)
    requires Strip(pre + "{sym}" + post) == pre + "{sym}" + post
    requires ReplaceFree(pre, "{sym}") && !Contains(post, "{sym}")
    requires !Contains(pre + symbol + post, "{symbol}")
    ensures Candidate(pre + "{sym}" + post, symbol) == [pre + symbol + post]
  {
    ReplaceOne(pre, "{sym}", post, symbol);
    ReplaceAbsent(pre + symbol + post, "{symbol}", symbol);
  }

  function TradeFilters(cands: seq<string>): (fs: seq<Filter>)
    ensures |fs| == |cands|
  {
    seq(|cands|, k requires 0 <= k < |cands| => Filter(Utf8(cands[k]), 0))
  }

  /**
   * The trade proxy's SUBSCRIBE message: the UTF-8 candidates at QoS 0 behind the
   * packet id, framed with its remaining length.
   */
  function TradeSubscribe(cands: seq<string>, pid: nat): Result<Bytes, SubscribeError> {
    var body :- Body(pid, TradeFilters(cands));
    Ok(Framed(body))
  }

  /**
   * The trade SUBSCRIBE is one packet from which the server reads back the
   * packet id and every candidate at QoS 0, in order.
   */
  lemma TradeSubscribeSpec(cands: seq<string>, pid: nat)
    ensures TradeSubscribe(cands, pid).Ok? <==> Encodable(pid, TradeFilters(cands))
    ensures TradeSubscribe(cands, pid).Ok? ==>
      var body := Body(pid, TradeFilters(cands)).value;
      && Frames.Packets(Frames.DepthWalker, [SubscribeHeader] + TradeSubscribe(cands, pid).value)
         == [Frames.Packet(SubscribeHeader, body)]
      && ParseBody(body) == Some((pid, TradeFilters(cands)))
  {
    BodySpec(pid, TradeFilters(cands));
    if Body(pid, TradeFilters(cands)).Ok? {
      FramedIsPacket(Body(pid, TradeFilters(cands)).value);
    }
  }

  // ----- depth proxy: the chunked SUBSCRIBE -----

  /**
   * `_build_sub_body(packet_id, topic, qos)`, given the topic's UTF-8 bytes: one
   * framed single-filter body with the QoS masked to two bits.
   */
  function ChunkBody(pid: nat, topic: Bytes, qos: int): Result<Bytes, SubscribeError> {
    var body :- Body(pid, [Filter(topic, qos % 4)]);
    Ok(Framed(body))
  }

  function Utf8Topics(topics: seq<string>): (tb: seq<Bytes>)
    ensures |tb| == |topics|
  {
    seq(|topics|, k requires 0 <= k < |topics| => Utf8(topics[k]))
  }

  /**
   * `build_chunked_subscribe`: the first chunk bare, every later chunk behind a
   * 0x82; chunk `i` carries packet id `base + i` and `topics[i]`.
   */
  function ChunkedSubscribe(topics: seq<string>, base: nat): (r: Result<Bytes, SubscribeError>)
    ensures |topics| == 0 ==> r == Err(NoTopics)
  {
    Chunked(Utf8Topics(topics), base)
  }

  /** The chunked SUBSCRIBE over the encoded topics. */
  function Chunked(tb: seq<Bytes>, base: nat): Result<Bytes, SubscribeError> {
    if |tb| == 0 then Err(NoTopics)
    else
      var first :- ChunkBody(base, tb[0], 0);
      var later :- LaterChunks(tb, base, 1);
      Ok(first + later)
  }

  function LaterChunks(tb: seq<Bytes>, base: nat, i: nat): Result<Bytes, SubscribeError>
    decreases |tb| - i
  {
    if i >= |tb| then Ok([])
    else
      var c :- ChunkBody(base + i, tb[i], 0);
      var rest :- LaterChunks(tb, base, i + 1);
      Ok([SubscribeHeader] + c + rest)
  }

  /** Chunks `i` onwards fit: every packet id from `base + i` and every topic length. */
  predicate ChunksFit(tb: seq<Bytes>, base: nat, i: nat)
    decreases |tb| - i
  {
    i >= |tb| || (base + |tb| - 1 < U16Limit && |tb[i]| < U16Limit && ChunksFit(tb, base, i + 1))
  }


  /** Chunks `i` onwards fit exactly when the last packet id and every topic length from `i` on fit. */
  lemma {:induction false} ChunksFitMeaning(tb: seq<Bytes>, base: nat, i: nat)
    ensures ChunksFit(tb, base, i)
        <==> (i < |tb| ==> base + |tb| - 1 < U16Limit) && forall k :: i <= k < |tb| ==> |tb[k]| < U16Limit
    decreases |tb| - i
  {
    if i < |tb| {
      ChunksFitMeaning(tb, base, i + 1);
    }
  }

  /** The SUBSCRIBE packet a chunk stands for. */
  function ChunkPacket(pid: nat, topic: Bytes): Frames.Packet
    requires pid < U16Limit && |topic| < U16Limit
  {
    Frames.Packet(SubscribeHeader, EncU16(pid) + EntryBytes(Filter(topic, 0)))
  }

  /** The SUBSCRIBE packets of chunks `i` onwards. */
  function ChunkPackets(tb: seq<Bytes>, base: nat, i: nat): (ps: seq<Frames.Packet>)
    requires i <= |tb| && ChunksFit(tb, base, i)
    ensures |ps| == |tb| - i
    decreases |tb| - i
  {
    if i == |tb| then [] else [ChunkPacket(base + i, tb[i])] + ChunkPackets(tb, base, i + 1)
  }

  lemma OneBody(pid: nat, f: Filter)
    ensures Body(pid, [f]).Ok? <==> pid < U16Limit && |f.topic| < U16Limit
    ensures Body(pid, [f]).Ok? ==> Body(pid, [f]).value == EncU16(pid) + EntryBytes(f)
    ensures Body(pid, [f]).Ok? ==> ParseBody(Body(pid, [f]).value) == Some((pid, [f]))
  {
    BodySpec(pid, [f]);
    if Body(pid, [f]).Ok? {
      assert Entries([f]).value == EntryBytes(f) + [];
    }
  }

  /** One chunk is built exactly when its fields fit, and behind a 0x82 it is its SUBSCRIBE packet. */
  lemma ChunkSpec(pid: nat, topic: Bytes)
    ensures ChunkBody(pid, topic, 0).Ok? <==> pid < U16Limit && |topic| < U16Limit
    ensures ChunkBody(pid, topic, 0).Ok? ==>
      [SubscribeHeader] + ChunkBody(pid, topic, 0).value == Frames.EncodePacket(ChunkPacket(pid, topic))
  {
    OneBody(pid, Filter(topic, 0));
    if ChunkBody(pid, topic, 0).Ok? {
      FramedIsPacket(EncU16(pid) + EntryBytes(Filter(topic, 0)));
    }
  }

  /** The packet of a chunk carries the chunk's packet id and topic. */
  lemma ChunkPacketParses(pid: nat, topic: Bytes)
    requires pid < U16Limit && |topic| < U16Limit
    ensures ChunkPacket(pid, topic).header == SubscribeHeader
    ensures ParseBody(ChunkPacket(pid, topic).body) == Some((pid, [Filter(topic, 0)]))
  {
    OneBody(pid, Filter(topic, 0));
  }

  lemma {:induction false} LaterChunksOk(tb: seq<Bytes>, base: nat, i: nat)
    requires 1 <= i <= |tb|
    ensures LaterChunks(tb, base, i).Ok? <==> ChunksFit(tb, base, i)
    decreases |tb| - i
  {
    if i < |tb| {
      LaterChunksOk(tb, base, i + 1);
      ChunkSpec(base + i, tb[i]);
      assert ChunksFit(tb, base, i)
        <==> base + i < U16Limit && |tb[i]| < U16Limit && ChunksFit(tb, base, i + 1);
    }
  }

  lemma {:induction false} LaterChunksValue(tb: seq<Bytes>, base: nat, i: nat)
    requires 1 <= i <= |tb| && ChunksFit(tb, base, i)
    ensures LaterChunks(tb, base, i).Ok?
    ensures LaterChunks(tb, base, i).value == Frames.EncodePackets(ChunkPackets(tb, base, i))
    decreases |tb| - i
  {
    LaterChunksOk(tb, base, i);
    if i < |tb| {
      assert ChunksFit(tb, base, i + 1);
      LaterChunksValue(tb, base, i + 1);
      ChunkSpec(base + i, tb[i]);
      LaterChunksUnfold(tb, base, i);
      ChunkPacketsStep(tb, base, i);
    }
  }

  lemma LaterChunksUnfold(tb: seq<Bytes>, base: nat, i: nat)
    requires i < |tb| && ChunkBody(base + i, tb[i], 0).Ok? && LaterChunks(tb, base, i + 1).Ok?
    ensures LaterChunks(tb, base, i)
         == Ok([SubscribeHeader] + ChunkBody(base + i, tb[i], 0).value + LaterChunks(tb, base, i + 1).value)
  {
  }

  /** Unrolling the packets of chunks `i` onwards by one chunk. */
  lemma ChunkPacketsStep(tb: seq<Bytes>, base: nat, i: nat)
    requires i < |tb| && ChunksFit(tb, base, i)
    ensures ChunksFit(tb, base, i + 1)
    ensures Frames.EncodePackets(ChunkPackets(tb, base, i))
         == Frames.EncodePacket(ChunkPacket(base + i, tb[i])) + Frames.EncodePackets(ChunkPackets(tb, base, i + 1))
  {
    EncodePacketsCons(ChunkPacket(base + i, tb[i]), ChunkPackets(tb, base, i + 1));
  }

  lemma EncodePacketsCons(p: Frames.Packet, ps: seq<Frames.Packet>)
    ensures Frames.EncodePackets([p] + ps) == Frames.EncodePacket(p) + Frames.EncodePackets(ps)
  {
    assert ([p] + ps)[1..] == ps;
  }

  /**
   * The chunked SUBSCRIBE is built exactly when there is a topic and every
   * packet id and topic length fits; with a 0x82 in front it is exactly one
   * SUBSCRIBE packet per topic, in input order.
   */
  lemma ChunkedSpec(tb: seq<Bytes>, base: nat)
    ensures Chunked(tb, base).Ok? <==> |tb| >= 1 && ChunksFit(tb, base, 0)
    ensures Chunked(tb, base).Ok? ==>
      [SubscribeHeader] + Chunked(tb, base).value == Frames.EncodePackets(ChunkPackets(tb, base, 0))
  {
    if |tb| >= 1 {
      ChunkedOk(tb, base);
      if ChunksFit(tb, base, 0) {
        ChunkedValue(tb, base);
      }
    }
  }

  lemma ChunkedValue(tb: seq<Bytes>, base: nat)
    requires |tb| >= 1 && ChunksFit(tb, base, 0)
    ensures Chunked(tb, base).Ok?
    ensures [SubscribeHeader] + Chunked(tb, base).value == Frames.EncodePackets(ChunkPackets(tb, base, 0))
  {
    LaterChunksValue(tb, base, 1);
    ChunkSpec(base, tb[0]);
    var first := ChunkBody(base, tb[0], 0).value;
    var later := LaterChunks(tb, base, 1).value;
    assert Chunked(tb, base).value == first + later;
    var p := ChunkPacket(base, tb[0]);
    var ps := ChunkPackets(tb, base, 1);
    EncodePacketsCons(p, ps);
    assert ChunkPackets(tb, base, 0) == [p] + ps;
    Assoc([SubscribeHeader], first, later);
  }

  lemma ChunkedOk(tb: seq<Bytes>, base: nat)
    requires |tb| >= 1
    ensures Chunked(tb, base).Ok? <==> ChunksFit(tb, base, 0)
  {
    LaterChunksOk(tb, base, 1);
    ChunkSpec(base, tb[0]);
    assert ChunksFit(tb, base, 0)
      <==> base < U16Limit && |tb[0]| < U16Limit && ChunksFit(tb, base, 1);
  }

  lemma {:induction false} ChunkPacketAt(tb: seq<Bytes>, base: nat, i: nat, k: nat)
    requires i <= k < |tb| && ChunksFit(tb, base, i)
    ensures base + k < U16Limit && |tb[k]| < U16Limit
    ensures ChunkPackets(tb, base, i)[k - i] == ChunkPacket(base + k, tb[k])
    decreases k - i
  {
    if i < k {
      assert ChunksFit(tb, base, i + 1);
      ChunkPacketAt(tb, base, i + 1, k);
    }
  }

  /** Packet `k` of the chunked SUBSCRIBE carries packet id `base + k` and topic `tb[k]` at QoS 0. */
  lemma ChunkedPackets(tb: seq<Bytes>, base: nat)
    requires Chunked(tb, base).Ok?
    ensures var ps := Frames.Packets(Frames.DepthWalker, [SubscribeHeader] + Chunked(tb, base).value);
      && |ps| == |tb|
      && forall k :: 0 <= k < |tb| ==>
           ps[k].header == SubscribeHeader && ParseBody(ps[k].body) == Some((base + k, [Filter(tb[k], 0)]))
  {
    ChunkedSpec(tb, base);
    var ps := ChunkPackets(tb, base, 0);
    var out := [SubscribeHeader] + Chunked(tb, base).value;
    assert out == Frames.EncodePackets(ps);
    Frames.PacketsRoundTrip(Frames.DepthWalker, ps);
    assert Frames.Packets(Frames.DepthWalker, out) == ps;
    ChunkPacketsParse(tb, base);
  }

  lemma ChunkPacketsParse(tb: seq<Bytes>, base: nat)
    requires ChunksFit(tb, base, 0)
    ensures var ps := ChunkPackets(tb, base, 0);
      forall k :: 0 <= k < |tb| ==>
        ps[k].header == SubscribeHeader && ParseBody(ps[k].body) == Some((base + k, [Filter(tb[k], 0)]))
  {
    forall k | 0 <= k < |tb|
      ensures ChunkPackets(tb, base, 0)[k].header == SubscribeHeader
      ensures ParseBody(ChunkPackets(tb, base, 0)[k].body) == Some((base + k, [Filter(tb[k], 0)]))
    {
      ChunkPacketParsesAt(tb, base, k);
    }
  }

  lemma ChunkPacketParsesAt(tb: seq<Bytes>, base: nat, k: nat)
    requires k < |tb| && ChunksFit(tb, base, 0)
    ensures ChunkPackets(tb, base, 0)[k].header == SubscribeHeader
    ensures ParseBody(ChunkPackets(tb, base, 0)[k].body) == Some((base + k, [Filter(tb[k], 0)]))
  {
    ChunkPacketAt(tb, base, 0, k);
    ChunkPacketParses(base + k, tb[k]);
  }

  /**
   * Walking the chunked SUBSCRIBE behind its 0x82 gives one packet per topic;
   * packet `k` carries packet id `base + k` and the single filter `topics[k]`
   * (UTF-8) at QoS 0. The build fails only for an empty list or a field that
   * does not fit.
   */
  lemma ChunkedRoundTrip(topics: seq<string>, base: nat)
    ensures ChunkedSubscribe(topics, base).Ok? <==> |topics| >= 1 && ChunksFit(Utf8Topics(topics), base, 0)
    ensures ChunkedSubscribe(topics, base).Ok? ==>
      var ps := Frames.Packets(Frames.DepthWalker, [SubscribeHeader] + ChunkedSubscribe(topics, base).value);
      && |ps| == |topics|
      && forall k :: 0 <= k < |topics| ==>
           ps[k].header == SubscribeHeader && ParseBody(ps[k].body) == Some((base + k, [Filter(Utf8(topics[k]), 0)]))
  {
    var tb := Utf8Topics(topics);
    ChunkedSpec(tb, base);
    if Chunked(tb, base).Ok? {
      ChunkedPackets(tb, base);
      assert forall k :: 0 <= k < |topics| ==> tb[k] == Utf8(topics[k]);
    }
  }

  /** With one topic the chunked SUBSCRIBE is just `_build_sub_body(base, topic)`. */
  lemma ChunkedSingle(topic: string, base: nat)
    ensures ChunkedSubscribe([topic], base) == ChunkBody(base, Utf8(topic), 0)
  {
    assert Utf8Topics([topic]) == [Utf8(topic)];
    if ChunkBody(base, Utf8(topic), 0).Ok? {
      assert ChunkBody(base, Utf8(topic), 0).value + [] == ChunkBody(base, Utf8(topic), 0).value;
    }
  }

  /** The total length is the sum of the chunk lengths plus one 0x82 per later chunk. */
  lemma ChunkedLength(topics: seq<string>, base: nat)
    requires ChunkedSubscribe(topics, base).Ok?
    ensures ChunksFit(Utf8Topics(topics), base, 0)
    ensures var ps := ChunkPackets(Utf8Topics(topics), base, 0);
      |ChunkedSubscribe(topics, base).value| == ChunkSizes(ps) + |topics| - 1
  {
    ChunkedSpec(Utf8Topics(topics), base);
    EncodedSize(ChunkPackets(Utf8Topics(topics), base, 0));
  }

  /** The sum of the chunk lengths: remaining length and body of each packet. */
  function ChunkSizes(ps: seq<Frames.Packet>): nat {
    if |ps| == 0 then 0 else |Framed(ps[0].body)| + ChunkSizes(ps[1..])
  }

  lemma {:induction false} EncodedSize(ps: seq<Frames.Packet>)
    ensures |Frames.EncodePackets(ps)| == ChunkSizes(ps) + |ps|
  {
    if |ps| > 0 {
      EncodedSize(ps[1..]);
    }
  }

  /** `_topics()`: the one depth topic of the upper-cased symbol. */
  function DepthTopics(symbol: string): seq<string> {
    ["mx/depth/" + Upper(symbol) + "@lvl2"]
  }

  /** The depth topic the proxy subscribes to passes its own PUBLISH topic filter. */
  lemma DepthTopicsPassFilter(symbol: string)
    ensures forall k :: 0 <= k < |DepthTopics(symbol)| ==> Frames.IsDepthTopic(DepthTopics(symbol)[k])
  {
    var t := "mx/depth/" + Upper(symbol) + "@lvl2";
    assert t[..9] == "mx/depth/";
  }

  /**
   * The body the depth proxy sends after its 0x82 frame: the configured raw
   * body when there is a non-empty one, else the chunked SUBSCRIBE of its topics.
   */
  function DepthSubscribeFrame(custom: Option<Bytes>, symbol: string, base: nat): Result<Bytes, SubscribeError> {
    if custom.Some? && |custom.value| > 0 then Ok(custom.value)
    else ChunkedSubscribe(DepthTopics(symbol), base)
  }

  /**
   * With no custom body and a packet id from 0x2000..0x7FFF, the depth proxy's
   * SUBSCRIBE is one packet subscribing to `mx/depth/SYM@lvl2` with that id.
   */
  lemma DepthSubscribeSpec(symbol: string, base: nat)
    requires 0x2000 <= base <= 0x7FFF && |symbol| < 1000
    ensures DepthSubscribeFrame(None, symbol, base).Ok?
    ensures var ps := Frames.Packets(Frames.DepthWalker, [SubscribeHeader] + DepthSubscribeFrame(None, symbol, base).value);
      && |ps| == 1
      && ParseBody(ps[0].body) == Some((base, [Filter(Utf8("mx/depth/" + Upper(symbol) + "@lvl2"), 0)]))
  {
    var topics := DepthTopics(symbol);
    Utf8Bound(topics[0]);
    assert ChunksFit(Utf8Topics(topics), base, 0);
    ChunkedRoundTrip(topics, base);
  }

  /** UTF-8 spends at most four bytes per character. */
  lemma {:induction false} Utf8Bound(s: string)
    ensures |Utf8(s)| <= 4 * |s|
  {
    if |s| > 0 {
      Utf8Bound(s[1..]);
    }
  }

}
