/**
 * What the upstream sessions do with the frames they receive. After sending
 * CONNECT, each proxy polls for a CONNACK in a bounded window. The trade proxy
 * then polls for a SUBACK in a second window, and from then on every proxy
 * streams until the socket closes. The socket is a finite list of events; a
 * timed-out poll is an event of its own. Sending, sleeping and the heartbeat task
 * are not modelled here.
 */
module Sessions {
  import opened Wrappers
  import opened Bytes
  import opened Frames
  import Depth

  /** One `recv()` outcome: a timeout, a text frame, a binary frame, or the socket closing. */
  datatype Event = Timeout | TextFrame | BinFrame(data: Bytes) | Closed

  predicate IsConnack(e: Event) {
    e.BinFrame? && LooksConnack(e.data)
  }

  predicate IsSuback(e: Event) {
    e.BinFrame? && LooksSuback(e.data)
  }

  /** The socket is closed at `i`: an explicit close, or no more events. */
  predicate ClosedAt(evs: seq<Event>, i: nat) {
    i >= |evs| || evs[i].Closed?
  }

  /**
   * A polling window's outcome: what it yielded, whether the awaited packet came,
   * whether the socket closed, and how many events it consumed (the awaited
   * packet included, the close not).
   */
  datatype Window<T> = Window(out: seq<T>, got: bool, closed: bool, used: nat)

  /** The trade proxy's window sizes, and the depth proxy's CONNACK window. */
  const TradeConnackPolls: nat := 20
  const TradeSubackPolls: nat := 20
  const DepthConnackPolls: nat := 12

  // ----- trade proxy -----

  function PayloadsOf(pubs: seq<Publish>): (r: seq<Bytes>)
    ensures |r| == |pubs|
    ensures forall k :: 0 <= k < |pubs| ==> r[k] == pubs[k].payload
  {
    seq(|pubs|, k requires 0 <= k < |pubs| => pubs[k].payload)
  }

  /** The trade proxy's streaming loop: every publish payload of every binary frame, until the close. */
  function TradeStream(evs: seq<Event>): seq<Bytes>
    decreases |evs|
  {
    if ClosedAt(evs, 0) then [] else EventPayloads(evs[0]) + TradeStream(evs[1..])
  }

  /** The payloads one event yields: those of a binary frame's publishes, none otherwise. */
  function EventPayloads(e: Event): seq<Bytes> {
    if e.BinFrame? then PayloadsOf(Publishes(TradeWalker, e.data)) else []
  }

  /**
   * The trade proxy's CONNACK window: up to `polls` events are consumed, the
   * window ending early at the first CONNACK-looking frame. Nothing is yielded:
   * publishes that arrive before the CONNACK are dropped. When it ends without a
   * CONNACK and without a close, it has used up all its polls.
   */
  function TradeConnackWindow(evs: seq<Event>, polls: nat): (w: Window<Bytes>)
    ensures w.out == [] && w.used <= polls && w.used <= |evs|
    ensures w.got ==> !w.closed && w.used >= 1 && IsConnack(evs[w.used - 1])
    ensures forall k :: 0 <= k < w.used && !(w.got && k == w.used - 1) ==> !IsConnack(evs[k]) && !evs[k].Closed?
    ensures w.closed <==> !w.got && w.used < polls
    ensures w.closed ==> ClosedAt(evs, w.used)
    decreases polls
  {
    if polls == 0 then Window([], false, false, 0)
    else if ClosedAt(evs, 0) then Window([], false, true, 0)
    else if IsConnack(evs[0]) then Window([], true, false, 1)
    else
      var w := TradeConnackWindow(evs[1..], polls - 1);
      Window([], w.got, w.closed, w.used + 1)
  }

  /**
   * The trade proxy's SUBACK window: the window ends early at the first
   * SUBACK-looking frame; every other binary frame has its publish payloads
   * yielded, exactly as the streaming loop would yield them.
   */
  function TradeSubackWindow(evs: seq<Event>, polls: nat): (w: Window<Bytes>)
    ensures w.used <= polls && w.used <= |evs|
    ensures w.got ==> !w.closed && w.used >= 1 && IsSuback(evs[w.used - 1])
    ensures forall k :: 0 <= k < w.used && !(w.got && k == w.used - 1) ==> !IsSuback(evs[k]) && !evs[k].Closed?
    ensures w.closed <==> !w.got && w.used < polls
    ensures w.closed ==> ClosedAt(evs, w.used)
    ensures w.out == TradeStream(evs[..if w.got then w.used - 1 else w.used])
    decreases polls
  {
    if polls == 0 then
      Window([], false, false, 0)
    else if ClosedAt(evs, 0) then
      Window([], false, true, 0)
    else if IsSuback(evs[0]) then
      Window([], true, false, 1)
    else
      var w := TradeSubackWindow(evs[1..], polls - 1);
      var n := if w.got then w.used - 1 else w.used;
      TradeStreamCons(evs, n);
      Window(EventPayloads(evs[0]) + w.out, w.got, w.closed, w.used + 1)
  }

  /** Streaming the first `n + 1` events is streaming the first, then the `n` after it. */
  lemma TradeStreamCons(evs: seq<Event>, n: nat)
    requires n < |evs| && !evs[0].Closed?
    ensures TradeStream(evs[..n + 1]) == EventPayloads(evs[0]) + TradeStream(evs[1..][..n])
  {
    assert evs[..n + 1][0] == evs[0];
    assert evs[..n + 1][1..] == evs[1..][..n];
  }

  /**
   * `_connect_once` of the trade proxy after CONNECT: the CONNACK window, the
   * SUBACK window, then the streaming loop; everything yielded, in order.
   */
  function TradeSession(evs: seq<Event>): seq<Bytes> {
    var c := TradeConnackWindow(evs, TradeConnackPolls);
    if c.closed then []
    else
      var rest := evs[c.used..];
      var s := TradeSubackWindow(rest, TradeSubackPolls);
      s.out + (if s.closed then [] else TradeStream(rest[s.used..]))
  }

  /** Streaming a run of events piecewise is streaming it at once, when no close lies in the first piece. */
  lemma {:induction false} TradeStreamSplit(evs: seq<Event>, k: nat)
    requires k <= |evs| && forall i :: 0 <= i < k ==> !evs[i].Closed?
    ensures TradeStream(evs) == TradeStream(evs[..k]) + TradeStream(evs[k..])
    decreases k
  {
    if k > 0 {
      TradeStreamSplit(evs[1..], k - 1);
      assert evs[..k][0] == evs[0];
      assert evs[1..][..k - 1] == evs[..k][1..];
      assert evs[1..][k - 1..] == evs[k..];
      var e0 := EventPayloads(evs[0]);
      assert TradeStream(evs[..k]) == e0 + TradeStream(evs[1..][..k - 1]);
      SeqAssoc(e0, TradeStream(evs[1..][..k - 1]), TradeStream(evs[k..]));
    }
  }

  lemma SeqAssoc<T>(a: seq<T>, b: seq<T>, c: seq<T>)
    ensures (a + b) + c == a + (b + c)
  {
  }

  /**
   * Once the CONNACK window has seen its CONNACK, the trade session yields the
   * payloads of every frame after it except the SUBACK-looking one that closes the
   * second window: nothing else is lost or repeated.
   */
  lemma TradeSessionAfterConnack(evs: seq<Event>)
    requires TradeConnackWindow(evs, TradeConnackPolls).got
    ensures var c := TradeConnackWindow(evs, TradeConnackPolls).used;
      var s := TradeSubackWindow(evs[c..], TradeSubackPolls);
      s.got ==> TradeSession(evs) == TradeStream(evs[c..][..s.used - 1]) + TradeStream(evs[c..][s.used..])
  {
  }

  /**
   * Without a SUBACK or a close in its window, the trade session after the
   * CONNACK yields what plain streaming would.
   */
  lemma TradeSessionWithoutSuback(evs: seq<Event>)
    requires TradeConnackWindow(evs, TradeConnackPolls).got
    ensures var c := TradeConnackWindow(evs, TradeConnackPolls).used;
      var s := TradeSubackWindow(evs[c..], TradeSubackPolls);
      !s.got && !s.closed ==> TradeSession(evs) == TradeStream(evs[c..])
  {
    var c := TradeConnackWindow(evs, TradeConnackPolls).used;
    var rest := evs[c..];
    var s := TradeSubackWindow(rest, TradeSubackPolls);
    if !s.got && !s.closed {
      TradeStreamSplit(rest, s.used);
    }
  }

  /**
   * A SUBACK that the broker coalesces with a PUBLISH into one WebSocket frame
   * ends the SUBACK window and takes the PUBLISH with it, although the same frame
   * during streaming would have its payload yielded.
   */
  lemma CoalescedSubackDropsPublish(topic: Bytes, payload: Bytes)
    requires 0 < |topic| < U16Limit && |payload| < 1000
    ensures var frame := EncodePackets([Packet(0x90, [0x00, 0x01, 0x00]), PublishPacket(false, 0, false, topic, 0, payload)]);
      && TradeSubackWindow([BinFrame(frame)], TradeSubackPolls) == Window([], true, false, 1)
      && TradeStream([BinFrame(frame)]) == [payload]
  {
    var frame := EncodePackets([Packet(0x90, [0x00, 0x01, 0x00]), PublishPacket(false, 0, false, topic, 0, payload)]);
    SubackThenPublish(TradeWalker, topic, payload);
    assert [BinFrame(frame)][1..] == [];
  }

  // ----- depth proxy -----

  /**
   * What the depth proxy needs to turn a frame into tables: the topic decoder of
   * the walker, the snapshot parse and the price formatting.
   */
  datatype DepthCodec<!P> = DepthCodec(
    topic: Bytes -> string,
    parse: Bytes -> Option<(seq<Depth.Entry<P>>, seq<Depth.Entry<P>>)>,
    fmt: P -> string)

  /** The tables of the payloads that decode and are non-empty, in order; failed decodes are skipped. */
  function Tables<P>(payloads: seq<Bytes>, codec: DepthCodec<P>): seq<seq<Depth.Row>>
    decreases |payloads|
  {
    if |payloads| == 0 then []
    else
      var rest := Tables(payloads[1..], codec);
      match Depth.DecodeDepthSnapshot(payloads[0], codec.parse, codec.fmt)
      case Err(_) => rest
      case Ok(levels) => if |levels| > 0 then [levels] + rest else rest
  }

  /** The payloads that parse, in order. */
  function Parsed<P>(payloads: seq<Bytes>, codec: DepthCodec<P>): (r: seq<Bytes>)
    ensures |r| <= |payloads|
    decreases |payloads|
  {
    if |payloads| == 0 then []
    else if codec.parse(payloads[0]).Some? then [payloads[0]] + Parsed(payloads[1..], codec)
    else Parsed(payloads[1..], codec)
  }

  /**
   * The `if levels` test never drops a table: a payload yields exactly when it
   * parses, and each table has the ten rows of its snapshot.
   */
  lemma {:induction false} TablesAreParsed<P>(payloads: seq<Bytes>, codec: DepthCodec<P>)
    ensures var ps := Parsed(payloads, codec);
      var ts := Tables(payloads, codec);
      && |ts| == |ps|
      && forall k :: 0 <= k < |ts| ==> codec.parse(ps[k]).Some? && ts[k] == Depth.AlignDepth(codec.parse(ps[k]).value.0, codec.parse(ps[k]).value.1, codec.fmt)
    decreases |payloads|
  {
    if |payloads| > 0 {
      TablesAreParsed(payloads[1..], codec);
    }
  }

  /** The tables one non-SUBACK binary frame yields. */
  function FrameTables<P>(frame: Bytes, codec: DepthCodec<P>): seq<seq<Depth.Row>> {
    Tables(DepthPayloads(frame, codec.topic), codec)
  }

  /** The tables one event yields: SUBACK-looking frames and non-binary events yield none. */
  function EventTables<P>(e: Event, codec: DepthCodec<P>): seq<seq<Depth.Row>> {
    if e.BinFrame? && !LooksSuback(e.data) then FrameTables(e.data, codec) else []
  }

  /** The depth proxy's streaming loop: SUBACK-looking frames skipped, every other binary frame decoded. */
  function DepthStream<P>(evs: seq<Event>, codec: DepthCodec<P>): seq<seq<Depth.Row>>
    decreases |evs|
  {
    if ClosedAt(evs, 0) then [] else EventTables(evs[0], codec) + DepthStream(evs[1..], codec)
  }

  /**
   * The depth proxy's CONNACK window: it ends early at the first CONNACK-looking
   * frame, skips SUBACK-looking frames, and yields the tables of every other
   * binary frame exactly as the streaming loop would.
   */
  function DepthConnackWindow<P>(evs: seq<Event>, polls: nat, codec: DepthCodec<P>): (w: Window<seq<Depth.Row>>)
    ensures w.used <= polls && w.used <= |evs|
    ensures w.got ==> !w.closed && w.used >= 1 && IsConnack(evs[w.used - 1])
    ensures forall k :: 0 <= k < w.used && !(w.got && k == w.used - 1) ==> !IsConnack(evs[k]) && !evs[k].Closed?
    ensures w.closed <==> !w.got && w.used < polls
    ensures w.closed ==> ClosedAt(evs, w.used)
    ensures w.out == DepthStream(evs[..if w.got then w.used - 1 else w.used], codec)
    decreases polls
  {
    if polls == 0 then
      Window([], false, false, 0)
    else if ClosedAt(evs, 0) then
      Window([], false, true, 0)
    else if IsConnack(evs[0]) then
      Window([], true, false, 1)
    else
      var w := DepthConnackWindow(evs[1..], polls - 1, codec);
      var n := if w.got then w.used - 1 else w.used;
      DepthStreamCons(evs, n, codec);
      Window(EventTables(evs[0], codec) + w.out, w.got, w.closed, w.used + 1)
  }

  /** Streaming the first `n + 1` events is streaming the first, then the `n` after it. */
  lemma DepthStreamCons<P>(evs: seq<Event>, n: nat, codec: DepthCodec<P>)
    requires n < |evs| && !evs[0].Closed?
    ensures DepthStream(evs[..n + 1], codec) == EventTables(evs[0], codec) + DepthStream(evs[1..][..n], codec)
  {
    assert evs[..n + 1][0] == evs[0];
    assert evs[..n + 1][1..] == evs[1..][..n];
  }

  /** `_connect_once` of the depth proxy after CONNECT: the CONNACK window, then streaming. */
  function DepthSession<P>(evs: seq<Event>, codec: DepthCodec<P>): seq<seq<Depth.Row>> {
    var c := DepthConnackWindow(evs, DepthConnackPolls, codec);
    c.out + (if c.closed then [] else DepthStream(evs[c.used..], codec))
  }

  lemma {:induction false} DepthStreamSplit<P>(evs: seq<Event>, k: nat, codec: DepthCodec<P>)
    requires k <= |evs| && forall i :: 0 <= i < k ==> !evs[i].Closed?
    ensures DepthStream(evs, codec) == DepthStream(evs[..k], codec) + DepthStream(evs[k..], codec)
    decreases k
  {
    if k > 0 {
      DepthStreamSplit(evs[1..], k - 1, codec);
      assert evs[..k][0] == evs[0];
      assert evs[1..][..k - 1] == evs[..k][1..];
      assert evs[1..][k - 1..] == evs[k..];
      var e0 := EventTables(evs[0], codec);
      assert DepthStream(evs[..k], codec) == e0 + DepthStream(evs[1..][..k - 1], codec);
      SeqAssoc(e0, DepthStream(evs[1..][..k - 1], codec), DepthStream(evs[k..], codec));
    }
  }

  /**
   * The depth session loses only the CONNACK frame: it yields what streaming the
   * whole socket would, with the CONNACK-looking frame that closed the window
   * left out, and exactly what streaming would when no CONNACK came.
   */
  lemma DepthSessionLosesOnlyConnack<P>(evs: seq<Event>, codec: DepthCodec<P>)
    ensures var c := DepthConnackWindow(evs, DepthConnackPolls, codec);
      && (c.got ==> DepthSession(evs, codec) == DepthStream(evs[..c.used - 1], codec) + DepthStream(evs[c.used..], codec))
      && (!c.got ==> DepthSession(evs, codec) == DepthStream(evs, codec))
  {
    var c := DepthConnackWindow(evs, DepthConnackPolls, codec);
    if !c.got {
      DepthStreamSplit(evs, c.used, codec);
      if c.closed {
        DepthStreamClosed(evs[c.used..], codec);
      }
    }
  }

  lemma DepthStreamClosed<P>(evs: seq<Event>, codec: DepthCodec<P>)
    requires ClosedAt(evs, 0)
    ensures DepthStream(evs, codec) == []
  {
  }

  // ----- heatmap reconnect loop -----

  const BackoffStart: real := 1.0
  const BackoffCap: real := 15.0

  /** The backoff after one `_connect_once`: reset by a clean end, grown by 1.7 (up to the cap) by an error. */
  function NextBackoff(b: real, cleanEnd: bool): (r: real)
    ensures cleanEnd ==> r == BackoffStart
    ensures !cleanEnd ==> r <= BackoffCap && r <= b * 1.7 && (r == BackoffCap || r == b * 1.7)
  {
    if cleanEnd then BackoffStart
    else if b * 1.7 < BackoffCap then b * 1.7 else BackoffCap
  }

  /** The sleeps of a run of connection attempts: one per error, of the backoff in force. */
  function Sleeps(b: real, outcomes: seq<bool>): seq<real>
    decreases |outcomes|
  {
    if |outcomes| == 0 then []
    else (if outcomes[0] then [] else [b]) + Sleeps(NextBackoff(b, outcomes[0]), outcomes[1..])
  }

  /** Every sleep lies between one and fifteen seconds, whatever the outcomes. */
  lemma {:induction false} SleepsBounded(b: real, outcomes: seq<bool>)
    requires BackoffStart <= b <= BackoffCap
    ensures forall k :: 0 <= k < |Sleeps(b, outcomes)| ==> BackoffStart <= Sleeps(b, outcomes)[k] <= BackoffCap
    decreases |outcomes|
  {
    if |outcomes| > 0 {
      SleepsBounded(NextBackoff(b, outcomes[0]), outcomes[1..]);
    }
  }

  /** Seven errors in a row sleep 1, 1.7, 2.89, 4.913, 8.3521, 14.19857 and then the 15-second cap. */
  lemma BackoffSchedule()
    ensures Sleeps(BackoffStart, [false, false, false, false, false, false, false])
      == [1.0, 1.7, 2.89, 4.913, 8.3521, 14.19857, 15.0]
  {
    var s := [false, false, false, false, false, false, false];
    assert s[1..] == [false, false, false, false, false, false];
    assert s[2..] == [false, false, false, false, false];
    assert s[3..] == [false, false, false, false];
    assert s[4..] == [false, false, false];
    assert s[5..] == [false, false];
    assert s[6..] == [false];
  }

  /** A clean end resets the schedule: the next error sleeps one second again. */
  lemma CleanEndResets(b: real, rest: seq<bool>)
    ensures |Sleeps(b, [true, false] + rest)| >= 1 && Sleeps(b, [true, false] + rest)[0] == BackoffStart
  {
    assert ([true, false] + rest)[1..] == [false] + rest;
    assert ([false] + rest)[1..] == rest;
  }
}
