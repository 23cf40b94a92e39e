/**
 * Splitting one WebSocket binary frame into MQTT control packets and picking out
 * the PUBLISH packets. Three copies of the walker exist upstream: the market and
 * trade proxies cap the remaining-length field at four bytes (one inline, one
 * through `_read_vlq`), the depth proxy reads it without a cap.
 */
module Frames {
  import opened Wrappers
  import opened Bytes
  import opened Varint

  /** A control packet: the fixed-header byte and the `remaining length` bytes after it. */
  datatype Packet = Packet(header: Byte, body: Bytes)

  /** A PUBLISH packet's topic (raw UTF-8 bytes) and application payload. */
  datatype Publish = Publish(topic: Bytes, payload: Bytes)

  /** Which copy of the frame walker is meant. */
  datatype Walker = MarketWalker | TradeWalker | DepthWalker

  const PublishType: nat := 3
  const SubackType: nat := 9

  /** `_looks_connack`: a CONNACK with a remaining length of at least 2, no flags, return code 0. */
  predicate LooksConnack(b: Bytes) {
    |b| >= 4 && b[0] == 0x20 && b[1] >= 2 && b[2] == 0x00 && b[3] == 0x00
  }

  /** `_looks_suback`: at least four bytes, and the first byte's high nibble is 9. */
  predicate LooksSuback(b: Bytes) {
    |b| >= 4 && b[0] / 16 == SubackType
  }

  /**
   * The market proxy's inline remaining-length loop, run at `data[i]` after `n` groups
   * with multiplier `m` and partial value `rem`. `None` is the generator's bare `return`.
   */
  function MarketLength(data: Bytes, i: nat, n: nat, m: nat, rem: nat): (r: Option<(nat, nat)>)
    ensures r.Some? ==> r.value.1 > n
    decreases |data| - (i + n)
  {
    if i + n >= |data| then None
    else
      var b := data[i + n];
      var rem' := rem + (b % 128) * m;
      if b < 128 then Some((rem', n + 1))
      else if m * 128 > Pow128(3) then None
      else MarketLength(data, i, n + 1, m * 128, rem')
  }

  /**
   * The depth proxy's inline remaining-length loop at index `j` with multiplier `mult`;
   * it has no cap. Returns the length and the index after the field.
   */
  function DepthLength(data: Bytes, j: nat, mult: nat, rem: nat): (r: Option<(nat, nat)>)
    ensures r.Some? ==> j < r.value.1 <= |data|
    decreases |data| - j
  {
    if j >= |data| then None
    else
      var enc := data[j];
      var rem' := rem + (enc % 128) * mult;
      if enc < 128 then Some((rem', j + 1))
      else DepthLength(data, j + 1, mult * 128, rem')
  }

  function ToOption<T>(r: Result<T, ReadError>): Option<T> {
    if r.Ok? then Some(r.value) else None
  }

  /** The cap each walker puts on the remaining-length field. */
  function WalkerCap(w: Walker): (c: Option<nat>)
    ensures c.Some? ==> c.value >= 1
  {
    if w.DepthWalker? then None else Some(4)
  }

  /**
   * The remaining-length field at `data[i]` as each walker reads it: the length and the
   * bytes used. The trade walker calls `_read_vlq`; `InlineLoopsAgree` shows the market
   * and depth walkers' inline loops compute the same.
   */
  function RemainingLength(w: Walker, data: Bytes, i: nat): (r: Option<(nat, nat)>)
    ensures r.Some? ==> 1 <= r.value.1 && i + r.value.1 <= |data|
  {
    ToOption(Read(data, i, WalkerCap(w)))
  }

  /** Each walker's own loop computes `RemainingLength`. */
  lemma InlineLoopsAgree(data: Bytes, i: nat)
    ensures MarketLength(data, i, 0, 1, 0) == RemainingLength(MarketWalker, data, i)
    ensures ToOption(ReadVlq(data, i)) == RemainingLength(TradeWalker, data, i)
    ensures match DepthLength(data, i, 1, 0)
      case None => RemainingLength(DepthWalker, data, i) == None
      case Some((v, j)) => RemainingLength(DepthWalker, data, i) == Some((v, j - i))
  {
    LoopsAgree(data, i);
  }

  /** Both inline loops read the field as `Read` does, with and without the four-group cap. */
  lemma LoopsAgree(data: Bytes, i: nat)
    ensures MarketLength(data, i, 0, 1, 0) == ToOption(Read(data, i, Some(4)))
    ensures DepthLength(data, i, 1, 0) ==
      var r := Read(data, i, None);
      if r.Ok? then Some((r.value.0, i + r.value.1)) else None
  {
    MarketLengthAgrees(data, i, 0, 0);
    DepthLengthAgrees(data, i, 0, 1, 0);
  }

  /** A reader result carried on from group `g`: the groups already read are worth `base`, the next weighs `p`. */
  function Carry(r: Result<(nat, nat), ReadError>, base: nat, p: nat): Option<(nat, nat)> {
    if r.Ok? then Some((base + p * r.value.0, r.value.1)) else None
  }

  lemma CarryStep(base: nat, p: nat, c: nat, v: nat)
    ensures base + p * (c + 128 * v) == (base + p * c) + (128 * p) * v
  {
  }

  /** The market loop, from group `g` with partial value `base`, computes what `Read` with a cap of four computes. */
  lemma {:induction false} MarketLengthAgrees(data: Bytes, i: nat, g: nat, base: nat)
    requires g < 4
    ensures MarketLength(data, i, g, Pow128(g), base) == Carry(ReadFrom(data, i, g, Some(4)), base, Pow128(g))
    decreases |data| - (i + g)
  {
    if i + g < |data| {
      var b, p := data[i + g], Pow128(g);
      if b < 128 {
        assert MarketLength(data, i, g, p, base) == Some((base + (b % 128) * p, g + 1));
        assert (b % 128) * p == p * b;
      } else if g + 1 < 4 {
        MarketLengthAgrees(data, i, g + 1, base + (b % 128) * p);
        MarketGroupStep(data, i, g, base);
      } else {
        MarketCap(g);
      }
    }
  }

  /** One continuation group: if the loop agrees with `Read` from group `g + 1`, it agrees from group `g`. */
  lemma MarketGroupStep(data: Bytes, i: nat, g: nat, base: nat)
    requires g + 1 < 4 && i + g < |data| && data[i + g] >= 128
    requires var base' := base + (data[i + g] % 128) * Pow128(g);
      MarketLength(data, i, g + 1, Pow128(g + 1), base') == Carry(ReadFrom(data, i, g + 1, Some(4)), base', Pow128(g + 1))
    ensures MarketLength(data, i, g, Pow128(g), base) == Carry(ReadFrom(data, i, g, Some(4)), base, Pow128(g))
  {
    var c, p, p' := data[i + g] % 128, Pow128(g), Pow128(g + 1);
    MarketCap(g);
    assert !(p * 128 > Pow128(3));
    assert MarketLength(data, i, g, p, base) == MarketLength(data, i, g + 1, p', base + c * p);
    var r := ReadFrom(data, i, g + 1, Some(4));
    if r.Ok? {
      assert ReadFrom(data, i, g, Some(4)) == Ok((c + 128 * r.value.0, r.value.1));
      CarryStep(base, p, c, r.value.0);
      assert 128 * p == p';
    } else {
      assert ReadFrom(data, i, g, Some(4)).Err?;
    }
  }

  /** The market loop's `m > 128**3` test after group `g` is the four-group cap. */
  lemma MarketCap(g: nat)
    requires g < 4
    ensures Pow128(g) * 128 == Pow128(g + 1)
    ensures Pow128(g + 1) > Pow128(3) <==> g + 1 >= 4
  {
    if g + 1 < 4 {
      Pow128Mono(g + 1, 3);
    } else {
      assert Pow128(4) == 128 * Pow128(3);
    }
  }

  /** The depth loop at index `i + g`, multiplier `p` and partial value `base`, computes what the uncapped `Read` computes. */
  lemma {:induction false} DepthLengthAgrees(data: Bytes, i: nat, g: nat, p: nat, base: nat)
    ensures DepthLength(data, i + g, p, base) ==
      var r := ReadFrom(data, i, g, None);
      if r.Ok? then Some((base + p * r.value.0, i + r.value.1)) else None
    decreases |data| - (i + g)
  {
    if i + g < |data| && data[i + g] >= 128 {
      var b := data[i + g];
      DepthLengthAgrees(data, i, g + 1, p * 128, base + (b % 128) * p);
      var r := ReadFrom(data, i, g + 1, None);
      if r.Ok? {
        CarryStep(base, p, b % 128, r.value.0);
        assert p * 128 == 128 * p;
      }
    }
  }

  /**
   * The packets of a frame, front to back: `_iter_publish_payloads` walks the frame with an index,
   * here the consumed prefix is dropped instead. The walk stops, keeping what it has,
   * when fewer than two bytes remain, when the remaining-length field cannot be read,
   * or when a packet claims more bytes than are left.
   */
  function Packets(w: Walker, data: Bytes): seq<Packet>
    decreases |data|
  {
    if |data| < 2 then []
    else match RemainingLength(w, data, 1)
      case None => []
      case Some((rem, n)) =>
        if 1 + n + rem > |data| then []
        else [Packet(data[0], data[1 + n..1 + n + rem])] + Packets(w, data[1 + n + rem..])
  }

  /** The PUBLISH packet's topic and payload; `None` for other packets and for a malformed PUBLISH. */
  function ExtractPublish(p: Packet): (r: Option<Publish>)
    ensures r.Some? ==> p.header / 16 == PublishType
  {
    if p.header / 16 != PublishType || |p.body| < 2 then None
    else
      var tlen := DecU16(p.body);
      if 2 + tlen > |p.body| then None
      else
        var topic := p.body[2..2 + tlen];
        var j := 2 + tlen;
        var qos := (p.header % 16) / 2 % 4;
        if qos == 0 then Some(Publish(topic, p.body[j..]))
        else if j + 2 > |p.body| then None
        else Some(Publish(topic, p.body[j + 2..]))
  }

  /** The publishes among `ps`, in order. */
  function PublishesOf(ps: seq<Packet>): (r: seq<Publish>)
    ensures |r| <= |ps|
  {
    if |ps| == 0 then []
    else
      match ExtractPublish(ps[0])
      case None => PublishesOf(ps[1..])
      case Some(pub) => [pub] + PublishesOf(ps[1..])
  }

  /** `_iter_publish_payloads` / `mqtt_iter_publish_payloads` before topic decoding. */
  function Publishes(w: Walker, frame: Bytes): seq<Publish> {
    PublishesOf(Packets(w, frame))
  }

  /** The depth proxy's topic filter. */
  predicate IsDepthTopic(t: string) {
    || (|t| >= 9 && t[..9] == "mx/depth/")
    || (|t| >= 14 && t[..14] == "mx/depthstats/")
  }

  /** `mqtt_iter_publish_payloads`: the payloads whose decoded topic passes the depth filter. */
  function DepthPayloads(frame: Bytes, decode: Bytes -> string): (r: seq<Bytes>)
    ensures |r| <= |Publishes(DepthWalker, frame)|
  {
    FilterDepth(Publishes(DepthWalker, frame), decode)
  }

  function FilterDepth(pubs: seq<Publish>, decode: Bytes -> string): (r: seq<Bytes>)
    ensures |r| <= |pubs|
  {
    if |pubs| == 0 then []
    else if IsDepthTopic(decode(pubs[0].topic)) then [pubs[0].payload] + FilterDepth(pubs[1..], decode)
    else FilterDepth(pubs[1..], decode)
  }

  /** The depth filter keeps `mx/depth/...` and `mx/depthstats/...` topics and nothing else. */
  lemma DepthTopicExamples()
    ensures IsDepthTopic("mx/depth/GARAN")
    ensures IsDepthTopic("mx/depthstats/GARAN")
    ensures !IsDepthTopic("mx/depth")
    ensures !IsDepthTopic("mx/trade/GARAN")
  {
    assert "mx/depth/GARAN"[..9] == "mx/depth/";
    assert "mx/depthstats/GARAN"[..14] == "mx/depthstats/";
    assert "mx/trade/GARAN"[3] != "mx/depth/"[3];
    assert "mx/trade/GARAN"[..9] != "mx/depth/";
    assert "mx/trade/GARAN"[..14] != "mx/depthstats/";
  }

  /** The filter keeps a payload exactly when its decoded topic passes, in frame order. */
  lemma {:induction false} FilterDepthAppend(a: seq<Publish>, b: seq<Publish>, decode: Bytes -> string)
    ensures FilterDepth(a + b, decode) == FilterDepth(a, decode) + FilterDepth(b, decode)
  {
    if |a| == 0 {
      assert a + b == b;
    } else {
      assert (a + b)[0] == a[0];
      assert (a + b)[1..] == a[1..] + b;
      FilterDepthAppend(a[1..], b, decode);
      if IsDepthTopic(decode(a[0].topic)) {
        assert [a[0].payload] + (FilterDepth(a[1..], decode) + FilterDepth(b, decode))
          == ([a[0].payload] + FilterDepth(a[1..], decode)) + FilterDepth(b, decode);
      }
    }
  }

  // ---------------------------------------------------------------------------
  // The encoder side: what a broker puts in a frame.
  // ---------------------------------------------------------------------------

  /** A packet on the wire: fixed header, remaining length, body. */
  function EncodePacket(p: Packet): (r: Bytes)
    ensures |r| >= 2
  {
    [p.header] + Encode(|p.body|) + p.body
  }

  function EncodePackets(ps: seq<Packet>): Bytes {
    if |ps| == 0 then [] else EncodePacket(ps[0]) + EncodePackets(ps[1..])
  }

  /** The packet's length fits the walker's remaining-length field. */
  predicate Fits(w: Walker, p: Packet) {
    w.DepthWalker? || |p.body| < Pow128(4)
  }

  /** A PUBLISH packet with the given flags, topic, packet id (sent only when qos > 0) and payload. */
  function PublishPacket(dup: bool, qos: nat, retain: bool, topic: Bytes, pid: nat, payload: Bytes): Packet
    requires qos < 4 && |topic| < U16Limit && pid < U16Limit
  {
    Packet(0x30 + (if dup then 8 else 0) + 2 * qos + (if retain then 1 else 0),
           EncU16(|topic|) + topic + (if qos == 0 then [] else EncU16(pid)) + payload)
  }

  /** Extraction undoes `PublishPacket`: topic and payload come back, the packet id is dropped. */
  lemma ExtractPublishPacket(dup: bool, qos: nat, retain: bool, topic: Bytes, pid: nat, payload: Bytes)
    requires qos < 4 && |topic| < U16Limit && pid < U16Limit
    ensures ExtractPublish(PublishPacket(dup, qos, retain, topic, pid, payload)) == Some(Publish(topic, payload))
  {
    var p := PublishPacket(dup, qos, retain, topic, pid, payload);
    var tl := EncU16(|topic|);
    assert p.body[..2] == tl;
    assert DecU16(p.body) == DecU16(tl);
    assert p.body[2..2 + |topic|] == topic;
    if qos == 0 {
      assert p.body[2 + |topic|..] == payload;
    } else {
      assert p.body[2 + |topic| + 2..] == payload;
    }
  }

  /** Only packets whose type nibble is 3 yield anything. */
  lemma NonPublishYieldsNothing(p: Packet)
    requires p.header / 16 != PublishType
    ensures ExtractPublish(p) == None
    ensures PublishesOf([p]) == []
  {
  }

  /** `PublishesOf` distributes over concatenation: publishes keep their frame order. */
  lemma {:induction false} PublishesOfAppend(a: seq<Packet>, b: seq<Packet>)
    ensures PublishesOf(a + b) == PublishesOf(a) + PublishesOf(b)
  {
    if |a| == 0 {
      assert a + b == b;
    } else {
      assert (a + b)[0] == a[0];
      assert (a + b)[1..] == a[1..] + b;
      PublishesOfAppend(a[1..], b);
      match ExtractPublish(a[0])
      case None =>
      case Some(pub) =>
        assert [pub] + (PublishesOf(a[1..]) + PublishesOf(b)) == ([pub] + PublishesOf(a[1..])) + PublishesOf(b);
    }
  }

  /** The walker's step once the remaining-length field is known to read as `(rem, n)`. */
  lemma PacketsStep(w: Walker, data: Bytes, rem: nat, n: nat)
    requires 1 + n + rem <= |data|
    requires Read(data, 1, WalkerCap(w)) == Ok((rem, n))
    ensures Packets(w, data) == [Packet(data[0], data[1 + n..1 + n + rem])] + Packets(w, data[1 + n + rem..])
  {
    PacketsUnfold(w, data, (rem, n));
  }

  /** One unfolding of the walker, with the remaining-length field as an opaque pair. */
  lemma PacketsUnfold(w: Walker, data: Bytes, ln: (nat, nat))
    requires |data| >= 2 && RemainingLength(w, data, 1) == Some(ln)
    requires 1 + ln.1 + ln.0 <= |data|
    ensures Packets(w, data) == [Packet(data[0], data[1 + ln.1..1 + ln.1 + ln.0])] + Packets(w, data[1 + ln.1 + ln.0..])
  {
  }

  /** The walker stops: too few bytes, an unreadable length field, or a length past the end. */
  lemma PacketsStop(w: Walker, data: Bytes)
    requires var r := Read(data, 1, WalkerCap(w));
      || |data| < 2
      || r.Err?
      || 1 + r.value.1 + r.value.0 > |data|
    ensures Packets(w, data) == []
  {
  }

  /** One encoded packet at the front is read back whole, and the walk resumes right after it. */
  lemma PacketFirst(w: Walker, p: Packet, rest: Bytes)
    requires Fits(w, p)
    ensures Packets(w, EncodePacket(p) + rest) == [p] + Packets(w, rest)
  {
    var e := Encode(|p.body|);
    if !w.DepthWalker? {
      EncodeLength(|p.body|, 4);
    }
    var data := EncodePacket(p) + rest;
    assert data == [p.header] + e + p.body + rest;
    assert data[1..1 + |e|] == e;
    ReadEncoded(data, 1, |p.body|, WalkerCap(w));
    PacketsStep(w, data, |p.body|, |e|);
    assert data[1 + |e|..1 + |e| + |p.body|] == p.body;
    assert data[1 + |e| + |p.body|..] == rest;
  }

  /**
   * Packets encoded back to back at the front of a frame are the first packets the
   * walker finds, whatever follows them.
   */
  lemma {:induction false} PacketsAppend(w: Walker, ps: seq<Packet>, tail: Bytes)
    requires forall k :: 0 <= k < |ps| ==> Fits(w, ps[k])
    ensures Packets(w, EncodePackets(ps) + tail) == ps + Packets(w, tail)
    decreases |ps|
  {
    if |ps| == 0 {
      assert EncodePackets(ps) + tail == tail;
      assert ps + Packets(w, tail) == Packets(w, tail);
    } else {
      var p := ps[0];
      var rest := EncodePackets(ps[1..]) + tail;
      assert EncodePackets(ps) + tail == EncodePacket(p) + rest;
      PacketFirst(w, p, rest);
      FitsTail(w, ps);
      PacketsAppend(w, ps[1..], tail);
      ConsAppend(p, ps, Packets(w, tail));
    }
  }

  lemma FitsTail(w: Walker, ps: seq<Packet>)
    requires |ps| > 0 && forall k :: 0 <= k < |ps| ==> Fits(w, ps[k])
    ensures forall k :: 0 <= k < |ps[1..]| ==> Fits(w, ps[1..][k])
  {
  }

  lemma ConsAppend<T>(x: T, xs: seq<T>, ys: seq<T>)
    requires |xs| > 0 && xs[0] == x
    ensures [x] + (xs[1..] + ys) == xs + ys
  {
    assert xs == [x] + xs[1..];
  }

  /** The round trip: the walker recovers every packet of a well-formed frame. */
  lemma PacketsRoundTrip(w: Walker, ps: seq<Packet>)
    requires forall k :: 0 <= k < |ps| ==> Fits(w, ps[k])
    ensures Packets(w, EncodePackets(ps)) == ps
    ensures Publishes(w, EncodePackets(ps)) == PublishesOf(ps)
  {
    PacketsAppend(w, ps, []);
    assert EncodePackets(ps) + [] == EncodePackets(ps);
    assert ps + [] == ps;
  }

  /**
   * Junk after well-formed packets ends the walk without losing them: a frame
   * whose tail cannot start a packet yields exactly the packets before it.
   */
  lemma TrailingJunkIgnored(w: Walker, ps: seq<Packet>, tail: Bytes)
    requires forall k :: 0 <= k < |ps| ==> Fits(w, ps[k])
    requires var r := Read(tail, 1, WalkerCap(w));
      || |tail| < 2
      || r.Err?
      || 1 + r.value.1 + r.value.0 > |tail|
    ensures Packets(w, EncodePackets(ps) + tail) == ps
  {
    PacketsStop(w, tail);
    PacketsAppend(w, ps, tail);
    assert ps + [] == ps;
  }

  /**
   * A malformed PUBLISH (topic length past the packet's end) is skipped, and the
   * packets after it are still processed.
   */
  lemma MalformedPublishSkipped(w: Walker, bad: Packet, ps: seq<Packet>)
    requires Fits(w, bad) && forall k :: 0 <= k < |ps| ==> Fits(w, ps[k])
    requires bad.header / 16 == PublishType && (|bad.body| < 2 || 2 + DecU16(bad.body) > |bad.body|)
    ensures Publishes(w, EncodePackets([bad] + ps)) == PublishesOf(ps)
  {
    assert ExtractPublish(bad).None?;
    SkipNonPublish(w, bad, ps);
  }

  /** A fitting packet that yields no publish is walked over. */
  lemma SkipNonPublish(w: Walker, bad: Packet, ps: seq<Packet>)
    requires Fits(w, bad) && forall k :: 0 <= k < |ps| ==> Fits(w, ps[k])
    requires ExtractPublish(bad).None?
    ensures Publishes(w, EncodePackets([bad] + ps)) == PublishesOf(ps)
  {
    var rest := EncodePackets(ps);
    assert EncodePackets([bad] + ps) == EncodePacket(bad) + rest by {
      assert ([bad] + ps)[0] == bad;
      assert ([bad] + ps)[1..] == ps;
    }
    PacketFirst(w, bad, rest);
    PublishesRoundTrip(w, ps);
    SkipFirst(bad, Packets(w, rest));
  }

  /** The publishes of a well-formed frame are those of its packets. */
  lemma PublishesRoundTrip(w: Walker, ps: seq<Packet>)
    requires forall k :: 0 <= k < |ps| ==> Fits(w, ps[k])
    ensures Publishes(w, EncodePackets(ps)) == PublishesOf(ps)
  {
    PacketsRoundTrip(w, ps);
  }

  /** A packet that is not a well-formed PUBLISH contributes nothing. */
  lemma SkipFirst(bad: Packet, ps: seq<Packet>)
    requires ExtractPublish(bad).None?
    ensures PublishesOf([bad] + ps) == PublishesOf(ps)
  {
    assert ([bad] + ps)[0] == bad;
    assert ([bad] + ps)[1..] == ps;
  }

  /** A frame with a SUBACK followed by a PUBLISH yields the PUBLISH alone. */
  lemma SubackThenPublish(w: Walker, topic: Bytes, payload: Bytes)
    requires 0 < |topic| < U16Limit && |payload| < 1000
    ensures var pub := PublishPacket(false, 0, false, topic, 0, payload);
      var frame := EncodePackets([Packet(0x90, [0x00, 0x01, 0x00]), pub]);
      && LooksSuback(frame)
      && Publishes(w, frame) == [Publish(topic, payload)]
  {
    var pub := PublishPacket(false, 0, false, topic, 0, payload);
    var sub := Packet(0x90, [0x00, 0x01, 0x00]);
    assert |pub.body| < Pow128(4) by {
      assert Pow128(4) == 268435456;
    }
    PacketsRoundTrip(w, [sub, pub]);
    ExtractPublishPacket(false, 0, false, topic, 0, payload);
    assert [sub, pub][1..] == [pub];
    assert EncodePackets([sub, pub])[0] == 0x90;
  }

  /** The capped walkers find a prefix of the packets the uncapped depth walker finds. */
  lemma {:induction false} CappedIsPrefix(w: Walker, data: Bytes)
    ensures Packets(w, data) <= Packets(DepthWalker, data)
    decreases |data|
  {
    var r := Read(data, 1, WalkerCap(w));
    if w.DepthWalker? {
    } else if |data| < 2 || r.Err? || 1 + r.value.1 + r.value.0 > |data| {
      PacketsStop(w, data);
    } else {
      var (rem, n) := r.value;
      CappedAgreesWithUncapped(data, 1, 4);
      PacketsStep(w, data, rem, n);
      PacketsStep(DepthWalker, data, rem, n);
      CappedIsPrefix(w, data[1 + n + rem..]);
    }
  }

  /** A PUBLISH whose remaining length 2 is written in five groups, zero-padded. */
  const PaddedLengthFrame: Bytes := [0x30, 0x82, 0x80, 0x80, 0x80, 0x00, 0x00, 0x00]

  /**
   * The padded length stops the market and trade walkers, while the depth walker
   * reads the packet behind it: the copies do not agree on every frame.
   */
  lemma PaddedLengthDiffers()
    ensures Publishes(MarketWalker, PaddedLengthFrame) == []
    ensures Publishes(TradeWalker, PaddedLengthFrame) == []
    ensures Publishes(DepthWalker, PaddedLengthFrame) == [Publish([], [])]
  {
    PaddedLengthCapped(MarketWalker);
    PaddedLengthCapped(TradeWalker);
    PaddedLengthUncapped();
  }

  lemma PaddedLengthCapped(w: Walker)
    requires !w.DepthWalker?
    ensures Packets(w, PaddedLengthFrame) == []
  {
    var frame := PaddedLengthFrame;
    assert RunsPastCap(frame, 1, Some(4));
    ReadSpec(frame, 1, Some(4));
    PacketsStop(w, frame);
  }

  lemma PaddedLengthUncapped()
    ensures Packets(DepthWalker, PaddedLengthFrame) == [Packet(0x30, [0x00, 0x00])]
    ensures ExtractPublish(Packet(0x30, [0x00, 0x00])) == Some(Publish([], []))
  {
    var frame := PaddedLengthFrame;
    var run := PaddedRun();
    assert frame[1..6] == run;
    ReadRun(frame, 1, run, None);
    PacketsStep(DepthWalker, frame, 2, 5);
    assert frame[6..8] == [0x00, 0x00];
    assert frame[8..] == [];
    assert Packets(DepthWalker, []) == [];
    var pkt := Packet(0x30, [0x00, 0x00]);
    assert pkt.body[2..] == [] && pkt.body[2..2] == [];
  }

  /** The five groups 0x82 0x80 0x80 0x80 0x00 form one run worth 2. */
  lemma PaddedRun() returns (run: Bytes)
    ensures run == [0x82, 0x80, 0x80, 0x80, 0x00]
    ensures WellFormed(run) && Value(run) == 2
  {
    var z1: Bytes := [0x00];
    var z2: Bytes := [0x80] + z1;
    var z3: Bytes := [0x80] + z2;
    var z4: Bytes := [0x80] + z3;
    assert Value(z1) == 0 by { assert z1[1..] == []; }
    assert Value(z2) == 0 by { assert z2[1..] == z1; }
    assert Value(z3) == 0 by { assert z3[1..] == z2; }
    assert Value(z4) == 0 by { assert z4[1..] == z3; }
    run := [0x82] + z4;
    assert run[1..] == z4;
  }

  /** `_looks_connack` accepts the broker's successful CONNACK and rejects a refusal. */
  lemma ConnackExamples()
    ensures LooksConnack(EncodePacket(Packet(0x20, [0x00, 0x00])))
    ensures !LooksConnack(EncodePacket(Packet(0x20, [0x00, 0x05])))
    ensures !LooksSuback(EncodePacket(Packet(0x20, [0x00, 0x00])))
  {
    assert EncodePacket(Packet(0x20, [0x00, 0x00])) == [0x20, 0x02, 0x00, 0x00];
    assert EncodePacket(Packet(0x20, [0x00, 0x05])) == [0x20, 0x02, 0x00, 0x05];
  }

  /** A frame starting with an encoded SUBACK of at least two body bytes is recognised. */
  lemma SubackRecognised(body: Bytes, more: Bytes)
    requires 2 <= |body| < 128
    ensures LooksSuback(EncodePacket(Packet(0x90, body)) + more)
    ensures !LooksConnack(EncodePacket(Packet(0x90, body)) + more)
  {
    assert Encode(|body|) == [|body|];
  }
}
