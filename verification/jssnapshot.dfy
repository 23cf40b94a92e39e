/**
 * The browser page's market-snapshot path (app/static/depth.js): the raw scan
 * `decodeRawSnapshot`, which keeps every varint and fixed64 value by field
 * number, `pickNumber`, the priority merge into the quote panel `mkt`, and the
 * choice of headline price and change in `renderHeaderAndDiff`. Floating-point
 * values stay the bytes they were read from; only the questions the page asks of
 * them (finite? zero? positive?) are answered, from their IEEE encodings.
 */
module JsSnapshot {
  import opened Wrappers
  import opened Bytes
  import opened Varint
  import opened JsVarint
  import opened JsTrade
  import T = TradeDecoder

  /** A JavaScript number as the page holds it. */
  datatype Num =
    | F32(bits32: Bytes)   // a float32 read by `getFloat32`, four little-endian bytes
    | F64(bits64: Bytes)   // a float64 read by `getFloat64`, eight little-endian bytes
    | Int(n: nat)          // `Number(x)` of a BigInt varint

  /** The smallest integer `Number()` rounds to infinity: 2^1024 - 2^970. */
  const Float64Overflow: int := Pow2(1024) - Pow2(970)

  /** `Number.isFinite`: the exponent field is not all ones. */
  predicate Finite(x: Num) {
    match x
    case F32(b) => |b| == 4 && (b[3] as int % 128) * 2 + b[2] as int / 128 != 0xFF
    case F64(b) => |b| == 8 && (b[7] as int % 128) * 16 + b[6] as int / 16 != 0x7FF
    case Int(n) => n < Float64Overflow
  }

  /** `x === 0`: either zero, whatever the sign bit. */
  predicate IsZero(x: Num) {
    match x
    case F32(b) => |b| == 4 && b[0] == 0 && b[1] == 0 && b[2] == 0 && b[3] % 128 == 0
    case F64(b) =>
      && |b| == 8 && b[0] == 0 && b[1] == 0 && b[2] == 0 && b[3] == 0
      && b[4] == 0 && b[5] == 0 && b[6] == 0 && b[7] % 128 == 0
    case Int(n) => n == 0
  }

  /** The object `decodeRawSnapshot` returns: values by field number. */
  type Raw = map<int, Num>

  /** `tag >> 3` on a `Number` tag: the tag is first cut to a signed 32-bit integer. */
  function FieldOf(tag: nat): int {
    Signed(tag % Two32) / 8
  }

  datatype SnapNext = More(n: nat, raw: Raw) | Done(raw: Raw)

  /** One round of the loop of `decodeRawSnapshot`, on the bytes from the loop index on. */
  function SnapStep(p: Bytes, raw: Raw): (r: Result<SnapNext, JsError>)
    ensures r.Ok? && r.value.More? ==> r.value.n > 0
  {
    var (tag, j) := Rv(p, 0);
    SnapDispatch(p, FieldOf(tag), tag % 8, j, raw)
  }

  /**
   * Wire types 1 and 0 store their value under the field number (a fixed64 read
   * past the end throws); 2 and 5 are skipped without a bounds check; any other
   * wire type ends the loop.
   */
  function SnapDispatch(p: Bytes, f: int, wt: nat, j: nat, raw: Raw): (r: Result<SnapNext, JsError>)
    ensures r.Ok? && r.value.More? ==> r.value.n >= j
  {
    if wt == 1 then
      if j + 8 > |p| then Err(RangeError) else Ok(More(j + 8, raw[f := F64(p[j..j + 8])]))
    else if wt == 0 then
      var (v, k) := Rv(p, j);
      Ok(More(k, raw[f := Int(v)]))
    else if wt == 2 then
      var (len, k) := Rv(p, j);
      Ok(More(k + len, raw))
    else if wt == 5 then Ok(More(j + 4, raw))
    else Ok(Done(raw))
  }

  function SnapScan(p: Bytes, raw: Raw): Result<Raw, JsError>
    decreases |p|
  {
    if |p| == 0 then Ok(raw)
    else
      var next :- SnapStep(p, raw);
      match next
      case Done(r) => Ok(r)
      case More(n, r) => if n >= |p| then Ok(r) else SnapScan(p[n..], r)
  }

  /** `decodeRawSnapshot(u8)`. */
  function DecodeRawSnapshot(u8: Bytes): Result<Raw, JsError> {
    SnapScan(u8, map[])
  }

  // ---------------------------------------------------------------------------
  // Decoding what an encoder wrote.
  // ---------------------------------------------------------------------------

  /** What one field does to the object: varints and fixed64 values are stored, the rest skipped. */
  function Collect(raw: Raw, f: T.Field): Raw {
    match f
    case VarintField(no, v) => raw[no := Int(v)]
    case Fixed64Field(no, bits) => raw[no := F64(bits)]
    case _ => raw
  }

  function CollectAll(raw: Raw, fs: seq<T.Field>): Raw
    decreases |fs|
  {
    if |fs| == 0 then raw else CollectAll(Collect(raw, fs[0]), fs[1..])
  }

  /** Fields the loop reads whole, with keys below 2^31 so that `tag >> 3` is the field number. */
  predicate SnapEncodable(f: T.Field) {
    && T.Key(f) < Two31
    && match f
      case VarintField(_, _) => true
      case BytesField(_, _) => true
      case Fixed32Field(_, bits) => |bits| == 4
      case Fixed64Field(_, bits) => |bits| == 8
      case GroupMark(_, _) => false
  }

  predicate AllSnapEncodable(fs: seq<T.Field>) {
    |fs| == 0 || (SnapEncodable(fs[0]) && AllSnapEncodable(fs[1..]))
  }

  /** Below 2^31, `tag >> 3` is the field number and `tag & 7` the wire type. */
  lemma FieldOfSmall(no: nat, wt: nat)
    requires wt < 8 && no * 8 + wt < Two31
    ensures FieldOf(no * 8 + wt) == no && (no * 8 + wt) % 8 == wt
  {
  }

  /** From 2^31 on the field number comes out negative: a key of field `no` lands on `no - 2^29`. */
  lemma FieldOfWide(no: nat, wt: nat)
    requires wt < 8 && Two31 <= no * 8 + wt < Two32
    ensures FieldOf(no * 8 + wt) == no - 0x2000_0000 && FieldOf(no * 8 + wt) < 0
  {
  }

  lemma SnapDispatchField(p: Bytes, f: T.Field, j: nat, raw: Raw)
    requires SnapEncodable(f)
    requires j + |T.FieldValue(f)| <= |p| && p[j..j + |T.FieldValue(f)|] == T.FieldValue(f)
    ensures SnapDispatch(p, f.no, T.WireType(f), j, raw) == Ok(More(j + |T.FieldValue(f)|, Collect(raw, f)))
  {
    match f
    case VarintField(_, n) =>
      RvEncoded(p, j, n);
    case BytesField(_, d) =>
      Within(p, j, Encode(|d|), d);
      RvEncoded(p, j, |d|);
    case Fixed32Field(_, bits) =>
    case Fixed64Field(_, bits) =>
  }

  lemma SnapStepField(f: T.Field, rest: Bytes, raw: Raw)
    requires SnapEncodable(f)
    ensures SnapStep(T.EncodeField(f) + rest, raw) == Ok(More(|T.EncodeField(f)|, Collect(raw, f)))
  {
    var k, v := Encode(T.Key(f)), T.FieldValue(f);
    var p := T.EncodeField(f) + rest;
    assert p[0..|k| + |v|] == k + v;
    Within(p, 0, k, v);
    RvEncoded(p, 0, T.Key(f));
    FieldOfSmall(f.no, T.WireType(f));
    SnapDispatchField(p, f, |k|, raw);
  }

  lemma {:induction false} SnapScanFields(fs: seq<T.Field>, rest: Bytes, raw: Raw)
    requires AllSnapEncodable(fs)
    ensures SnapScan(T.EncodeFields(fs) + rest, raw) == SnapScan(rest, CollectAll(raw, fs))
    decreases |fs|
  {
    if |fs| > 0 {
      var e, more := T.EncodeField(fs[0]), T.EncodeFields(fs[1..]);
      Assoc(e, more, rest);
      SnapStepField(fs[0], more + rest, raw);
      Halves(e, more + rest);
      SnapScanFields(fs[1..], rest, Collect(raw, fs[0]));
    } else {
      assert T.EncodeFields(fs) + rest == rest;
    }
  }

  /** Decoding an encoded snapshot stores its varint and fixed64 values by field number, later ones winning. */
  lemma SnapRoundTrip(fs: seq<T.Field>)
    requires AllSnapEncodable(fs)
    ensures DecodeRawSnapshot(T.EncodeFields(fs)) == Ok(CollectAll(map[], fs))
  {
    SnapScanFields(fs, [], map[]);
    assert T.EncodeFields(fs) + [] == T.EncodeFields(fs);
  }

  lemma {:induction false} CollectAllSnoc(raw: Raw, fs: seq<T.Field>, f: T.Field)
    ensures CollectAll(raw, fs + [f]) == Collect(CollectAll(raw, fs), f)
    decreases |fs|
  {
    if |fs| == 0 {
      assert fs + [f] == [f];
      assert [f][1..] == [];
    } else {
      assert (fs + [f])[1..] == fs[1..] + [f];
      CollectAllSnoc(Collect(raw, fs[0]), fs[1..], f);
    }
  }

  /** The last varint or fixed64 occurrence of a field number is the one kept. */
  lemma LaterWins(fs: seq<T.Field>, f: T.Field)
    requires f.VarintField? || f.Fixed64Field?
    ensures f.no in CollectAll(map[], fs + [f])
    ensures CollectAll(map[], fs + [f])[f.no] == (if f.VarintField? then Int(f.value) else F64(f.bits))
  {
    CollectAllSnoc(map[], fs, f);
  }

  /** A fixed64 value cut short throws. */
  lemma TruncatedDoubleFails(fs: seq<T.Field>, no: nat, cut: Bytes)
    requires AllSnapEncodable(fs)
    requires no * 8 + 1 < Two31 && |cut| < 8
    ensures DecodeRawSnapshot(T.EncodeFields(fs) + Encode(no * 8 + 1) + cut) == Err(RangeError)
  {
    var key := Encode(no * 8 + 1);
    Assoc(T.EncodeFields(fs), key, cut);
    SnapScanFields(fs, key + cut, map[]);
    assert (key + cut)[0..|key|] == key;
    RvEncoded(key + cut, 0, no * 8 + 1);
    FieldOfSmall(no, 1);
  }

  // ---------------------------------------------------------------------------
  // `pickNumber` and the quote panel.
  // ---------------------------------------------------------------------------

  /** The value under `k` exists and is finite. */
  predicate Usable(raw: Raw, k: int) {
    k in raw && Finite(raw[k])
  }

  /** `pickNumber(raw[k0], raw[k1], ...)`: the first candidate that is there and finite. */
  function PickNumber(raw: Raw, ks: seq<int>): (r: Option<Num>)
    ensures r.Some? ==> Finite(r.value)
  {
    if |ks| == 0 then None
    else if Usable(raw, ks[0]) then Some(raw[ks[0]])
    else PickNumber(raw, ks[1..])
  }

  /**
   * The pick is the value of the first usable key of the list, and there is a pick
   * exactly when some key of the list is usable.
   */
  lemma {:induction false} PickSpec(raw: Raw, ks: seq<int>)
    ensures PickNumber(raw, ks).Some? <==> exists k :: 0 <= k < |ks| && Usable(raw, ks[k])
    ensures PickNumber(raw, ks).Some? ==>
      exists k :: 0 <= k < |ks| && Usable(raw, ks[k]) && PickNumber(raw, ks).value == raw[ks[k]]
        && forall j :: 0 <= j < k ==> !Usable(raw, ks[j])
  {
    if |ks| > 0 {
      PickSpec(raw, ks[1..]);
      if Usable(raw, ks[0]) {
        assert Usable(raw, ks[0]);
      } else if PickNumber(raw, ks[1..]).Some? {
        var k :| 0 <= k < |ks[1..]| && Usable(raw, ks[1..][k]) && PickNumber(raw, ks[1..]).value == raw[ks[1..][k]]
          && forall j :: 0 <= j < k ==> !Usable(raw, ks[1..][j]);
        assert ks[k + 1] == ks[1..][k];
        forall j | 0 <= j < k + 1
          ensures !Usable(raw, ks[j])
        {
          if j > 0 {
            assert ks[j] == ks[1..][j - 1];
          }
        }
      } else {
        forall k | 0 <= k < |ks|
          ensures !Usable(raw, ks[k])
        {
          if k > 0 {
            assert ks[k] == ks[1..][k - 1];
          }
        }
      }
    }
  }

  /** The pick looks at the listed keys only: snapshots that agree on them pick the same. */
  lemma {:induction false} PickLocal(a: Raw, b: Raw, ks: seq<int>)
    requires forall k :: 0 <= k < |ks| ==> (ks[k] in a <==> ks[k] in b)
    requires forall k :: 0 <= k < |ks| && ks[k] in a ==> a[ks[k]] == b[ks[k]]
    ensures PickNumber(a, ks) == PickNumber(b, ks)
  {
    if |ks| > 0 {
      assert ks[0] in a <==> ks[0] in b;
      PickLocal(a, b, ks[1..]);
    }
  }

  /** The panel `mkt`: each field a number or `undefined`. */
  datatype Mkt = Mkt(
    lastSnap: Option<Num>, ask: Option<Num>, bid: Option<Num>, high: Option<Num>, low: Option<Num>,
    ceil: Option<Num>, floor: Option<Num>, volume: Option<Num>, turnover: Option<Num>, prev: Option<Num>)

  const Blank: Mkt := Mkt(None, None, None, None, None, None, None, None, None, None)

  /** The field numbers each panel field is taken from, in order of priority. */
  const LastKeys: seq<int> := [5, 25]
  const AskKeys: seq<int> := [6]
  const BidKeys: seq<int> := [10, 42, 7]
  const HighKeys: seq<int> := [8, 13, 54]
  const LowKeys: seq<int> := [12, 55]
  const CeilKeys: seq<int> := [26, 21]
  const FloorKeys: seq<int> := [27, 22]
  const VolumeKeys: seq<int> := [14, 48]
  const TurnoverKeys: seq<int> := [15, 38, 80, 81, 28, 33]
  const PrevKeys: seq<int> := [9, 62, 47]

  /** `pickNumber(...) ?? prior`. */
  function PickOr(raw: Raw, ks: seq<int>, prior: Option<Num>): Option<Num> {
    var p := PickNumber(raw, ks);
    if p.Some? then p else prior
  }

  /** The handler's merge of one decoded snapshot into the panel. */
  function Merge(m: Mkt, raw: Raw): Mkt {
    Mkt(
      PickOr(raw, LastKeys, m.lastSnap), PickOr(raw, AskKeys, m.ask), PickOr(raw, BidKeys, m.bid),
      PickOr(raw, HighKeys, m.high), PickOr(raw, LowKeys, m.low), PickOr(raw, CeilKeys, m.ceil),
      PickOr(raw, FloorKeys, m.floor), PickOr(raw, VolumeKeys, m.volume),
      PickOr(raw, TurnoverKeys, m.turnover), PickOr(raw, PrevKeys, m.prev))
  }

  /** Merging the same snapshot again changes nothing. */
  lemma MergeIdempotent(m: Mkt, raw: Raw)
    ensures Merge(Merge(m, raw), raw) == Merge(m, raw)
  {
  }

  predicate FiniteOrAbsent(x: Option<Num>) {
    x.None? || Finite(x.value)
  }

  /** Every number on the panel is finite. */
  predicate PanelFinite(m: Mkt) {
    && FiniteOrAbsent(m.lastSnap) && FiniteOrAbsent(m.ask) && FiniteOrAbsent(m.bid)
    && FiniteOrAbsent(m.high) && FiniteOrAbsent(m.low) && FiniteOrAbsent(m.ceil)
    && FiniteOrAbsent(m.floor) && FiniteOrAbsent(m.volume) && FiniteOrAbsent(m.turnover)
    && FiniteOrAbsent(m.prev)
  }

  /** Merges keep the panel finite: a NaN or infinity in a snapshot never reaches it. */
  lemma MergeKeepsFinite(m: Mkt, raw: Raw)
    requires PanelFinite(m)
    ensures PanelFinite(Merge(m, raw))
  {
  }

  /**
   * The previous close depends on fields 9, 62 and 47 only: two snapshots that
   * agree there leave it the same, whatever else they carry.
   */
  lemma PrevOnlyFromItsKeys(m: Mkt, a: Raw, b: Raw)
    requires forall k :: 0 <= k < |PrevKeys| ==> (PrevKeys[k] in a <==> PrevKeys[k] in b)
    requires forall k :: 0 <= k < |PrevKeys| && PrevKeys[k] in a ==> a[PrevKeys[k]] == b[PrevKeys[k]]
    ensures Merge(m, a).prev == Merge(m, b).prev
  {
    PickLocal(a, b, PrevKeys);
  }

  /** A field none of whose keys is usable keeps its previous value; with a usable key it takes the first. */
  lemma PickOrSpec(raw: Raw, ks: seq<int>, prior: Option<Num>)
    ensures (forall k :: 0 <= k < |ks| ==> !Usable(raw, ks[k])) ==> PickOr(raw, ks, prior) == prior
    ensures (exists k :: 0 <= k < |ks| && Usable(raw, ks[k])) ==>
      exists k :: 0 <= k < |ks| && Usable(raw, ks[k]) && PickOr(raw, ks, prior) == Some(raw[ks[k]])
        && forall j :: 0 <= j < k ==> !Usable(raw, ks[j])
  {
    PickSpec(raw, ks);
  }

  // ---------------------------------------------------------------------------
  // The headline.
  // ---------------------------------------------------------------------------

  /** What `renderHeaderAndDiff` shows: the last price, and whether a change is computed. */
  datatype Headline = Headline(last: Option<Num>, diff: bool)

  /**
   * `last` is the last trade price when there is one, otherwise the snapshot's;
   * the change is computed only with a last price and a non-zero previous close.
   */
  function RenderHeadline(lastTrade: Option<Bytes>, m: Mkt): (h: Headline)
    ensures h.diff ==> h.last.Some? && m.prev.Some?
  {
    var last := if lastTrade.Some? then Some(F32(lastTrade.value)) else m.lastSnap;
    Headline(last, last.Some? && m.prev.Some? && !IsZero(m.prev.value))
  }

  /** Once a trade has set the price, no snapshot moves the headline price. */
  lemma TradeOutranksSnapshot(p: Bytes, m: Mkt, raw: Raw)
    ensures RenderHeadline(Some(p), Merge(m, raw)).last == Some(F32(p))
  {
  }

  /** Without a trade price the headline follows the snapshot's last price (fields 5, then 25). */
  lemma SnapshotLastWithoutTrade(m: Mkt, raw: Raw)
    ensures PickNumber(raw, LastKeys).Some? ==> RenderHeadline(None, Merge(m, raw)).last == PickNumber(raw, LastKeys)
    ensures PickNumber(raw, LastKeys).None? ==> RenderHeadline(None, Merge(m, raw)).last == m.lastSnap
  {
  }

  /**
   * A positive trade of the page's symbol followed by a snapshot with a usable,
   * non-zero previous close shows the change; a zero previous close never does.
   */
  lemma ChangeShown(last: Option<Bytes>, t: JsTrade, page: string, m: Mkt, raw: Raw)
    requires !OtherSymbol(t, page) && t.price.Some? && Positive32(t.price.value)
    ensures PickNumber(raw, PrevKeys).Some? && !IsZero(PickNumber(raw, PrevKeys).value) ==>
      RenderHeadline(LastFromTrade(last, t, page), Merge(m, raw)).diff
    ensures Merge(m, raw).prev.Some? && IsZero(Merge(m, raw).prev.value) ==>
      !RenderHeadline(LastFromTrade(last, t, page), Merge(m, raw)).diff
  {
    LastFromTradeSpec(last, t, page);
  }
}
