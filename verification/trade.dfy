/**
 * The server-side decoder of a `tradefeed.Trade` message (app/trade_parser.py):
 * a hand-written scan of the Protocol Buffers wire format. Each field is a varint
 * key `field_number << 3 | wire_type` followed by its value; the scan keeps the
 * eight trade fields it knows and skips or stops on everything else.
 */
module TradeDecoder {
  import opened Wrappers
  import opened Bytes
  import opened Varint

  /** "varint out of range", "varint too long" and "len-delimited out of range". */
  datatype DecodeError = VarintOutOfRange | VarintTooLong | LenDelimitedOutOfRange

  /**
   * The dictionary `decode_trade` returns: always these eight keys. The price is
   * kept as the four little-endian bytes of its IEEE single; `None` stands for
   * Python's `None`.
   */
  datatype Trade = Trade(
    topic: string, symbol: string, price: Option<Bytes>, qty: Option<nat>,
    side: string, ts: Option<nat>, buyer: string, seller: string)

  /** The defaults `setdefault` fills in for keys the payload did not carry. */
  const Defaults: Trade := Trade("", "", None, None, "", None, "", "")

  /** `_get_varint` gives up when the 10th byte still carries the continuation bit. */
  const VarintCap: nat := 10

  /** 128^10: the values a varint of at most ten groups can carry. */
  const VarintLimit: nat := 0x40_0000_0000_0000_0000

  lemma VarintLimitIsPow()
    ensures Pow128(VarintCap) == VarintLimit
  {
  }

  function ReadFailure(e: ReadError): DecodeError {
    if e == Truncated then VarintOutOfRange else VarintTooLong
  }

  /** `_get_varint(b, i)`: the value and the index just past it. */
  function GetVarint(b: Bytes, i: nat): (r: Result<(nat, nat), DecodeError>)
    ensures r.Ok? ==> i < r.value.1 <= |b|
  {
    match Read(b, i, Some(VarintCap))
    case Err(e) => Err(ReadFailure(e))
    case Ok((v, n)) => Ok((v, i + n))
  }

  /**
   * A varint read consumes one complete run of at most ten groups and returns its
   * value; it fails with "too long" exactly when ten bytes carry the continuation
   * bit, and with "out of range" exactly when the buffer ends first.
   */
  lemma GetVarintSpec(b: Bytes, i: nat)
    ensures var r := GetVarint(b, i);
      && (r.Ok? ==>
        && r.value.1 - i <= VarintCap
        && WellFormed(b[i..r.value.1])
        && r.value.0 == Value(b[i..r.value.1]))
      && (r == Err(VarintTooLong) <==> RunsPastCap(b, i, Some(VarintCap)))
      && (r == Err(VarintOutOfRange) <==> RunsPastEnd(b, i, Some(VarintCap)) && !RunsPastCap(b, i, Some(VarintCap)))
  {
    ReadSpec(b, i, Some(VarintCap));
  }

  /** `_get_len_delimited(b, i)`: a varint length, then exactly that many bytes. */
  function GetLenDelimited(b: Bytes, i: nat): (r: Result<(Bytes, nat), DecodeError>)
    ensures r.Ok? ==> i < r.value.1 <= |b|
  {
    var lv :- GetVarint(b, i);
    var (ln, j) := lv;
    if j + ln > |b| then Err(LenDelimitedOutOfRange) else Ok((b[j..j + ln], j + ln))
  }

  /** The chunk is the `ln` bytes after the length; the read fails when they are not all there. */
  lemma GetLenDelimitedSpec(b: Bytes, i: nat)
    ensures var r := GetLenDelimited(b, i);
      && (r.Ok? ==>
        && GetVarint(b, i).Ok?
        && |r.value.0| == GetVarint(b, i).value.0
        && r.value.1 == GetVarint(b, i).value.1 + |r.value.0|
        && r.value.0 == b[GetVarint(b, i).value.1..r.value.1])
      && (r == Err(LenDelimitedOutOfRange) <==>
        GetVarint(b, i).Ok? && GetVarint(b, i).value.1 + GetVarint(b, i).value.0 > |b|)
  {
  }

  /** One field as it appears on the wire. */
  datatype Field =
    | VarintField(no: nat, value: nat)
    | BytesField(no: nat, data: Bytes)
    | Fixed32Field(no: nat, bits: Bytes)
    | Fixed64Field(no: nat, bits: Bytes)
    | GroupMark(no: nat, start: bool)

  /**
   * What one field does to the trade: 4 and 6 as varints are qty and ts; 1, 2, 5,
   * 7 and 8 as length-delimited are topic, symbol, side, buyer and seller; 3 as
   * fixed32 is the price. Anything else, including a known number with another
   * wire type, leaves the trade as it was. Strings go through `utf8`, the
   * decoding with invalid sequences dropped.
   */
  function Apply(t: Trade, f: Field, utf8: Bytes -> string): Trade {
    match f
    case VarintField(no, v) =>
      if no == 4 then t.(qty := Some(v))
      else if no == 6 then t.(ts := Some(v))
      else t
    case BytesField(no, d) =>
      var s := utf8(d);
      if no == 1 then t.(topic := s)
      else if no == 2 then t.(symbol := s)
      else if no == 5 then t.(side := s)
      else if no == 7 then t.(buyer := s)
      else if no == 8 then t.(seller := s)
      else t
    case Fixed32Field(no, bits) => if no == 3 then t.(price := Some(bits)) else t
    case Fixed64Field(_, _) => t
    case GroupMark(_, _) => t
  }

  /** The fields applied in order, so a later occurrence of a field overwrites an earlier one. */
  function ApplyAll(t: Trade, fs: seq<Field>, utf8: Bytes -> string): Trade
    decreases |fs|
  {
    if |fs| == 0 then t else ApplyAll(Apply(t, fs[0], utf8), fs[1..], utf8)
  }

  /** Where one round of the loop leaves the scan: `n` bytes further on, or stopped. */
  datatype Next = Continue(n: nat, t: Trade) | Stop(t: Trade)

  /**
   * One round of the loop of `decode_trade`, on the bytes from the loop index on:
   * read a key, then dispatch on its wire type.
   */
  function Step(p: Bytes, t: Trade, utf8: Bytes -> string): (r: Result<Next, DecodeError>)
    ensures r.Ok? && r.value.Continue? ==> r.value.n > 0
  {
    var kj :- GetVarint(p, 0);
    Dispatch(p, kj.0 / 8, kj.0 % 8, kj.1, t, utf8)
  }

  /**
   * The value of field `no` with wire type `wt`, starting at `p[j]`. Wire type 5
   * with fewer than four bytes left, and wire types 6 and 7, stop the scan
   * without error; wire type 1 skips eight bytes without a bounds check; wire
   * types 3 and 4 consume nothing more.
   */
  function Dispatch(p: Bytes, no: nat, wt: nat, j: nat, t: Trade, utf8: Bytes -> string): (r: Result<Next, DecodeError>)
    ensures r.Ok? && r.value.Continue? ==> r.value.n >= j
  {
    if wt == 0 then
      var vk :- GetVarint(p, j);
      Ok(Continue(vk.1, Apply(t, VarintField(no, vk.0), utf8)))
    else if wt == 2 then
      var ck :- GetLenDelimited(p, j);
      Ok(Continue(ck.1, Apply(t, BytesField(no, ck.0), utf8)))
    else if wt == 5 then
      if j + 4 > |p| then Ok(Stop(t))
      else Ok(Continue(j + 4, Apply(t, Fixed32Field(no, p[j..j + 4]), utf8)))
    else if wt == 1 then Ok(Continue(j + 8, t))
    else if wt == 3 || wt == 4 then Ok(Continue(j, t))
    else Ok(Stop(t))
  }

  /** A round whose key reads as `key`, ending at `j`, dispatches on that key. */
  lemma StepKey(p: Bytes, key: nat, j: nat, t: Trade, utf8: Bytes -> string)
    requires GetVarint(p, 0) == Ok((key, j))
    ensures Step(p, t, utf8) == Dispatch(p, key / 8, key % 8, j, t, utf8)
  {
  }

  /** The number and wire type packed into a key. */
  lemma KeyParts(no: nat, wt: nat)
    requires wt < 8
    ensures (no * 8 + wt) / 8 == no && (no * 8 + wt) % 8 == wt
  {
  }

  /**
   * The loop of `decode_trade` over the bytes from the loop index on; it runs
   * while bytes are left. Every read in the loop is relative to the index, so
   * the scan of `payload[i..]` is the loop from index `i`.
   */
  function Scan(p: Bytes, t: Trade, utf8: Bytes -> string): Result<Trade, DecodeError>
    decreases |p|
  {
    if |p| == 0 then Ok(t)
    else
      var next :- Step(p, t, utf8);
      match next
      case Stop(t') => Ok(t')
      case Continue(n, t') => if n >= |p| then Ok(t') else Scan(p[n..], t', utf8)
  }

  /** `decode_trade(payload)`. */
  function DecodeTrade(payload: Bytes, utf8: Bytes -> string): Result<Trade, DecodeError> {
    Scan(payload, Defaults, utf8)
  }

  function WireType(f: Field): nat {
    match f
    case VarintField(_, _) => 0
    case BytesField(_, _) => 2
    case Fixed32Field(_, _) => 5
    case Fixed64Field(_, _) => 1
    case GroupMark(_, start) => if start then 3 else 4
  }

  function Key(f: Field): nat {
    f.no * 8 + WireType(f)
  }

  /** The field's value bytes after its key. */
  function FieldValue(f: Field): Bytes {
    match f
    case VarintField(_, v) => Encode(v)
    case BytesField(_, d) => Encode(|d|) + d
    case Fixed32Field(_, bits) => bits
    case Fixed64Field(_, bits) => bits
    case GroupMark(_, _) => []
  }

  /** A field on the wire: its key, then its value. */
  function EncodeField(f: Field): Bytes {
    Encode(Key(f)) + FieldValue(f)
  }

  function EncodeFields(fs: seq<Field>): Bytes {
    if |fs| == 0 then [] else EncodeField(fs[0]) + EncodeFields(fs[1..])
  }

  /** Keys and varints that fit in ten groups, and fixed fields of their exact width. */
  predicate Encodable(f: Field) {
    && Key(f) < VarintLimit
    && match f
      case VarintField(_, v) => v < VarintLimit
      case BytesField(_, d) => |d| < VarintLimit
      case Fixed32Field(_, bits) => |bits| == 4
      case Fixed64Field(_, bits) => |bits| == 8
      case GroupMark(_, _) => true
  }

  /** Every field of `fs` is encodable. */
  predicate AllEncodable(fs: seq<Field>) {
    |fs| == 0 || (Encodable(fs[0]) && AllEncodable(fs[1..]))
  }

  /** A varint written at `p[i]` reads back as itself, and the read ends right after it. */
  lemma GetEncoded(p: Bytes, i: nat, n: nat)
    requires n < VarintLimit
    requires i + |Encode(n)| <= |p| && p[i..i + |Encode(n)|] == Encode(n)
    ensures GetVarint(p, i) == Ok((n, i + |Encode(n)|))
  {
    VarintLimitIsPow();
    EncodeLength(n, VarintCap);
    ReadEncoded(p, i, n, Some(VarintCap));
    ReadToGet(p, i, n, |Encode(n)|);
  }

  lemma ReadToGet(p: Bytes, i: nat, v: nat, n: nat)
    requires Read(p, i, Some(VarintCap)) == Ok((v, n))
    ensures GetVarint(p, i) == Ok((v, i + n))
  {
  }

  /** One round over an encoded field applies it and moves past it. */
  lemma StepField(f: Field, rest: Bytes, t: Trade, utf8: Bytes -> string)
    requires Encodable(f)
    ensures Step(EncodeField(f) + rest, t, utf8) == Ok(Continue(|EncodeField(f)|, Apply(t, f, utf8)))
  {
    var k, v := Encode(Key(f)), FieldValue(f);
    var p := EncodeField(f) + rest;
    assert p[0..|k| + |v|] == k + v;
    Within(p, 0, k, v);
    GetEncoded(p, 0, Key(f));
    KeyParts(f.no, WireType(f));
    StepKey(p, Key(f), |k|, t, utf8);
    DispatchField(p, f, |k|, t, utf8);
    assert |EncodeField(f)| == |k| + |v|;
  }

  /** The value of an encodable field, found at `p[j]`, is read whole. */
  lemma DispatchField(p: Bytes, f: Field, j: nat, t: Trade, utf8: Bytes -> string)
    requires Encodable(f)
    requires j + |FieldValue(f)| <= |p| && p[j..j + |FieldValue(f)|] == FieldValue(f)
    ensures Dispatch(p, f.no, WireType(f), j, t, utf8) == Ok(Continue(j + |FieldValue(f)|, Apply(t, f, utf8)))
  {
    match f
    case VarintField(_, n) =>
      GetEncoded(p, j, n);
    case BytesField(_, d) =>
      Within(p, j, Encode(|d|), d);
      GetEncoded(p, j, |d|);
    case Fixed32Field(_, bits) =>
    case Fixed64Field(_, bits) =>
    case GroupMark(_, _) =>
  }

  /** Scanning over one encoded field applies it and moves on past it. */
  lemma ScanField(f: Field, rest: Bytes, t: Trade, utf8: Bytes -> string)
    requires Encodable(f)
    ensures Scan(EncodeField(f) + rest, t, utf8) == Scan(rest, Apply(t, f, utf8), utf8)
  {
    StepField(f, rest, t, utf8);
    Halves(EncodeField(f), rest);
  }

  /** Scanning over encoded fields applies them in order, whatever follows. */
  lemma {:induction false} ScanFields(fs: seq<Field>, rest: Bytes, t: Trade, utf8: Bytes -> string)
    decreases |fs|
    requires AllEncodable(fs)
    ensures Scan(EncodeFields(fs) + rest, t, utf8) == Scan(rest, ApplyAll(t, fs, utf8), utf8)
  {
    if |fs| > 0 {
      var e, more := EncodeField(fs[0]), EncodeFields(fs[1..]);
      Assoc(e, more, rest);
      ScanField(fs[0], more + rest, t, utf8);
      ScanFields(fs[1..], rest, Apply(t, fs[0], utf8), utf8);
    } else {
      assert EncodeFields(fs) + rest == rest;
    }
  }

  /** Decoding an encoded message gives the fields applied in order to the defaults. */
  lemma DecodeRoundTrip(fs: seq<Field>, utf8: Bytes -> string)
    requires AllEncodable(fs)
    ensures DecodeTrade(EncodeFields(fs), utf8) == Ok(ApplyAll(Defaults, fs, utf8))
  {
    ScanFields(fs, [], Defaults, utf8);
    assert EncodeFields(fs) + [] == EncodeFields(fs);
  }

  /** A round at an encoded key dispatches on the key's number and wire type. */
  lemma StepAtKey(no: nat, wt: nat, rest: Bytes, t: Trade, utf8: Bytes -> string)
    requires wt < 8 && no * 8 + wt < VarintLimit
    ensures var key := Encode(no * 8 + wt);
      Step(key + rest, t, utf8) == Dispatch(key + rest, no, wt, |key|, t, utf8)
  {
    var key := Encode(no * 8 + wt);
    assert (key + rest)[0..|key|] == key;
    GetEncoded(key + rest, 0, no * 8 + wt);
    KeyParts(no, wt);
    StepKey(key + rest, no * 8 + wt, |key|, t, utf8);
  }

  /** Wire types 6 and 7 stop the scan: whatever follows their key is ignored. */
  lemma UnknownWireTypeStops(fs: seq<Field>, no: nat, wt: nat, junk: Bytes, utf8: Bytes -> string)
    requires AllEncodable(fs)
    requires wt == 6 || wt == 7
    requires no * 8 + wt < VarintLimit
    ensures DecodeTrade(EncodeFields(fs) + Encode(no * 8 + wt) + junk, utf8) == Ok(ApplyAll(Defaults, fs, utf8))
  {
    var key := Encode(no * 8 + wt);
    Assoc(EncodeFields(fs), key, junk);
    ScanFields(fs, key + junk, Defaults, utf8);
    StepAtKey(no, wt, junk, ApplyAll(Defaults, fs, utf8), utf8);
  }

  /** A fixed32 field cut short ends the scan without an error. */
  lemma TruncatedFixed32Ends(fs: seq<Field>, no: nat, cut: Bytes, utf8: Bytes -> string)
    requires AllEncodable(fs)
    requires no * 8 + 5 < VarintLimit && |cut| < 4
    ensures DecodeTrade(EncodeFields(fs) + Encode(no * 8 + 5) + cut, utf8) == Ok(ApplyAll(Defaults, fs, utf8))
  {
    var key := Encode(no * 8 + 5);
    Assoc(EncodeFields(fs), key, cut);
    ScanFields(fs, key + cut, Defaults, utf8);
    StepAtKey(no, 5, cut, ApplyAll(Defaults, fs, utf8), utf8);
  }

  /** A length-delimited field whose bytes run past the payload is an error. */
  lemma TruncatedLenDelimitedFails(fs: seq<Field>, no: nat, ln: nat, cut: Bytes, utf8: Bytes -> string)
    requires AllEncodable(fs)
    requires no * 8 + 2 < VarintLimit && ln < VarintLimit && |cut| < ln
    ensures DecodeTrade(EncodeFields(fs) + Encode(no * 8 + 2) + Encode(ln) + cut, utf8) == Err(LenDelimitedOutOfRange)
  {
    var e := EncodeFields(fs);
    var key, len := Encode(no * 8 + 2), Encode(ln);
    Assoc(e + key, len, cut);
    Assoc(e, key, len + cut);
    ScanFields(fs, key + (len + cut), Defaults, utf8);
    ScanLenShort(no, ln, cut, ApplyAll(Defaults, fs, utf8), utf8);
  }

  /** A scan that starts at a length-delimited key whose length runs past the end fails. */
  lemma ScanLenShort(no: nat, ln: nat, cut: Bytes, t: Trade, utf8: Bytes -> string)
    requires no * 8 + 2 < VarintLimit && ln < VarintLimit && |cut| < ln
    ensures Scan(Encode(no * 8 + 2) + (Encode(ln) + cut), t, utf8) == Err(LenDelimitedOutOfRange)
  {
    var key, len := Encode(no * 8 + 2), Encode(ln);
    StepAtKey(no, 2, len + cut, t, utf8);
    var p := key + (len + cut);
    Halves(key, len + cut);
    assert p[|key|..|key| + |len|] == len;
    GetEncoded(p, |key|, ln);
    DispatchLenShort(p, no, |key|, t, utf8);
  }

  /** A length-delimited value whose declared length runs past the buffer is an error. */
  lemma DispatchLenShort(p: Bytes, no: nat, j: nat, t: Trade, utf8: Bytes -> string)
    requires GetVarint(p, j).Ok? && GetVarint(p, j).value.1 + GetVarint(p, j).value.0 > |p|
    ensures Dispatch(p, no, 2, j, t, utf8) == Err(LenDelimitedOutOfRange)
  {
  }

  /** A payload that ends inside a varint is an error. */
  lemma TruncatedVarintFails(fs: seq<Field>, cut: Bytes, utf8: Bytes -> string)
    requires AllEncodable(fs)
    requires 0 < |cut| < VarintCap && forall k :: 0 <= k < |cut| ==> cut[k] >= 128
    ensures DecodeTrade(EncodeFields(fs) + cut, utf8) == Err(VarintOutOfRange)
  {
    ScanFields(fs, cut, Defaults, utf8);
    GetVarintSpec(cut, 0);
  }

  /** Applying one more field after a sequence of fields. */
  lemma {:induction false} ApplyAllSnoc(t: Trade, fs: seq<Field>, f: Field, utf8: Bytes -> string)
    decreases |fs|
    ensures ApplyAll(t, fs + [f], utf8) == Apply(ApplyAll(t, fs, utf8), f, utf8)
  {
    if |fs| > 0 {
      assert (fs + [f])[1..] == fs[1..] + [f];
      ApplyAllSnoc(Apply(t, fs[0], utf8), fs[1..], f, utf8);
    }
  }

  /** A later field with the same number and wire type replaces what an earlier one set. */
  lemma LaterOverwrites(t: Trade, fs: seq<Field>, f: Field, g: Field, utf8: Bytes -> string)
    requires f.no == g.no && WireType(f) == WireType(g)
    ensures ApplyAll(t, [f] + fs + [g], utf8) == Apply(ApplyAll(Apply(t, f, utf8), fs, utf8), g, utf8)
  {
    ApplyAllSnoc(t, [f] + fs, g, utf8);
    assert ([f] + fs)[1..] == fs;
  }
}
