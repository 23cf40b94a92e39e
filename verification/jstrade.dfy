/**
 * The browser page's trade decoder (`decodeTrade` in app/static/depth.js) and the
 * rule by which a decoded trade moves the headline price (`addTrade`). The page
 * numbers the fields differently from the server decoder: field 1 is the symbol
 * and field 2 the trade id. Varints are read with the exact reader `Rv`, the
 * evidently intended behaviour of `rvint` (see `JsVarint.RvInt`).
 */
module JsTrade {
  import opened Wrappers
  import opened Bytes
  import opened Varint
  import opened JsVarint
  import opened Text
  import T = TradeDecoder

  /** The object `decodeTrade` returns: a key is present only when its field was seen. */
  datatype JsTrade = JsTrade(
    symbol: Option<string>, tradeId: Option<string>, price: Option<Bytes>, qty: Option<nat>,
    side: Option<string>, ts: Option<nat>, buyer: Option<string>, seller: Option<string>)

  const Empty: JsTrade := JsTrade(None, None, None, None, None, None, None, None)

  /** The `RangeError` of `DataView.getFloat32` when fewer than four bytes are left. */
  datatype JsError = RangeError

  /**
   * What one field does to the object: 1, 2, 5, 7 and 8 as length-delimited are
   * symbol, trade id, side, buyer and seller; 3 as fixed32 is the price; 4 and 6
   * as varints are qty and ts. `text` is the `TextDecoder` decoding.
   */
  function Apply(t: JsTrade, f: T.Field, text: Bytes -> string): JsTrade {
    match f
    case VarintField(no, v) =>
      if no == 4 then t.(qty := Some(v))
      else if no == 6 then t.(ts := Some(v))
      else t
    case BytesField(no, d) =>
      var s := Some(text(d));
      if no == 1 then t.(symbol := s)
      else if no == 2 then t.(tradeId := s)
      else if no == 5 then t.(side := s)
      else if no == 7 then t.(buyer := s)
      else if no == 8 then t.(seller := s)
      else t
    case Fixed32Field(no, bits) => if no == 3 then t.(price := Some(bits)) else t
    case Fixed64Field(_, _) => t
    case GroupMark(_, _) => t
  }

  function ApplyAll(t: JsTrade, fs: seq<T.Field>, text: Bytes -> string): JsTrade
    decreases |fs|
  {
    if |fs| == 0 then t else ApplyAll(Apply(t, fs[0], text), fs[1..], text)
  }

  /** `buf.subarray(a, b)` for `a <= b`: both ends clamped to the buffer. */
  function Clamp(p: Bytes, a: nat, b: nat): (r: Bytes)
    requires a <= b
    ensures |r| <= b - a
  {
    if a >= |p| then [] else if b >= |p| then p[a..] else p[a..b]
  }

  datatype Next = Continue(n: nat, t: JsTrade) | Stop(t: JsTrade)

  /** One round of the `while(i<L)` loop, on the bytes from `i` on. */
  function Step(p: Bytes, t: JsTrade, text: Bytes -> string): (r: Result<Next, JsError>)
    ensures r.Ok? && r.value.Continue? ==> r.value.n > 0
  {
    var (tag, j) := Rv(p, 0);
    Dispatch(p, tag / 8, tag % 8, j, t, text)
  }

  /**
   * The value of field `no` with wire type `wt` at `p[j]`. Strings are cut at the
   * end of the buffer rather than failing; only the price read can fail. Unknown
   * fixed32 and fixed64 values are skipped without a bounds check; wire types 3,
   * 4, 6 and 7 stop the loop.
   */
  function Dispatch(p: Bytes, no: nat, wt: nat, j: nat, t: JsTrade, text: Bytes -> string): (r: Result<Next, JsError>)
    ensures r.Ok? && r.value.Continue? ==> r.value.n >= j
  {
    if wt == 0 then
      var (v, k) := Rv(p, j);
      Ok(Continue(k, Apply(t, T.VarintField(no, v), text)))
    else if wt == 2 then
      var (len, k) := Rv(p, j);
      Ok(Continue(k + len, Apply(t, T.BytesField(no, Clamp(p, k, k + len)), text)))
    else if wt == 5 then
      if no != 3 then Ok(Continue(j + 4, t))
      else if j + 4 > |p| then Err(RangeError)
      else Ok(Continue(j + 4, Apply(t, T.Fixed32Field(3, p[j..j + 4]), text)))
    else if wt == 1 then Ok(Continue(j + 8, t))
    else Ok(Stop(t))
  }

  /** The loop over the bytes from the loop index on; it runs while bytes are left. */
  function Scan(p: Bytes, t: JsTrade, text: Bytes -> string): Result<JsTrade, JsError>
    decreases |p|
  {
    if |p| == 0 then Ok(t)
    else
      var next :- Step(p, t, text);
      match next
      case Stop(t') => Ok(t')
      case Continue(n, t') => if n >= |p| then Ok(t') else Scan(p[n..], t', text)
  }

  /** `decodeTrade(u8)`; an `Err` is the exception the message handler swallows. */
  function DecodeTrade(u8: Bytes, text: Bytes -> string): Result<JsTrade, JsError> {
    Scan(u8, Empty, text)
  }

  // ---------------------------------------------------------------------------
  // Decoding what an encoder wrote.
  // ---------------------------------------------------------------------------

  /** The fields the page's loop reads whole: no group markers, fixed fields of their exact width. */
  predicate Encodable(f: T.Field) {
    match f
    case VarintField(_, _) => true
    case BytesField(_, _) => true
    case Fixed32Field(_, bits) => |bits| == 4
    case Fixed64Field(_, bits) => |bits| == 8
    case GroupMark(_, _) => false
  }

  predicate AllEncodable(fs: seq<T.Field>) {
    |fs| == 0 || (Encodable(fs[0]) && AllEncodable(fs[1..]))
  }

  /** A round whose key reads as `key`, ending at `j`, dispatches on that key. */
  lemma StepKey(p: Bytes, key: nat, j: nat, t: JsTrade, text: Bytes -> string)
    requires Rv(p, 0) == (key, j)
    ensures Step(p, t, text) == Dispatch(p, key / 8, key % 8, j, t, text)
  {
  }

  /** The value of an encodable field, found at `p[j]`, is read whole. */
  lemma DispatchField(p: Bytes, f: T.Field, j: nat, t: JsTrade, text: Bytes -> string)
    requires Encodable(f)
    requires j + |T.FieldValue(f)| <= |p| && p[j..j + |T.FieldValue(f)|] == T.FieldValue(f)
    ensures Dispatch(p, f.no, T.WireType(f), j, t, text) == Ok(Continue(j + |T.FieldValue(f)|, Apply(t, f, text)))
  {
    match f
    case VarintField(_, n) =>
      RvEncoded(p, j, n);
    case BytesField(_, d) =>
      Within(p, j, Encode(|d|), d);
      RvEncoded(p, j, |d|);
      var k := j + |Encode(|d|)|;
      assert Clamp(p, k, k + |d|) == d;
    case Fixed32Field(_, bits) =>
    case Fixed64Field(_, bits) =>
  }

  /** One round over an encoded field applies it and moves past it. */
  lemma StepField(f: T.Field, rest: Bytes, t: JsTrade, text: Bytes -> string)
    requires Encodable(f)
    ensures Step(T.EncodeField(f) + rest, t, text) == Ok(Continue(|T.EncodeField(f)|, Apply(t, f, text)))
  {
    var k, v := Encode(T.Key(f)), T.FieldValue(f);
    var p := T.EncodeField(f) + rest;
    assert p[0..|k| + |v|] == k + v;
    Within(p, 0, k, v);
    RvEncoded(p, 0, T.Key(f));
    T.KeyParts(f.no, T.WireType(f));
    StepKey(p, T.Key(f), |k|, t, text);
    DispatchField(p, f, |k|, t, text);
  }

  lemma ScanField(f: T.Field, rest: Bytes, t: JsTrade, text: Bytes -> string)
    requires Encodable(f)
    ensures Scan(T.EncodeField(f) + rest, t, text) == Scan(rest, Apply(t, f, text), text)
  {
    StepField(f, rest, t, text);
    Halves(T.EncodeField(f), rest);
  }

  /** Scanning over encoded fields applies them in order, whatever follows. */
  lemma {:induction false} ScanFields(fs: seq<T.Field>, rest: Bytes, t: JsTrade, text: Bytes -> string)
    requires AllEncodable(fs)
    ensures Scan(T.EncodeFields(fs) + rest, t, text) == Scan(rest, ApplyAll(t, fs, text), text)
    decreases |fs|
  {
    if |fs| > 0 {
      var e, more := T.EncodeField(fs[0]), T.EncodeFields(fs[1..]);
      Assoc(e, more, rest);
      ScanField(fs[0], more + rest, t, text);
      ScanFields(fs[1..], rest, Apply(t, fs[0], text), text);
    } else {
      assert T.EncodeFields(fs) + rest == rest;
    }
  }

  /** Decoding an encoded message gives its fields applied in order, a later one overwriting an earlier one. */
  lemma DecodeRoundTrip(fs: seq<T.Field>, text: Bytes -> string)
    requires AllEncodable(fs)
    ensures DecodeTrade(T.EncodeFields(fs), text) == Ok(ApplyAll(Empty, fs, text))
  {
    ScanFields(fs, [], Empty, text);
    assert T.EncodeFields(fs) + [] == T.EncodeFields(fs);
  }

  // ---------------------------------------------------------------------------
  // The loop index as written, with `rvint`.
  // ---------------------------------------------------------------------------

  /**
   * Where one round of `decodeTrade`'s loop, as written with `rvint`, leaves the
   * index; `None` when the round breaks the loop or throws. Lengths and values are
   * signed 32-bit numbers there, and `tag>>3` and `tag&7` act on the signed tag.
   */
  function AsWrittenRoundEnd(p: Bytes, i: nat): Option<int> {
    var (tag, j) := RvInt(p, i);
    var no, wt := tag / 8, tag % 8;
    if wt == 0 then Some(RvInt(p, j).1)
    else if wt == 2 then
      var (len, k) := RvInt(p, j);
      Some(k + len)
    else if wt == 5 then (if no == 3 && j + 4 > |p| then None else Some(j + 4))
    else if wt == 1 then Some(j + 8)
    else None
  }

  /** Field 1 as a string whose length varint FA FF FF FF 0F is 2^32 - 6, with nothing after it. */
  function WrappingLengthTrade(): (p: Bytes)
    ensures |p| == 6
  {
    [0x0A, 0xFA, 0xFF, 0xFF, 0xFF, 0x0F]
  }

  /**
   * As written, the length of `WrappingLengthTrade` reads as -6, so the first round
   * ends at index 0, where it began: the loop condition still holds and the same
   * round repeats for ever.
   */
  lemma AsWrittenLengthLoops()
    ensures AsWrittenRoundEnd(WrappingLengthTrade(), 0) == Some(0)
  {
    WrappingLengthReadsAsWritten();
    NegativeLengthReturns(WrappingLengthTrade());
  }

  /** Through `rvint` the key still reads as 10, but the length reads as -6. */
  lemma WrappingLengthReadsAsWritten()
    ensures RvInt(WrappingLengthTrade(), 0) == (10, 1)
    ensures RvInt(WrappingLengthTrade(), 1) == (-6, 6)
  {
    WrappingLengthReads();
    RvIntAgrees(WrappingLengthTrade(), 0);
    RvIntWraps(WrappingLengthTrade(), 1);
  }

  /** A string key read up to 1 followed by a length of -6 read up to 6 sends the index back to 0. */
  lemma NegativeLengthReturns(p: Bytes)
    requires RvInt(p, 0) == (10, 1) && RvInt(p, 1) == (-6, 6)
    ensures AsWrittenRoundEnd(p, 0) == Some(0)
  {
  }

  /** The exact reads of `WrappingLengthTrade`: key 10 (field 1, wire type 2), then 2^32 - 6. */
  lemma WrappingLengthReads()
    ensures Rv(WrappingLengthTrade(), 0) == (10, 1)
    ensures Rv(WrappingLengthTrade(), 1) == (Two32 - 6, 6)
  {
    var p := WrappingLengthTrade();
    assert RvFrom(p, 1, 4) == (15, 6);
    assert RvFrom(p, 1, 3) == (127 + 128 * 15, 6);
    assert RvFrom(p, 1, 2) == (127 + 128 * (127 + 128 * 15), 6);
    assert RvFrom(p, 1, 1) == (127 + 128 * (127 + 128 * (127 + 128 * 15)), 6);
    assert RvFrom(p, 1, 0) == (122 + 128 * (127 + 128 * (127 + 128 * (127 + 128 * 15))), 6);
  }

  /**
   * With the exact reader the same bytes give a string running past the end: the
   * symbol is the empty rest of the message and the loop ends after one round.
   */
  lemma CorrectedLengthEnds(text: Bytes -> string)
    ensures DecodeTrade(WrappingLengthTrade(), text) == Ok(Empty.(symbol := Some(text([]))))
  {
    var p := WrappingLengthTrade();
    WrappingLengthReads();
    StepKey(p, 10, 1, Empty, text);
    assert Clamp(p, 6, Two32) == [];
  }

  /** A round at an encoded key dispatches on the key's number and wire type. */
  lemma StepAtKey(no: nat, wt: nat, rest: Bytes, t: JsTrade, text: Bytes -> string)
    requires wt < 8
    ensures var key := Encode(no * 8 + wt);
      Step(key + rest, t, text) == Dispatch(key + rest, no, wt, |key|, t, text)
  {
    var key := Encode(no * 8 + wt);
    assert (key + rest)[0..|key|] == key;
    RvEncoded(key + rest, 0, no * 8 + wt);
    T.KeyParts(no, wt);
    StepKey(key + rest, no * 8 + wt, |key|, t, text);
  }

  /** Wire types 3, 4, 6 and 7 stop the loop: whatever follows their key is ignored. */
  lemma GroupOrUnknownStops(fs: seq<T.Field>, no: nat, wt: nat, junk: Bytes, text: Bytes -> string)
    requires AllEncodable(fs)
    requires wt == 3 || wt == 4 || wt == 6 || wt == 7
    ensures DecodeTrade(T.EncodeFields(fs) + Encode(no * 8 + wt) + junk, text) == Ok(ApplyAll(Empty, fs, text))
  {
    var key := Encode(no * 8 + wt);
    Assoc(T.EncodeFields(fs), key, junk);
    ScanFields(fs, key + junk, Empty, text);
    StepAtKey(no, wt, junk, ApplyAll(Empty, fs, text), text);
  }

  /** A price cut short throws: fewer than four bytes after the key of field 3. */
  lemma TruncatedPriceFails(fs: seq<T.Field>, cut: Bytes, text: Bytes -> string)
    requires AllEncodable(fs)
    requires |cut| < 4
    ensures DecodeTrade(T.EncodeFields(fs) + Encode(3 * 8 + 5) + cut, text) == Err(RangeError)
  {
    var key := Encode(3 * 8 + 5);
    Assoc(T.EncodeFields(fs), key, cut);
    ScanFields(fs, key + cut, Empty, text);
    StepAtKey(3, 5, cut, ApplyAll(Empty, fs, text), text);
  }

  /** A string cut short by the end of the message is kept as far as it goes; the loop then ends. */
  lemma TruncatedStringKept(fs: seq<T.Field>, no: nat, ln: nat, cut: Bytes, text: Bytes -> string)
    requires AllEncodable(fs)
    requires |cut| < ln
    ensures DecodeTrade(T.EncodeFields(fs) + Encode(no * 8 + 2) + Encode(ln) + cut, text)
      == Ok(Apply(ApplyAll(Empty, fs, text), T.BytesField(no, cut), text))
  {
    var e := T.EncodeFields(fs);
    var key, len := Encode(no * 8 + 2), Encode(ln);
    Assoc(e + key, len, cut);
    Assoc(e, key, len + cut);
    ScanFields(fs, key + (len + cut), Empty, text);
    ScanShortString(no, ln, cut, ApplyAll(Empty, fs, text), text);
  }

  lemma ScanShortString(no: nat, ln: nat, cut: Bytes, t: JsTrade, text: Bytes -> string)
    requires |cut| < ln
    ensures Scan(Encode(no * 8 + 2) + (Encode(ln) + cut), t, text) == Ok(Apply(t, T.BytesField(no, cut), text))
  {
    var key, len := Encode(no * 8 + 2), Encode(ln);
    StepAtKey(no, 2, len + cut, t, text);
    var p := key + (len + cut);
    Halves(key, len + cut);
    assert p[|key|..|key| + |len|] == len;
    RvEncoded(p, |key|, ln);
    var k := |key| + |len|;
    assert p[k..] == cut;
    ScanPastEnd(p, no, |key|, t, text);
  }

  /** A round whose string runs past the end of the buffer keeps the rest as the string and ends the scan. */
  lemma ScanPastEnd(p: Bytes, no: nat, j: nat, t: JsTrade, text: Bytes -> string)
    requires |p| > 0 && Step(p, t, text) == Dispatch(p, no, 2, j, t, text)
    requires Rv(p, j).1 <= |p| <= Rv(p, j).1 + Rv(p, j).0
    ensures Scan(p, t, text) == Ok(Apply(t, T.BytesField(no, p[Rv(p, j).1..]), text))
  {
    DispatchPastEnd(p, no, j, t, text);
    ScanLast(p, t, text);
  }

  /** A length reaching past the end keeps the rest of the buffer as the string. */
  lemma DispatchPastEnd(p: Bytes, no: nat, j: nat, t: JsTrade, text: Bytes -> string)
    requires Rv(p, j).1 <= |p| <= Rv(p, j).1 + Rv(p, j).0
    ensures Dispatch(p, no, 2, j, t, text)
      == Ok(Continue(Rv(p, j).1 + Rv(p, j).0, Apply(t, T.BytesField(no, p[Rv(p, j).1..]), text)))
  {
    var (len, k) := Rv(p, j);
    assert Clamp(p, k, k + len) == p[k..];
    assert k + len == Rv(p, j).1 + Rv(p, j).0;
  }

  /** A step that continues past the end is the last one. */
  lemma ScanLast(p: Bytes, t: JsTrade, text: Bytes -> string)
    requires |p| > 0 && Step(p, t, text).Ok? && Step(p, t, text).value.Continue?
    requires Step(p, t, text).value.n >= |p|
    ensures Scan(p, t, text) == Ok(Step(p, t, text).value.t)
  {
  }

  /**
   * Where the two decoders part: a length-delimited field 1 is the symbol on the
   * page and the topic on the server, and field 2 is the trade id on the page and
   * the symbol on the server.
   */
  lemma FieldNumbersDiffer(d: Bytes, text: Bytes -> string)
    requires |d| < T.VarintLimit
    ensures DecodeTrade(T.EncodeFields([T.BytesField(1, d)]), text) == Ok(Empty.(symbol := Some(text(d))))
    ensures T.DecodeTrade(T.EncodeFields([T.BytesField(1, d)]), text) == Ok(T.Defaults.(topic := text(d)))
    ensures DecodeTrade(T.EncodeFields([T.BytesField(2, d)]), text) == Ok(Empty.(tradeId := Some(text(d))))
    ensures T.DecodeTrade(T.EncodeFields([T.BytesField(2, d)]), text) == Ok(T.Defaults.(symbol := text(d)))
  {
    DecodeRoundTrip([T.BytesField(1, d)], text);
    T.DecodeRoundTrip([T.BytesField(1, d)], text);
    DecodeRoundTrip([T.BytesField(2, d)], text);
    T.DecodeRoundTrip([T.BytesField(2, d)], text);
  }

  // ---------------------------------------------------------------------------
  // `addTrade`: when a trade moves the headline price.
  // ---------------------------------------------------------------------------

  /**
   * `Number(price) > 0` for the little-endian bytes of an IEEE single: the sign
   * bit clear, not a zero and not a NaN (positive infinity counts).
   */
  predicate Positive32(bits: Bytes) {
    && |bits| == 4
    && var exponent: int := (bits[3] as int % 128) * 2 + bits[2] as int / 128;
      var mantissa: int := (bits[2] as int % 128) * 0x1_0000 + bits[1] as int * 0x100 + bits[0] as int;
      && bits[3] < 128
      && (exponent != 0 || mantissa != 0)
      && !(exponent == 255 && mantissa != 0)
  }

  /** The IEEE values the rule meets: one, both zeros, minus one, a NaN and infinity. */
  lemma Positive32Examples()
    ensures Positive32([0x00, 0x00, 0x80, 0x3F])
    ensures !Positive32([0x00, 0x00, 0x00, 0x00]) && !Positive32([0x00, 0x00, 0x00, 0x80])
    ensures !Positive32([0x00, 0x00, 0x80, 0xBF])
    ensures !Positive32([0x00, 0x00, 0xC0, 0x7F])
    ensures Positive32([0x00, 0x00, 0x80, 0x7F])
  {
  }

  /** The trade's symbol, when it has a non-empty one, is not the page's (both upper-cased). */
  predicate OtherSymbol(t: JsTrade, page: string) {
    t.symbol.Some? && t.symbol.value != "" && Upper(t.symbol.value) != Upper(page)
  }

  /** `lastFromTrade` after `addTrade(t)` on the page of symbol `page`. */
  function LastFromTrade(last: Option<Bytes>, t: JsTrade, page: string): (r: Option<Bytes>)
    ensures r == last || (r.Some? && Positive32(r.value))
  {
    if OtherSymbol(t, page) then last
    else if t.price.Some? && Positive32(t.price.value) then t.price
    else last
  }

  /**
   * The headline price moves exactly when the trade is for the page's symbol (or
   * names none) and carries a positive price, and then it becomes that price.
   */
  lemma LastFromTradeSpec(last: Option<Bytes>, t: JsTrade, page: string)
    ensures LastFromTrade(last, t, page) != last ==>
      !OtherSymbol(t, page) && t.price.Some? && Positive32(t.price.value)
    ensures !OtherSymbol(t, page) && t.price.Some? && Positive32(t.price.value) ==>
      LastFromTrade(last, t, page) == t.price
    ensures LastFromTrade(LastFromTrade(last, t, page), t, page) == LastFromTrade(last, t, page)
  {
  }

  /** A decoded trade message of another symbol never moves the headline, whatever its price. */
  lemma OtherSymbolIgnored(fs: seq<T.Field>, sym: Bytes, last: Option<Bytes>, page: string, text: Bytes -> string)
    requires AllEncodable(fs)
    requires text(sym) != "" && Upper(text(sym)) != Upper(page)
    ensures DecodeTrade(T.EncodeFields(fs + [T.BytesField(1, sym)]), text).Ok?
    ensures LastFromTrade(last, DecodeTrade(T.EncodeFields(fs + [T.BytesField(1, sym)]), text).value, page) == last
  {
    AllEncodableSnoc(fs, T.BytesField(1, sym));
    DecodeRoundTrip(fs + [T.BytesField(1, sym)], text);
    ApplyAllSnoc(Empty, fs, T.BytesField(1, sym), text);
  }

  lemma {:induction false} AllEncodableSnoc(fs: seq<T.Field>, f: T.Field)
    requires AllEncodable(fs) && Encodable(f)
    ensures AllEncodable(fs + [f])
    decreases |fs|
  {
    if |fs| == 0 {
      assert fs + [f] == [f];
      assert [f][1..] == [];
    } else {
      AllEncodableSnoc(fs[1..], f);
      assert (fs + [f])[1..] == fs[1..] + [f];
    }
  }

  lemma {:induction false} ApplyAllSnoc(t: JsTrade, fs: seq<T.Field>, f: T.Field, text: Bytes -> string)
    ensures ApplyAll(t, fs + [f], text) == Apply(ApplyAll(t, fs, text), f, text)
    decreases |fs|
  {
    if |fs| == 0 {
      assert fs + [f] == [f];
      assert [f][1..] == [];
    } else {
      assert (fs + [f])[1..] == fs[1..] + [f];
      ApplyAllSnoc(Apply(t, fs[0], text), fs[1..], f, text);
    }
  }
}
