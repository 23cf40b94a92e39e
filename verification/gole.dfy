/**
 * The provider's "gole" subscription frame of app/gole_subscribe.py: one entry
 * per route, `0x18`, the route id as a base-128 varint, a 2-byte length, the
 * UTF-8 path and a QoS byte 0, with `0x82` between entries.
 *
 * The length field is written as `[0x00, plen & 0xFF]`, although the comment
 * beside it and the `plen > 0xFFFF` guard describe a 2-byte big-endian length.
 * The two agree only below 256; `corrected` selects the big-endian field.
 */
module Gole {
  import opened Wrappers
  import opened Bytes
  import opened Varint

  /** One requested route: its numeric id and its path, already UTF-8 encoded. */
  datatype Route = Route(rid: nat, path: Bytes)

  datatype GoleError = PathTooLong

  const EntryTag: Byte := 0x18
  const Separator: Byte := 0x82

  /** `_varint(n)`: the loop that emits `n & 0x7F`, shifts, and sets 0x80 while more is left. */
  function VarintLoop(n: nat): (r: Bytes)
    ensures |r| >= 1
  {
    var b := n % 128;
    var m := n / 128;
    if m != 0 then [b + 128] + VarintLoop(m) else [b]
  }

  /** The gole varint and the MQTT remaining-length encoder are byte-identical. */
  lemma {:induction false} VarintIsEncode(n: nat)
    ensures VarintLoop(n) == Encode(n)
  {
    if n / 128 != 0 {
      VarintIsEncode(n / 128);
    }
  }

  /**
   * The two length bytes before the path: as written, `[0x00, plen & 0xFF]`;
   * corrected, the big-endian `plen`.
   */
  function LengthField(plen: nat, corrected: bool): (r: Bytes)
    requires plen < U16Limit
    ensures |r| == 2
  {
    if corrected then EncU16(plen) else [0x00, plen % 256]
  }

  /** One entry; a path longer than 0xFFFF bytes is refused. */
  function Entry(r: Route, corrected: bool): (e: Result<Bytes, GoleError>)
    ensures e.Ok? <==> |r.path| < U16Limit
  {
    if |r.path| > 0xFFFF then Err(PathTooLong)
    else Ok([EntryTag] + VarintLoop(r.rid) + LengthField(|r.path|, corrected) + r.path + [0x00])
  }

  /** The entries of `rs` in order, `0x82` before each one unless it is the very first. */
  function Entries(rs: seq<Route>, corrected: bool, first: bool): Result<Bytes, GoleError> {
    if |rs| == 0 then Ok([])
    else
      var e :- Entry(rs[0], corrected);
      var rest :- Entries(rs[1..], corrected, false);
      Ok((if first then [] else [Separator]) + e + rest)
  }

  function Routes(topics: seq<(nat, string)>): (rs: seq<Route>)
    ensures |rs| == |topics|
    ensures forall k :: 0 <= k < |topics| ==> rs[k] == Route(topics[k].0, Utf8(topics[k].1))
  {
    if |topics| == 0 then [] else [Route(topics[0].0, Utf8(topics[0].1))] + Routes(topics[1..])
  }

  /** `build_gole_subscribe(topics)` as written. */
  function BuildGoleSubscribe(topics: seq<(nat, string)>): Result<Bytes, GoleError> {
    Entries(Routes(topics), false, true)
  }

  /** `build_gole_subscribe(topics)` with the big-endian length field its comment describes. */
  function BuildGoleCorrected(topics: seq<(nat, string)>): Result<Bytes, GoleError> {
    Entries(Routes(topics), true, true)
  }

  predicate PathsFit(rs: seq<Route>) {
    forall k :: 0 <= k < |rs| ==> |rs[k].path| < U16Limit
  }

  /** The bytes one entry takes. */
  function EntrySize(r: Route): nat {
    4 + |Encode(r.rid)| + |r.path|
  }

  function EntrySizes(rs: seq<Route>): nat {
    if |rs| == 0 then 0 else EntrySize(rs[0]) + EntrySizes(rs[1..])
  }

  /**
   * The builder fails exactly when some path is longer than 0xFFFF bytes; otherwise
   * the output is the entries back to back plus one separator per later entry.
   */
  lemma {:induction false} EntriesSpec(rs: seq<Route>, corrected: bool, first: bool)
    ensures Entries(rs, corrected, first).Ok? <==> PathsFit(rs)
    ensures Entries(rs, corrected, first).Ok? && !first ==>
      |Entries(rs, corrected, first).value| == EntrySizes(rs) + |rs|
    ensures Entries(rs, corrected, first).Ok? && first && |rs| > 0 ==>
      |Entries(rs, corrected, first).value| == EntrySizes(rs) + |rs| - 1
  {
    if |rs| > 0 {
      EntriesSpec(rs[1..], corrected, false);
      VarintIsEncode(rs[0].rid);
      if PathsFit(rs[1..]) && |rs[0].path| < U16Limit {
        forall k | 0 <= k < |rs|
          ensures |rs[k].path| < U16Limit
        {
          if k > 0 {
            assert rs[k] == rs[1..][k - 1];
          }
        }
      }
      if PathsFit(rs) {
        forall k | 0 <= k < |rs[1..]|
          ensures |rs[1..][k].path| < U16Limit
        {
          assert rs[1..][k] == rs[k + 1];
        }
      }
    }
  }

  /** Empty input gives empty output. */
  lemma EmptyBuild()
    ensures BuildGoleSubscribe([]) == Ok([])
    ensures BuildGoleCorrected([]) == Ok([])
  {
  }

  /** One step of the builder: the first entry, then the later ones. */
  lemma EntriesUnfold(rs: seq<Route>, corrected: bool, first: bool)
    requires |rs| >= 1 && PathsFit(rs)
    ensures Entry(rs[0], corrected).Ok? && Entries(rs[1..], corrected, false).Ok?
    ensures Entries(rs, corrected, first).Ok?
    ensures first ==>
      Entries(rs, corrected, first).value == Entry(rs[0], corrected).value + Entries(rs[1..], corrected, false).value
    ensures !first ==>
      Entries(rs, corrected, first).value == [Separator] + (Entry(rs[0], corrected).value + Entries(rs[1..], corrected, false).value)
  {
    EntriesSpec(rs[1..], corrected, false);
    Assoc([Separator], Entry(rs[0], corrected).value, Entries(rs[1..], corrected, false).value);
    assert [] + Entry(rs[0], corrected).value == Entry(rs[0], corrected).value;
    assert PathsFit(rs[1..]) by {
      forall k | 0 <= k < |rs[1..]|
        ensures |rs[1..][k].path| < U16Limit
      {
        assert rs[1..][k] == rs[k + 1];
      }
    }
  }

  /** The first entry is not preceded by 0x82; every later one is. */
  lemma SeparatorPlacement(rs: seq<Route>, corrected: bool)
    requires |rs| >= 1 && PathsFit(rs)
    ensures Entries(rs, corrected, true).Ok?
    ensures Entries(rs, corrected, true).value
      == Entry(rs[0], corrected).value + Entries(rs[1..], corrected, false).value
    ensures |rs| >= 2 ==> Entries(rs[1..], corrected, false).value[0] == Separator
  {
    EntriesUnfold(rs, corrected, true);
    if |rs| >= 2 {
      EntriesUnfold(rs[1..], corrected, false);
    }
  }

  /** Reads one entry back: tag, varint id, big-endian length, path and QoS byte 0. */
  function ParseEntry(b: Bytes): (r: Option<(Route, Bytes)>)
    ensures r.Some? ==> |r.value.1| < |b|
  {
    if |b| == 0 || b[0] != EntryTag then None
    else
      match Read(b[1..], 0, None)
      case Err(_) => None
      case Ok((rid, n)) =>
        var s := b[1..][n..];
        if |s| < 2 then None
        else
          var len := DecU16(s[..2]);
          var t := s[2..];
          if |t| <= len || t[len] != 0 then None
          else Some((Route(rid, t[..len]), t[len + 1..]))
  }

  /** Reads a sequence of entries, the later ones each behind a 0x82. */
  function ParseEntries(b: Bytes, first: bool): Option<seq<Route>>
    decreases |b|
  {
    if |b| == 0 then Some([])
    else if !first && b[0] != Separator then None
    else
      var body := if first then b else b[1..];
      match ParseEntry(body)
      case None => None
      case Some((r, rest)) =>
        match ParseEntries(rest, false)
        case None => None
        case Some(rs) => Some([r] + rs)
  }

  /** An entry as the right-nested concatenation its parser takes apart. */
  lemma EntryNested(r: Route, corrected: bool, tail: Bytes)
    requires |r.path| < U16Limit
    ensures Entry(r, corrected).value + tail
      == [EntryTag] + (Encode(r.rid) + (LengthField(|r.path|, corrected) + (r.path + ([0x00] + tail))))
  {
    VarintIsEncode(r.rid);
    var v, f, p := Encode(r.rid), LengthField(|r.path|, corrected), r.path;
    Assoc([EntryTag] + v + f + p, [0x00], tail);
    Assoc([EntryTag] + v + f, p, [0x00] + tail);
    Assoc([EntryTag] + v, f, p + ([0x00] + tail));
    Assoc([EntryTag], v, f + (p + ([0x00] + tail)));
  }

  /** The parser's view of an entry: the id, the length field, and what follows the field. */
  lemma ParseEntryParts(r: Route, corrected: bool, tail: Bytes)
    requires |r.path| < U16Limit
    ensures var b := Entry(r, corrected).value + tail;
      var n := |Encode(r.rid)|;
      && |b| > 0 && b[0] == EntryTag
      && Read(b[1..], 0, None) == Ok((r.rid, n))
      && |b[1..]| >= n + 2
      && b[1..][n..][..2] == LengthField(|r.path|, corrected)
      && b[1..][n..][2..] == r.path + ([0x00] + tail)
  {
    EntryNested(r, corrected, tail);
    var v, f, p := Encode(r.rid), LengthField(|r.path|, corrected), r.path;
    var z := p + ([0x00] + tail);
    var b := Entry(r, corrected).value + tail;
    Halves([EntryTag], v + (f + z));
    Halves(v, f + z);
    Halves(f, z);
    assert b[1..][0..|v|] == v;
    ReadEncoded(b[1..], 0, r.rid, None);
  }

  /** A corrected entry reads back as its route, whatever follows it. */
  lemma ParseEntryFront(r: Route, tail: Bytes)
    requires |r.path| < U16Limit
    ensures ParseEntry(Entry(r, true).value + tail) == Some((r, tail))
  {
    ParseEntryParts(r, true, tail);
    Halves(r.path, [0x00] + tail);
    assert ([0x00] + tail)[1..] == tail;
  }

  /** Reading an entry and then the later entries. */
  lemma ParseEntriesCons(b: Bytes, first: bool, r: Route, rest: Bytes, rs: seq<Route>)
    requires |b| > 0
    requires first ==> ParseEntry(b) == Some((r, rest))
    requires !first ==> b[0] == Separator && ParseEntry(b[1..]) == Some((r, rest))
    requires ParseEntries(rest, false) == Some(rs)
    ensures ParseEntries(b, first) == Some([r] + rs)
  {
  }

  /** Parsing the corrected builder's output gives the routes back, in order. */
  lemma {:induction false} EntriesRoundTrip(rs: seq<Route>, first: bool)
    requires PathsFit(rs)
    ensures Entries(rs, true, first).Ok?
    ensures ParseEntries(Entries(rs, true, first).value, first) == Some(rs)
  {
    EntriesSpec(rs, true, first);
    if |rs| > 0 {
      EntriesUnfold(rs, true, first);
      EntriesRoundTrip(rs[1..], false);
      var e := Entry(rs[0], true).value;
      var rest := Entries(rs[1..], true, false).value;
      ParseEntryFront(rs[0], rest);
      var b := Entries(rs, true, first).value;
      if !first {
        Halves([Separator], e + rest);
      }
      ParseEntriesCons(b, first, rs[0], rest, rs[1..]);
      assert [rs[0]] + rs[1..] == rs;
    }
  }

  /** The corrected builder over strings: the routes come back with their UTF-8 paths. */
  lemma CorrectedRoundTrip(topics: seq<(nat, string)>)
    requires forall k :: 0 <= k < |topics| ==> |Utf8(topics[k].1)| < U16Limit
    ensures BuildGoleCorrected(topics).Ok?
    ensures ParseEntries(BuildGoleCorrected(topics).value, true) == Some(Routes(topics))
  {
    EntriesRoundTrip(Routes(topics), true);
  }

  /** With every path below 256 bytes the as-written and the corrected builders agree. */
  lemma {:induction false} AsWrittenAgreesBelow256(rs: seq<Route>, first: bool)
    requires forall k :: 0 <= k < |rs| ==> |rs[k].path| < 256
    ensures Entries(rs, false, first) == Entries(rs, true, first)
  {
    if |rs| > 0 {
      AsWrittenAgreesBelow256(rs[1..], false);
      assert LengthField(|rs[0].path|, false) == LengthField(|rs[0].path|, true);
    }
  }

  /**
   * As written, a path of 256 to 0xFFFF bytes passes the guard but its length field
   * does not carry its length, so the entry does not read back as its route.
   */
  lemma AsWrittenLosesLength(r: Route, tail: Bytes)
    requires 256 <= |r.path| < U16Limit
    ensures DecU16(LengthField(|r.path|, false)) != |r.path|
    ensures ParseEntry(Entry(r, false).value + tail) != Some((r, tail))
  {
    ParseEntryParts(r, false, tail);
  }

  /** The smallest such path: 256 bytes of `a`. */
  lemma AsWrittenExample()
    ensures var r := Route(1, seq(256, _ => 0x61));
      && Entry(r, false).Ok?
      && Entry(r, false).value[..4] == [EntryTag, 1, 0x00, 0x00]
  {
    var r := Route(1, seq(256, _ => 0x61));
    assert VarintLoop(1) == [1];
  }
}
