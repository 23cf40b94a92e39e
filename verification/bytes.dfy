/** Bytes, big-endian 16-bit fields and UTF-8 encoding. */
module Bytes {
  import opened Wrappers

  type Byte = b: int | 0 <= b < 256
  type Bytes = seq<Byte>

  const U16Limit: nat := 0x1_0000

  /** `n.to_bytes(2, "big")`: the 2-byte big-endian field of an MQTT length or packet id. */
  function EncU16(n: nat): (r: Bytes)
    requires n < U16Limit
    ensures |r| == 2 && DecU16(r) == n
  {
    [n / 256, n % 256]
  }

  /** `int.from_bytes(b[0:2], "big")`. */
  function DecU16(b: Bytes): nat
    requires |b| >= 2
  {
    b[0] as int * 256 + b[1] as int
  }

  lemma EncU16Injective(m: nat, n: nat)
    requires m < U16Limit && n < U16Limit
    ensures EncU16(m) == EncU16(n) ==> m == n
  {
  }

  /** The bytes of an ASCII literal. */
  function Ascii(s: string): (r: Bytes)
    requires forall k :: 0 <= k < |s| ==> s[k] as int < 128
    ensures |r| == |s|
    ensures forall k :: 0 <= k < |s| ==> r[k] == s[k] as int
  {
    seq(|s|, k requires 0 <= k < |s| => s[k] as int)
  }

  /** UTF-8 encoding of one Unicode scalar value (1 to 4 bytes). */
  function Utf8Char(c: char): (r: Bytes)
    ensures 1 <= |r| <= 4
    ensures (c as int < 128) <==> |r| == 1
    ensures c as int < 128 ==> r == [c as int]
  {
    var n := c as int;
    if n < 0x80 then [n]
    else if n < 0x800 then [0xC0 + n / 64, 0x80 + n % 64]
    else if n < 0x1_0000 then [0xE0 + n / 4096, 0x80 + (n / 64) % 64, 0x80 + n % 64]
    else [0xF0 + n / 0x4_0000, 0x80 + (n / 4096) % 64, 0x80 + (n / 64) % 64, 0x80 + n % 64]
  }

  /** `s.encode("utf-8")`. */
  function Utf8(s: string): (r: Bytes)
    ensures |r| >= |s|
    ensures (forall k :: 0 <= k < |s| ==> s[k] as int < 128) ==> |r| == |s|
  {
    if |s| == 0 then [] else Utf8Char(s[0]) + Utf8(s[1..])
  }

  lemma Utf8Append(a: string, b: string)
    ensures Utf8(a + b) == Utf8(a) + Utf8(b)
  {
    if |a| == 0 {
      assert a + b == b;
    } else {
      assert (a + b)[1..] == a[1..] + b;
      Utf8Append(a[1..], b);
    }
  }

  /** On ASCII text UTF-8 is the identity on code points. */
  lemma Utf8OfAscii(s: string)
    requires forall k :: 0 <= k < |s| ==> s[k] as int < 128
    ensures Utf8(s) == Ascii(s)
  {
    if |s| > 0 {
      Utf8OfAscii(s[1..]);
    }
  }

  /** `s.encode("ascii")`: fails on any non-ASCII character. */
  function AsciiEncode(s: string): (r: Option<Bytes>)
    ensures r.Some? <==> forall k :: 0 <= k < |s| ==> s[k] as int < 128
    ensures r.Some? ==> r.value == Utf8(s)
  {
    if forall k :: 0 <= k < |s| ==> s[k] as int < 128 then Utf8OfAscii(s); Some(Ascii(s)) else None
  }


  /** Regrouping a concatenation. */
  lemma Assoc<T>(a: seq<T>, b: seq<T>, c: seq<T>)
    ensures a + (b + c) == (a + b) + c
  {
  }

  /** The two halves of a concatenation. */
  lemma Halves<T>(a: seq<T>, b: seq<T>)
    ensures (a + b)[..|a|] == a && (a + b)[|a|..] == b
  {
  }

  /** The two parts of a concatenation found at offset `i` of a longer sequence. */
  lemma Within<T>(p: seq<T>, i: nat, a: seq<T>, b: seq<T>)
    requires i + |a| + |b| <= |p| && p[i..i + |a| + |b|] == a + b
    ensures p[i..i + |a|] == a
    ensures p[i + |a|..i + |a| + |b|] == b
  {
    assert p[i..i + |a|] == (a + b)[..|a|];
    assert p[i + |a|..i + |a| + |b|] == (a + b)[|a|..];
  }
}
