/**
 * The two varint readers of the browser page (app/static/depth.js): `rv64`
 * accumulates in a BigInt and is exact; `rvint` accumulates with the 32-bit
 * operators `<<` and `|=`. Neither reader ever fails: a byte read past the end of
 * a `Uint8Array` is `undefined`, which contributes nothing and ends the loop.
 */
module JsVarint {
  import opened Wrappers
  import opened Bytes
  import opened Varint

  const Two32: nat := 0x1_0000_0000
  const Two31: nat := 0x8000_0000

  function Pow2(k: nat): (r: nat)
    ensures r >= 1
  {
    if k == 0 then 1 else 2 * Pow2(k - 1)
  }

  /** `a | b` on non-negative integers, bit by bit. */
  function Or(a: nat, b: nat): nat
    decreases a + b
  {
    if a == 0 then b
    else if b == 0 then a
    else (if a % 2 == 1 || b % 2 == 1 then 1 else 0) + 2 * Or(a / 2, b / 2)
  }

  /** The number a 32-bit pattern stands for after `|=`: the pattern read as two's complement. */
  function Signed(u: nat): int
    requires u < Two32
  {
    if u < Two31 then u else u - Two32
  }

  /**
   * The exact loop from group `g` of the run at `buf[i]`: the value of groups
   * `g..` and the index after the last byte read. A read past the end yields
   * group 0 and stops, so the index can be one past the end.
   */
  function RvFrom(buf: Bytes, i: nat, g: nat): (r: (nat, nat))
    ensures r.1 > i + g
    decreases |buf| - (i + g)
  {
    if i + g >= |buf| then (0, i + g + 1)
    else
      var b := buf[i + g];
      if b < 128 then (b, i + g + 1)
      else
        var (v, j) := RvFrom(buf, i, g + 1);
        (b % 128 + 128 * v, j)
  }

  /** `rv64(buf, i)`, before the conversion to a `Number`; also the evidently intended `rvint`. */
  function Rv(buf: Bytes, i: nat): (r: (nat, nat))
    ensures r.1 > i
  {
    RvFrom(buf, i, 0)
  }

  /** Group `c` shifted by `7 * g` the way `<<` does it: the shift taken modulo 32, the result cut to 32 bits. */
  function Shifted(c: nat, g: nat): (t: nat)
    ensures t < Two32
  {
    (c * Pow2(7 * g % 32)) % Two32
  }

  /** `u | t` on 32-bit patterns. */
  function Or32(u: nat, t: nat): (r: nat)
    requires u < Two32 && t < Two32
    ensures r < Two32
  {
    Pow2Of32();
    OrBelow(u, t, 32);
    Or(u, t)
  }

  /**
   * `rvint`'s loop from group `g` with the 32-bit pattern `u` accumulated so far:
   * each group is shifted into place by `<<` and or-ed in.
   */
  function RvIntFrom(buf: Bytes, i: nat, g: nat, u: nat): (r: (nat, nat))
    requires u < Two32
    ensures r.0 < Two32 && r.1 > i + g
    decreases |buf| - (i + g)
  {
    if i + g >= |buf| then (u, i + g + 1)
    else
      var b := buf[i + g];
      var u' := Or32(u, Shifted(b % 128, g));
      if b < 128 then (u', i + g + 1)
      else RvIntFrom(buf, i, g + 1, u')
  }

  /** `rvint(buf, i)` as written: the value is a signed 32-bit integer. */
  function RvInt(buf: Bytes, i: nat): (r: (int, nat))
    ensures -(Two31 as int) <= r.0 < Two31 && r.1 > i
  {
    var (u, j) := RvIntFrom(buf, i, 0, 0);
    (Signed(u), j)
  }

  // ---------------------------------------------------------------------------
  // The exact reader against the shared one.
  // ---------------------------------------------------------------------------

  /** Where the uncapped reader succeeds, the browser's reader returns the same value and end. */
  lemma {:induction false} RvFromAgrees(buf: Bytes, i: nat, g: nat)
    requires ReadFrom(buf, i, g, None).Ok?
    ensures RvFrom(buf, i, g) == (ReadFrom(buf, i, g, None).value.0, i + ReadFrom(buf, i, g, None).value.1)
    decreases |buf| - (i + g)
  {
    if buf[i + g] >= 128 {
      RvFromAgrees(buf, i, g + 1);
    }
  }

  lemma RvAgreesWithRead(buf: Bytes, i: nat)
    requires Read(buf, i, None).Ok?
    ensures Rv(buf, i) == (Read(buf, i, None).value.0, i + Read(buf, i, None).value.1)
  {
    RvFromAgrees(buf, i, 0);
  }

  /** An encoded value at `buf[i]` reads back as itself, and the read ends right after it. */
  lemma RvEncoded(buf: Bytes, i: nat, n: nat)
    requires i + |Encode(n)| <= |buf| && buf[i..i + |Encode(n)|] == Encode(n)
    ensures Rv(buf, i) == (n, i + |Encode(n)|)
  {
    ReadEncoded(buf, i, n, None);
    RvAgreesWithRead(buf, i);
  }

  /**
   * A run cut off by the end of the buffer is no error: the reader returns the
   * value of the groups that are there and the index one past the end.
   */
  lemma {:induction false} RvFromPastEnd(buf: Bytes, i: nat, g: nat)
    requires i + g <= |buf|
    requires forall k :: i + g <= k < |buf| ==> buf[k] >= 128
    ensures RvFrom(buf, i, g) == (Value(buf[i + g..]), |buf| + 1)
    decreases |buf| - (i + g)
  {
    if i + g < |buf| {
      RvFromPastEnd(buf, i, g + 1);
      assert buf[i + g..][1..] == buf[i + g + 1..];
    }
  }

  lemma RvPastEnd(buf: Bytes, i: nat)
    requires i <= |buf|
    requires forall k :: i <= k < |buf| ==> buf[k] >= 128
    ensures Rv(buf, i) == (Value(buf[i..]), |buf| + 1)
  {
    RvFromPastEnd(buf, i, 0);
  }

  // ---------------------------------------------------------------------------
  // The 32-bit reader against the exact one.
  // ---------------------------------------------------------------------------

  /** The bits of `a` and of `c * 2^s` do not meet when `a < 2^s`, so or-ing adds. */
  lemma {:induction false} OrDisjoint(a: nat, c: nat, s: nat)
    requires a < Pow2(s)
    ensures Or(a, c * Pow2(s)) == a + c * Pow2(s)
  {
    if s > 0 && a > 0 && c > 0 {
      var b := c * Pow2(s);
      assert b == 2 * (c * Pow2(s - 1));
      assert b % 2 == 0 && b / 2 == c * Pow2(s - 1);
      assert a / 2 < Pow2(s - 1);
      OrDisjoint(a / 2, c, s - 1);
    }
  }

  /** Or-ing two numbers below `2^s` stays below `2^s`. */
  lemma {:induction false} OrBelow(a: nat, b: nat, s: nat)
    requires a < Pow2(s) && b < Pow2(s)
    ensures Or(a, b) < Pow2(s)
    decreases s
  {
    if a > 0 && b > 0 {
      assert s > 0;
      OrBelow(a / 2, b / 2, s - 1);
    }
  }

  lemma {:induction false} Pow2Of7(g: nat)
    ensures Pow2(7 * g) == Pow128(g)
  {
    if g > 0 {
      Pow2Of7(g - 1);
      assert Pow2(7 * g) == 128 * Pow2(7 * (g - 1)) by {
        Pow2Add(7 * (g - 1), 7);
      }
    }
  }

  lemma {:induction false} Pow2Add(a: nat, b: nat)
    ensures Pow2(a + b) == Pow2(a) * Pow2(b)
    decreases b
  {
    if b > 0 {
      Pow2Add(a, b - 1);
    }
  }

  lemma Pow2Of32()
    ensures Pow2(32) == Two32
  {
    assert Pow2(4) == 16;
    Pow2Add(4, 4);
    assert Pow2(8) == 256;
    Pow2Add(8, 8);
    assert Pow2(16) == 65536;
    Pow2Add(16, 16);
  }

  /** One group or-ed into the pattern adds its weight, as long as the total stays below 2^32. */
  lemma GroupAdds(c: nat, g: nat, u: nat, v: nat)
    requires u < Pow128(g) && c <= v && u + Pow128(g) * v < Two32
    ensures u < Two32
    ensures Or(u, Shifted(c, g)) == u + Pow128(g) * c
  {
    var p := Pow128(g);
    MulMono(p, c, v);
    if g <= 4 {
      ShiftedInRange(c, g);
      OrDisjoint(u, c, 7 * g);
    } else {
      Pow128Grows5(g);
      if v > 0 {
        MulMono(p, 1, v);
      }
      assert c == 0;
      ShiftedZero(g);
    }
  }

  /** A shift of at most 28 bits whose result fits in 32 bits is plain multiplication by the weight. */
  lemma ShiftedInRange(c: nat, g: nat)
    requires g <= 4 && Pow128(g) * c < Two32
    ensures Pow2(7 * g) == Pow128(g)
    ensures c * Pow2(7 * g) == Pow128(g) * c
    ensures Shifted(c, g) == Pow128(g) * c
  {
    assert 7 * g % 32 == 7 * g;
    Pow2Of7(g);
    var x := Pow128(g) * c;
    assert c * Pow2(7 * g) == x;
    SmallMod(x);
  }

  lemma ShiftedZero(g: nat)
    ensures Shifted(0, g) == 0 && Pow128(g) * 0 == 0
  {
  }

  lemma SmallMod(x: nat)
    requires x < Two32
    ensures x % Two32 == x
  {
  }

  lemma MulMono(p: nat, a: nat, b: nat)
    requires a <= b
    ensures p * a <= p * b
  {
  }

  /** The bookkeeping of one more group: the accumulated pattern stays below the next weight. */
  lemma NextGroup(u: nat, c: nat, p: nat, v': nat)
    requires u < p && c < 128
    ensures u + p * c < 128 * p
    ensures u + p * (c + 128 * v') == (u + p * c) + (128 * p) * v'
  {
    assert p * c <= p * 127;
  }

  /**
   * While the exact total stays below 2^32, the 32-bit loop carries exactly the
   * exact total: every group lands on bits of its own below bit 32, and groups
   * from the sixth on, whose shift wraps around, are all zero.
   */
  lemma {:induction false} RvIntFromExact(buf: Bytes, i: nat, g: nat, u: nat)
    requires u < Pow128(g) && u < Two32
    requires u + Pow128(g) * RvFrom(buf, i, g).0 < Two32
    ensures RvIntFrom(buf, i, g, u) == (u + Pow128(g) * RvFrom(buf, i, g).0, RvFrom(buf, i, g).1)
    decreases |buf| - (i + g)
  {
    if i + g < |buf| {
      var c := buf[i + g] % 128;
      var v := RvFrom(buf, i, g).0;
      GroupAdds(c, g, u, v);
      if buf[i + g] >= 128 {
        var u' := Or32(u, Shifted(c, g));
        var v' := RvFrom(buf, i, g + 1).0;
        RvFromStep(buf, i, g);
        NextGroupWeights(u, c, g, v, v');
        RvIntFromExact(buf, i, g + 1, u');
        RvIntStep(buf, i, g, u);
      } else {
        RvLastByte(buf, i, g, u);
      }
    }
  }

  /** A final byte (below 128) is its own group, in both loops. */
  lemma RvLastByte(buf: Bytes, i: nat, g: nat, u: nat)
    requires i + g < |buf| && buf[i + g] < 128 && u < Two32
    ensures buf[i + g] % 128 == buf[i + g]
    ensures RvFrom(buf, i, g) == (buf[i + g], i + g + 1)
    ensures RvIntFrom(buf, i, g, u) == (Or32(u, Shifted(buf[i + g] % 128, g)), i + g + 1)
  {
  }

  /** One continuation byte of the exact loop: its group plus 128 times the rest. */
  lemma RvFromStep(buf: Bytes, i: nat, g: nat)
    requires i + g < |buf| && buf[i + g] >= 128
    ensures RvFrom(buf, i, g) == (buf[i + g] % 128 + 128 * RvFrom(buf, i, g + 1).0, RvFrom(buf, i, g + 1).1)
  {
  }

  /** One continuation byte of the 32-bit loop: the group or-ed in, then the rest. */
  lemma RvIntStep(buf: Bytes, i: nat, g: nat, u: nat)
    requires i + g < |buf| && buf[i + g] >= 128 && u < Two32
    ensures RvIntFrom(buf, i, g, u) == RvIntFrom(buf, i, g + 1, Or32(u, Shifted(buf[i + g] % 128, g)))
  {
  }

  /** `NextGroup` restated with the weights as `Pow128`. */
  lemma NextGroupWeights(u: nat, c: nat, g: nat, v: nat, v': nat)
    requires u < Pow128(g) && c < 128 && v == c + 128 * v'
    ensures u + Pow128(g) * c < Pow128(g + 1)
    ensures u + Pow128(g) * v == (u + Pow128(g) * c) + Pow128(g + 1) * v'
  {
    NextGroup(u, c, Pow128(g), v');
    assert Pow128(g + 1) == 128 * Pow128(g);
  }

  lemma Pow128Grows5(g: nat)
    requires g >= 5
    ensures Pow128(g) >= Two32
  {
    Pow128Mono(5, g);
  }

  /** Below 2^31 the 32-bit reader and the exact reader agree. */
  lemma RvIntAgrees(buf: Bytes, i: nat)
    requires Rv(buf, i).0 < Two31
    ensures RvInt(buf, i) == (Rv(buf, i).0 as int, Rv(buf, i).1)
  {
    RvIntFromExact(buf, i, 0, 0);
  }

  /** From 2^31 to 2^32 the 32-bit reader returns the value less 2^32: a negative number. */
  lemma RvIntWraps(buf: Bytes, i: nat)
    requires Two31 <= Rv(buf, i).0 < Two32
    ensures RvInt(buf, i) == (Rv(buf, i).0 - Two32, Rv(buf, i).1)
    ensures RvInt(buf, i).0 < 0
  {
    RvIntFromExact(buf, i, 0, 0);
  }

  /** The varint of 2^31, five bytes long, reads as -2^31 through `rvint`. */
  lemma RvIntExample()
    ensures Encode(Two31) == [0x80, 0x80, 0x80, 0x80, 0x08]
    ensures Rv(Encode(Two31), 0) == (Two31, 5)
    ensures RvInt(Encode(Two31), 0) == (-(Two31 as int), 5)
  {
    var e := Encode(Two31);
    assert e == [0x80, 0x80, 0x80, 0x80, 0x08];
    RvEncoded(e, 0, Two31);
    RvIntWraps(e, 0);
  }
}
