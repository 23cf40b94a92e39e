/**
 * Little-endian base-128 integers: the MQTT remaining-length field of section 2.2.3
 * of MQTT 3.1.1, and the Protocol Buffers varint. One reader with an optional group
 * cap serves every copy in the repository: `_read_vlq` and the inline readers of the
 * PUBLISH walkers (cap 4), the uncapped reader of the depth walker, and `_get_varint`
 * of the trade decoder (cap 10). One encoder serves the four `_enc_vlq` copies and
 * `_varint` of the gole builder.
 */
module Varint {
  import opened Wrappers
  import opened Bytes

  /** The number carried by a run of groups: the low 7 bits of each byte, first byte lowest. */
  function Value(groups: Bytes): nat {
    if |groups| == 0 then 0 else groups[0] as int % 128 + 128 * Value(groups[1..])
  }

  function Pow128(k: nat): (r: nat)
    ensures r >= 1
  {
    if k == 0 then 1 else 128 * Pow128(k - 1)
  }

  /** A complete run: the continuation bit (0x80) is set on every byte but the last. */
  predicate WellFormed(groups: Bytes) {
    && |groups| >= 1
    && groups[|groups| - 1] < 128
    && forall k :: 0 <= k < |groups| - 1 ==> groups[k] >= 128
  }

  /**
   * `_enc_vlq(n)`: base-128 groups, low group first, 0x80 on every byte but the last,
   * and no redundant high zero group.
   */
  function Encode(n: nat): (r: Bytes)
    ensures |r| >= 1
  {
    if n < 128 then [n] else [n % 128 + 128] + Encode(n / 128)
  }

  /** The encoding is one complete run, it carries `n`, and it has no redundant high zero group. */
  lemma {:induction false} EncodeSpec(n: nat)
    ensures var r := Encode(n);
      && WellFormed(r)
      && Value(r) == n
      && (|r| > 1 ==> r[|r| - 1] != 0)
  {
    if n >= 128 {
      EncodeSpec(n / 128);
      var r := Encode(n);
      var t := Encode(n / 128);
      assert r[1..] == t;
    }
  }

  /** The values and encodings the repository documents. */
  lemma EncodeExamples()
    ensures Encode(0) == [0x00]
    ensures Encode(127) == [0x7F]
    ensures Encode(128) == [0x80, 0x01]
    ensures Encode(16384) == [0x80, 0x80, 0x01]
  {
  }

  lemma {:induction false} EncodeLength(n: nat, k: nat)
    requires k >= 1
    ensures |Encode(n)| <= k <==> n < Pow128(k)
  {
    if n < 128 {
      Pow128Grows(k);
    } else if k == 1 {
      EncodeLengthOne(n);
    } else {
      EncodeLength(n / 128, k - 1);
      EncodeLengthStep(n, k);
    }
  }

  lemma EncodeLengthOne(n: nat)
    requires n >= 128
    ensures |Encode(n)| > 1 && Pow128(1) == 128
  {
  }

  lemma EncodeLengthStep(n: nat, k: nat)
    requires n >= 128 && k >= 2
    requires |Encode(n / 128)| <= k - 1 <==> n / 128 < Pow128(k - 1)
    ensures |Encode(n)| <= k <==> n < Pow128(k)
  {
    var p := Pow128(k - 1);
    assert |Encode(n)| == 1 + |Encode(n / 128)|;
    assert Pow128(k) == 128 * p;
    DivBelow(n, p);
  }

  lemma DivBelow(n: nat, p: nat)
    ensures n / 128 < p <==> n < 128 * p
  {
    var q, r := n / 128, n % 128;
    assert n == 128 * q + r;
    if q < p {
      assert 128 * q <= 128 * (p - 1);
    } else {
      assert 128 * q >= 128 * p;
    }
  }

  lemma {:induction false} Pow128Grows(k: nat)
    requires k >= 1
    ensures Pow128(k) >= 128
  {
    if k > 1 {
      Pow128Grows(k - 1);
    }
  }

  lemma {:induction false} Pow128Mono(j: nat, k: nat)
    requires j <= k
    ensures Pow128(j) <= Pow128(k)
  {
    if j < k {
      Pow128Mono(j, k - 1);
    }
  }

  /** A complete run inside a buffer, stated on the buffer's own indices. */
  lemma WellFormedAt(buf: Bytes, i: nat, m: nat)
    requires i + m <= |buf| && WellFormed(buf[i..i + m])
    ensures buf[i + m - 1] < 128
    ensures forall k :: i <= k < i + m - 1 ==> buf[k] >= 128
  {
    assert buf[i + m - 1] == buf[i..i + m][m - 1];
    forall k | i <= k < i + m - 1
      ensures buf[k] >= 128
    {
      assert buf[k] == buf[i..i + m][k - i];
    }
  }

  /** Two complete runs at the same offset of a buffer have the same length. */
  lemma WellFormedUnique(buf: Bytes, i: nat, m: nat, n: nat)
    requires i + m <= |buf| && i + n <= |buf|
    requires WellFormed(buf[i..i + m]) && WellFormed(buf[i..i + n])
    ensures m == n
  {
    WellFormedAt(buf, i, m);
    WellFormedAt(buf, i, n);
  }

  datatype ReadError = Truncated | TooLong

  /** The first `cap` bytes from `i` exist and all carry the continuation bit. */
  predicate RunsPastCap(buf: Bytes, i: nat, cap: Option<nat>) {
    && cap.Some?
    && i + cap.value <= |buf|
    && forall k :: i <= k < i + cap.value ==> buf[k] >= 128
  }

  /** The buffer ends, before `cap` bytes, while every byte from `i` carries the continuation bit. */
  predicate RunsPastEnd(buf: Bytes, i: nat, cap: Option<nat>) {
    && (cap.None? || |buf| < i + cap.value)
    && forall k :: i <= k < |buf| ==> buf[k] >= 128
  }

  /**
   * Reads the run of groups starting at `buf[i]`. `Truncated` when the buffer ends
   * before a byte without the continuation bit; `TooLong` when byte number `cap`
   * still carries it. On success returns the value and the number of bytes read.
   */
  function Read(buf: Bytes, i: nat, cap: Option<nat>): (r: Result<(nat, nat), ReadError>)
    requires cap.Some? ==> cap.value >= 1
    ensures r.Ok? ==> 1 <= r.value.1 && i + r.value.1 <= |buf| && (cap.Some? ==> r.value.1 <= cap.value)
  {
    ReadFrom(buf, i, 0, cap)
  }

  /**
   * What `Read` returns: on success the bytes read form one complete run whose value
   * is returned; it fails exactly when the run outlasts the cap or the buffer, with
   * `TooLong` exactly in the first case.
   */
  lemma ReadSpec(buf: Bytes, i: nat, cap: Option<nat>)
    requires cap.Some? ==> cap.value >= 1
    ensures var r := Read(buf, i, cap);
      && (r.Ok? ==>
        && WellFormed(buf[i..i + r.value.1])
        && r.value.0 == Value(buf[i..i + r.value.1]))
      && (r.Ok? <==> !RunsPastCap(buf, i, cap) && !RunsPastEnd(buf, i, cap))
      && (r.Err? ==> (r.error == TooLong <==> RunsPastCap(buf, i, cap)))
  {
    ReadFromRun(buf, i, 0, cap);
    ReadFromVerdict(buf, i, 0, cap);
    var r := Read(buf, i, cap);
    if r.Ok? {
      CompleteRun(buf, i, r.value.1);
    }
  }

  /** The reader's loop from group `g` on; the value returned is that of groups `g..`. */
  function ReadFrom(buf: Bytes, i: nat, g: nat, cap: Option<nat>): (r: Result<(nat, nat), ReadError>)
    requires cap.Some? ==> g < cap.value
    ensures r.Ok? ==> g < r.value.1 && i + r.value.1 <= |buf| && (cap.Some? ==> r.value.1 <= cap.value)
    decreases |buf| - (i + g)
  {
    if i + g >= |buf| then Err(Truncated)
    else
      var b := buf[i + g];
      if b < 128 then Ok((b as int, g + 1))
      else if cap.Some? && g + 1 >= cap.value then Err(TooLong)
      else
        match ReadFrom(buf, i, g + 1, cap)
        case Err(e) => Err(e)
        case Ok((v, n)) => Ok((b as int % 128 + 128 * v, n))
  }

  /** On success the loop from group `g` has read a run whose groups `g..` carry the value returned. */
  lemma {:induction false} ReadFromRun(buf: Bytes, i: nat, g: nat, cap: Option<nat>)
    requires cap.Some? ==> g < cap.value
    ensures var r := ReadFrom(buf, i, g, cap);
      r.Ok? ==>
        && buf[i + r.value.1 - 1] < 128
        && (forall k :: i + g <= k < i + r.value.1 - 1 ==> buf[k] >= 128)
        && r.value.0 == Value(buf[i + g..i + r.value.1])
    decreases |buf| - (i + g)
  {
    if i + g < |buf| {
      var b := buf[i + g];
      if b < 128 {
        assert buf[i + g..i + g + 1] == [b];
        assert Value([b]) == b as int % 128 + 128 * Value([]);
      } else if cap.None? || g + 1 < cap.value {
        ReadFromRun(buf, i, g + 1, cap);
        var r := ReadFrom(buf, i, g + 1, cap);
        if r.Ok? {
          var n := r.value.1;
          assert buf[i + g..i + n][1..] == buf[i + g + 1..i + n];
        }
      }
    }
  }

  /** Given continuation bits on groups `0..g`, the loop fails exactly when the run outlasts the cap or the buffer. */
  lemma {:induction false} ReadFromVerdict(buf: Bytes, i: nat, g: nat, cap: Option<nat>)
    requires cap.Some? ==> g < cap.value
    requires forall k :: i <= k < i + g ==> k < |buf| && buf[k] >= 128
    ensures var r := ReadFrom(buf, i, g, cap);
      && (r.Ok? <==> !RunsPastCap(buf, i, cap) && !RunsPastEnd(buf, i, cap))
      && (r.Err? ==> (r.error == TooLong <==> RunsPastCap(buf, i, cap)))
    decreases |buf| - (i + g)
  {
    if i + g >= |buf| {
      assert RunsPastEnd(buf, i, cap);
    } else {
      var b := buf[i + g];
      if b < 128 {
        assert !RunsPastCap(buf, i, cap);
      } else if cap.Some? && g + 1 >= cap.value {
        assert RunsPastCap(buf, i, cap);
      } else {
        ReadFromVerdict(buf, i, g + 1, cap);
      }
    }
  }

  /** The bytes `buf[i..i+n]` read by a successful `Read` form a complete run. */
  lemma CompleteRun(buf: Bytes, i: nat, n: nat)
    requires 1 <= n && i + n <= |buf|
    requires buf[i + n - 1] < 128
    requires forall k :: i <= k < i + n - 1 ==> buf[k] >= 128
    ensures WellFormed(buf[i..i + n])
  {
    var run := buf[i..i + n];
    assert run[n - 1] == buf[i + n - 1];
    forall k | 0 <= k < n - 1
      ensures run[k] >= 128
    {
      assert run[k] == buf[i + k];
    }
  }

  /** A complete run at `buf[i]` is read whole, whatever follows it. */
  lemma ReadRun(buf: Bytes, i: nat, run: Bytes, cap: Option<nat>)
    requires WellFormed(run)
    requires cap.Some? ==> cap.value >= |run|
    requires i + |run| <= |buf| && buf[i..i + |run|] == run
    ensures Read(buf, i, cap) == Ok((Value(run), |run|))
  {
    var m := |run|;
    WellFormedAt(buf, i, m);
    NotPast(buf, i, m, cap);
    ReadSpec(buf, i, cap);
    var r := Read(buf, i, cap);
    WellFormedUnique(buf, i, r.value.1, m);
  }

  /** Reading back an encoded value yields the value and the encoding's length, whatever follows. */
  lemma ReadEncoded(buf: Bytes, i: nat, n: nat, cap: Option<nat>)
    requires cap.Some? ==> cap.value >= |Encode(n)|
    requires i + |Encode(n)| <= |buf| && buf[i..i + |Encode(n)|] == Encode(n)
    ensures Read(buf, i, cap) == Ok((n, |Encode(n)|))
  {
    EncodeSpec(n);
    ReadRun(buf, i, Encode(n), cap);
  }

  lemma NotPast(buf: Bytes, i: nat, m: nat, cap: Option<nat>)
    requires 1 <= m && i + m <= |buf| && buf[i + m - 1] < 128
    requires cap.Some? ==> cap.value >= m
    ensures !RunsPastCap(buf, i, cap) && !RunsPastEnd(buf, i, cap)
  {
  }

  /** A capped read that succeeds reads the same as the uncapped reader. */
  lemma CappedAgreesWithUncapped(buf: Bytes, i: nat, c: nat)
    requires c >= 1
    requires Read(buf, i, Some(c)).Ok?
    ensures Read(buf, i, None) == Read(buf, i, Some(c))
  {
    ReadSpec(buf, i, Some(c));
    ReadSpec(buf, i, None);
    var r := Read(buf, i, Some(c));
    var u := Read(buf, i, None);
    WellFormedAt(buf, i, r.value.1);
    assert u.Ok?;
    WellFormedUnique(buf, i, r.value.1, u.value.1);
  }

  /** `_read_vlq(buf, i)` of connect_builder.py and trade_proxy.py. */
  function ReadVlq(buf: Bytes, i: nat): (r: Result<(nat, nat), ReadError>)
    ensures r.Ok? ==> 1 <= r.value.1 <= 4 && r.value.0 < Pow128(4)
  {
    var r := Read(buf, i, Some(4));
    ReadSpec(buf, i, Some(4));
    if r.Ok? then
      ValueOfWellFormedIsShortest(buf[i..i + r.value.1]);
      Pow128Mono(r.value.1, 4);
      r
    else r
  }

  /** The number carried by `k` groups is below 128^k. */
  lemma {:induction false} ValueOfWellFormedIsShortest(groups: Bytes)
    ensures Value(groups) < Pow128(|groups|)
  {
    if |groups| > 0 {
      ValueOfWellFormedIsShortest(groups[1..]);
    }
  }

  /** The round trip of the remaining-length codec: every length below 128^4 survives. */
  lemma VlqRoundTrip(n: nat, rest: Bytes)
    requires n < Pow128(4)
    ensures ReadVlq(Encode(n) + rest, 0) == Ok((n, |Encode(n)|))
  {
    EncodeLength(n, 4);
    var buf := Encode(n) + rest;
    assert buf[0..|Encode(n)|] == Encode(n);
    ReadEncoded(buf, 0, n, Some(4));
  }

  /** The errors of `_read_vlq`: "VLQ out of range" and "VLQ too large". */
  lemma VlqErrors(buf: Bytes, i: nat)
    ensures ReadVlq(buf, i).Err? && ReadVlq(buf, i).error == TooLong <==>
      i + 4 <= |buf| && forall k :: i <= k < i + 4 ==> buf[k] >= 128
    ensures ReadVlq(buf, i).Err? && ReadVlq(buf, i).error == Truncated <==>
      |buf| < i + 4 && forall k :: i <= k < |buf| ==> buf[k] >= 128
  {
    ReadSpec(buf, i, Some(4));
  }
}
