/** Base 128 varints and little-endian fixed-width integers, as the coded
    streams of the bundled protobuf library read and write them. */
module Varint {
  import opened Prelude

  const MAX_VARINT_BYTES: nat := 10

  // ---------------------------------------------------------------- writing

  function EncodeVarint(v: nat): (s: Bytes)
    ensures |s| >= 1
  {
    if v < 128 then [v] else [128 + v % 128] + EncodeVarint(v / 128)
  }

  /** The size tables of `VarintSize32Fallback` and `VarintSize64`. */
  function VarintSize(v: uint64): nat
  {
    if v < 0x80 then 1
    else if v < 0x4000 then 2
    else if v < 0x20_0000 then 3
    else if v < 0x1000_0000 then 4
    else if v < 0x8_0000_0000 then 5
    else if v < 0x400_0000_0000 then 6
    else if v < 0x2_0000_0000_0000 then 7
    else if v < 0x100_0000_0000_0000 then 8
    else if v < 0x8000_0000_0000_0000 then 9
    else 10
  }

  lemma {:induction false} VarintSizeExact(v: uint64)
    ensures |EncodeVarint(v)| == VarintSize(v)
  {
    if v >= 128 {
      VarintSizeExact(v / 128);
    }
  }

  // ---------------------------------------------------------------- reading

  /** The number spelled by the varint of at most `left` bytes that starts `s`,
      not yet cut to 64 bits. */
  function RawVarint(s: Bytes, left: nat): (r: Read<nat>)
    ensures r.Got? ==> |r.rest| < |s|
    decreases |s|
  {
    if left == 0 || s == [] then Fail
    else if s[0] < 128 then Got(s[0], s[1..])
    else match RawVarint(s[1..], left - 1)
      case Fail => Fail
      case Got(v, rest) => Got(s[0] - 128 + 128 * v, rest)
  }

  function ReadVarint64(s: Bytes): (r: Read<uint64>)
    ensures r.Got? ==> |r.rest| < |s|
  {
    match RawVarint(s, MAX_VARINT_BYTES)
    case Fail => Fail
    case Got(v, rest) => Got(v % TWO_64, rest)
  }

  /** Reads as many bytes as ReadVarint64 and discards the high-order bits. */
  function ReadVarint32(s: Bytes): (r: Read<uint32>)
    ensures r.Got? ==> |r.rest| < |s|
  {
    match ReadVarint64(s)
    case Fail => Fail
    case Got(v, rest) => Got(v % TWO_32, rest)
  }

  lemma {:induction false} RawVarintExtend(s: Bytes, t: Bytes, left: nat)
    requires RawVarint(s, left).Got?
    ensures RawVarint(s + t, left) == Got(RawVarint(s, left).value, RawVarint(s, left).rest + t)
    decreases left
  {
    assert (s + t)[0] == s[0];
    assert (s + t)[1..] == s[1..] + t;
    if s[0] >= 128 {
      RawVarintExtend(s[1..], t, left - 1);
    }
  }

  lemma {:induction false} RawVarintOfEncoded(v: nat, t: Bytes, left: nat)
    requires |EncodeVarint(v)| <= left
    ensures RawVarint(EncodeVarint(v) + t, left) == Got(v, t)
    decreases left
  {
    var s := EncodeVarint(v) + t;
    assert s[0] == EncodeVarint(v)[0];
    if v < 128 {
      assert s[1..] == t;
    } else {
      assert s[1..] == EncodeVarint(v / 128) + t;
      RawVarintOfEncoded(v / 128, t, left - 1);
    }
  }

  lemma SmallMod(v: uint64)
    ensures v % TWO_64 == v
    ensures v < TWO_32 ==> v % TWO_32 == v
  {
  }

  /** Writing then reading gives the value back, whatever follows it. */
  lemma VarintRoundTrip(v: uint64, t: Bytes)
    ensures ReadVarint64(EncodeVarint(v) + t) == Got(v, t)
  {
    assert |EncodeVarint(v)| <= MAX_VARINT_BYTES by { VarintSizeExact(v); }
    RawVarintOfEncoded(v, t, MAX_VARINT_BYTES);
    SmallMod(v);
  }

  lemma Varint32RoundTrip(v: uint32, t: Bytes)
    ensures ReadVarint32(EncodeVarint(v) + t) == Got(v, t)
  {
    VarintRoundTrip(v, t);
    SmallMod(v);
  }

  /** What follows a varint does not change how it is read. */
  lemma VarintExtend(s: Bytes, t: Bytes)
    requires ReadVarint64(s).Got?
    ensures ReadVarint64(s + t) == Got(ReadVarint64(s).value, ReadVarint64(s).rest + t)
    ensures ReadVarint32(s + t) == Got(ReadVarint32(s).value, ReadVarint32(s).rest + t)
  {
    RawVarintExtend(s, t, MAX_VARINT_BYTES);
  }

  lemma {:induction false} RawVarintPrefix(s: Bytes, t: Bytes, left: nat)
    requires RawVarint(s + t, left).Got? && |RawVarint(s + t, left).rest| >= |t|
    ensures RawVarint(s, left).Got?
    decreases left
  {
    assert s == [] ==> s + t == t;
    if s != [] && s[0] >= 128 {
      assert (s + t)[0] == s[0];
      assert (s + t)[1..] == s[1..] + t;
      RawVarintPrefix(s[1..], t, left - 1);
    }
  }

  /** A varint is read from its own bytes: what it leaves behind is not needed. */
  lemma VarintPrefix(s: Bytes, t: Bytes)
    requires ReadVarint64(s + t).Got? && |ReadVarint64(s + t).rest| >= |t|
    ensures ReadVarint64(s).Got?
    ensures ReadVarint64(s + t) == Got(ReadVarint64(s).value, ReadVarint64(s).rest + t)
    ensures ReadVarint32(s + t) == Got(ReadVarint32(s).value, ReadVarint32(s).rest + t)
  {
    RawVarintPrefix(s, t, MAX_VARINT_BYTES);
    VarintExtend(s, t);
  }

  // ------------------------------------------------------------------ bytes

  /** The number whose base 128 digits are the low seven bits of each byte, the
      lowest first. */
  function Weigh(s: Bytes): nat
  {
    if s == [] then 0 else s[0] % 128 + 128 * Weigh(s[1..])
  }

  /** The first byte without a continuation bit is the one at `k`. */
  predicate EndsAt(s: Bytes, k: nat)
  {
    k < |s| && s[k] < 128 && forall i | 0 <= i < k :: s[i] >= 128
  }

  /** What is written: seven bits a byte, low bits first, a continuation bit on all
      but the last, and no last byte that adds nothing. */
  lemma {:induction false} VarintBytes(v: nat)
    ensures var s := EncodeVarint(v);
      && EndsAt(s, |s| - 1) && Weigh(s) == v && (|s| > 1 ==> s[|s| - 1] != 0)
  {
    if v >= 128 {
      VarintBytes(v / 128);
      var s, rest := EncodeVarint(v), EncodeVarint(v / 128);
      assert s[1..] == rest;
      forall i | 0 <= i < |s| - 1
        ensures s[i] >= 128
      {
        assert i > 0 ==> s[i] == rest[i - 1];
      }
    } else {
      assert EncodeVarint(v)[1..] == [];
    }
  }

  lemma {:induction false} RawVarintAt(s: Bytes, left: nat, k: nat)
    requires EndsAt(s, k)
    ensures RawVarint(s, left) == if k < left then Got(Weigh(s[..k + 1]), s[k + 1..]) else Fail
    decreases k
  {
    var first := s[..k + 1];
    if left > 0 {
      if k == 0 {
        assert first[1..] == [];
      } else {
        assert first[1..] == s[1..][..k];
        RawVarintAt(s[1..], left - 1, k - 1);
      }
    }
  }

  lemma {:induction false} RawVarintEnds(s: Bytes, left: nat) returns (k: nat)
    requires RawVarint(s, left).Got?
    ensures k < left && EndsAt(s, k)
    decreases left
  {
    if s[0] < 128 {
      k := 0;
    } else {
      var j := RawVarintEnds(s[1..], left - 1);
      k := j + 1;
    }
  }

  /** What is read: up to the first byte without a continuation bit, which must be
      one of the first ten; the bits beyond the 64th are dropped. */
  lemma VarintReads(s: Bytes)
    ensures ReadVarint64(s).Got? <==> exists k :: 0 <= k < 10 && EndsAt(s, k)
    ensures forall k | 0 <= k < 10 && EndsAt(s, k) ::
              ReadVarint64(s) == Got(Weigh(s[..k + 1]) % 0x1_0000_0000_0000_0000, s[k + 1..])
    ensures ReadVarint64(s).Got? ==>
              ReadVarint32(s) == Got(ReadVarint64(s).value % 0x1_0000_0000, ReadVarint64(s).rest)
  {
    if ReadVarint64(s).Got? {
      var k := RawVarintEnds(s, MAX_VARINT_BYTES);
    }
    forall k | 0 <= k < 10 && EndsAt(s, k)
      ensures ReadVarint64(s) == Got(Weigh(s[..k + 1]) % 0x1_0000_0000_0000_0000, s[k + 1..])
    {
      RawVarintAt(s, MAX_VARINT_BYTES, k);
    }
  }

  // ---------------------------------------------------------------- lengths

  /** A greater number is written in no fewer bytes. */
  lemma {:induction false} VarintMonotone(v: nat, w: nat)
    requires v <= w
    ensures |EncodeVarint(v)| <= |EncodeVarint(w)|
    decreases w
  {
    if v >= 128 {
      VarintMonotone(v / 128, w / 128);
    }
  }

  lemma VarintDoubled(v: nat)
    ensures |EncodeVarint(2 * v)| <= |EncodeVarint(v)| + 1
  {
    VarintMonotone(2 * v, 128 * v);
    if v > 0 {
      assert 128 * v / 128 == v;
    }
  }

  /** Numbers written apart take no fewer bytes than their sum. */
  lemma VarintSum(v: nat, w: nat)
    ensures |EncodeVarint(v + w)| <= |EncodeVarint(v)| + |EncodeVarint(w)|
  {
    var m := if v <= w then w else v;
    VarintMonotone(v + w, 2 * m);
    VarintDoubled(m);
  }

  lemma {:induction false} RawVarintLength(s: Bytes, left: nat)
    requires RawVarint(s, left).Got?
    ensures |EncodeVarint(RawVarint(s, left).value)| + |RawVarint(s, left).rest| <= |s|
    decreases left
  {
    if s[0] >= 128 {
      RawVarintLength(s[1..], left - 1);
      var v := RawVarint(s[1..], left - 1).value;
      assert (s[0] - 128 + 128 * v) / 128 == v;
    }
  }

  /** A varint is never read from fewer bytes than writing the number takes. */
  lemma VarintLength(s: Bytes)
    requires ReadVarint64(s).Got?
    ensures |EncodeVarint(ReadVarint64(s).value)| + |ReadVarint64(s).rest| <= |s|
    ensures |EncodeVarint(ReadVarint32(s).value)| + |ReadVarint32(s).rest| <= |s|
  {
    RawVarintLength(s, MAX_VARINT_BYTES);
    var raw := RawVarint(s, MAX_VARINT_BYTES).value;
    var v: nat := raw % TWO_64;
    ModAtMost(raw, TWO_64);
    ModAtMost(v, TWO_32);
    VarintMonotone(v, raw);
    VarintMonotone(v % TWO_32, v);
  }

  lemma ModAtMost(v: nat, d: int)
    requires d > 0
    ensures 0 <= v % d <= v
  {
    if v >= d {
      assert v == d * (v / d) + v % d;
    }
  }

  // ------------------------------------------------------------ fixed width

  function EncodeFixed32(v: uint32): (s: Bytes)
    ensures |s| == 4
  {
    var q1: int := v / 256;
    var q2: int := q1 / 256;
    [v % 256, q1 % 256, q2 % 256, q2 / 256]
  }

  function ReadFixed32(s: Bytes): (r: Read<uint32>)
    ensures r.Got? ==> |r.rest| < |s|
  {
    if |s| < 4 then Fail else Got(DecodeFixed32(s), s[4..])
  }

  function ReadFixed64(s: Bytes): (r: Read<uint64>)
    ensures r.Got? ==> |r.rest| < |s|
  {
    if |s| < 8 then Fail else Got(DecodeFixed64(s), s[8..])
  }

  function DecodeFixed32(s: Bytes): uint32
    requires |s| >= 4
  {
    var b0: int, b1: int, b2: int, b3: int := s[0], s[1], s[2], s[3];
    b0 + 256 * b1 + 0x1_0000 * b2 + 0x100_0000 * b3
  }

  function EncodeFixed64(v: uint64): (s: Bytes)
    ensures |s| == 8
  {
    EncodeFixed32(v % TWO_32) + EncodeFixed32(v / TWO_32)
  }

  function DecodeFixed64(s: Bytes): uint64
    requires |s| >= 8
  {
    DecodeFixed32(s[..4]) + TWO_32 * DecodeFixed32(s[4..8])
  }

  lemma DecodeEncoded32(v: uint32, s: Bytes)
    requires |s| >= 4 && s[..4] == EncodeFixed32(v)
    ensures DecodeFixed32(s) == v
  {
    var e := EncodeFixed32(v);
    assert s[0] == e[0] && s[1] == e[1] && s[2] == e[2] && s[3] == e[3] by {
      assert forall i | 0 <= i < 4 :: s[i] == s[..4][i];
    }
    var q1: int := v / 256;
    var q2: int := q1 / 256;
    assert v == v % 256 + 256 * (q1 % 256 + 256 * (q2 % 256 + 256 * (q2 / 256)));
  }

  lemma Fixed32RoundTrip(v: uint32, t: Bytes)
    ensures ReadFixed32(EncodeFixed32(v) + t) == Got(v, t)
  {
    var s := EncodeFixed32(v) + t;
    assert s[..4] == EncodeFixed32(v) && s[4..] == t;
    DecodeEncoded32(v, s);
  }

  lemma Fixed64RoundTrip(v: uint64, t: Bytes)
    ensures ReadFixed64(EncodeFixed64(v) + t) == Got(v, t)
  {
    var s := EncodeFixed64(v) + t;
    assert s[..4] == EncodeFixed32(v % TWO_32) && s[4..8] == EncodeFixed32(v / TWO_32) && s[8..] == t;
    assert s[..4][..4] == s[..4] && s[4..8][..4] == s[4..8];
    DecodeEncoded32(v % TWO_32, s[..4]);
    DecodeEncoded32(v / TWO_32, s[4..8]);
  }

  /** What a fixed-width integer is on the wire: its bytes, the lowest first. */
  lemma Fixed32Bytes(v: uint32)
    ensures var s := EncodeFixed32(v);
      var b0: int, b1: int, b2: int, b3: int := s[0], s[1], s[2], s[3];
      b0 + 0x100 * b1 + 0x1_0000 * b2 + 0x100_0000 * b3 == v
  {
    var q1: int := v / 256;
    var q2: int := q1 / 256;
    assert v == v % 256 + 256 * (q1 % 256 + 256 * (q2 % 256 + 256 * (q2 / 256)));
  }

  /** The low half of eight bytes comes first. */
  lemma Fixed64Bytes(v: uint64)
    ensures EncodeFixed64(v)[..4] == EncodeFixed32(v % 0x1_0000_0000)
    ensures EncodeFixed64(v)[4..] == EncodeFixed32(v / 0x1_0000_0000)
  {
  }

  lemma FixedExtend(s: Bytes, t: Bytes)
    ensures |s| >= 4 ==> ReadFixed32(s + t) == Got(ReadFixed32(s).value, ReadFixed32(s).rest + t)
    ensures |s| >= 8 ==> ReadFixed64(s + t) == Got(ReadFixed64(s).value, ReadFixed64(s).rest + t)
  {
    if |s| >= 4 {
      assert (s + t)[4..] == s[4..] + t;
    }
    if |s| >= 8 {
      assert (s + t)[8..] == s[8..] + t;
      assert (s + t)[..4] == s[..4] && (s + t)[4..8] == s[4..8];
    }
  }
}
