/** The writers that store through a raw target pointer and return the pointer
    past what they wrote (`...ToArray`). A target is an array and an index. */
module CodedTarget {
  import opened Prelude
  import opened Varint
  import opened WireFormat

  /** `t` with the bytes `s` stored from index `at`. */
  ghost function Splice(t: Bytes, at: nat, s: Bytes): (r: Bytes)
    requires at + |s| <= |t|
    ensures |r| == |t|
  {
    t[..at] + s + t[at + |s|..]
  }

  lemma SpliceTwice(t: Bytes, at: nat, a: Bytes, b: Bytes)
    requires at + |a| + |b| <= |t|
    ensures Splice(Splice(t, at, a), at + |a|, b) == Splice(t, at, a + b)
  {
  }

  lemma SpliceThrice(t: Bytes, at: nat, a: Bytes, b: Bytes, c: Bytes)
    requires at + |a| + |b| + |c| <= |t|
    ensures Splice(Splice(Splice(t, at, a), at + |a|, b), at + |a| + |b|, c) == Splice(t, at, a + (b + c))
  {
    SpliceTwice(t, at, a, b + c);
    SpliceTwice(Splice(t, at, a), at + |a|, b, c);
  }

  lemma SpliceNothing(t: Bytes, at: nat)
    requires at <= |t|
    ensures Splice(t, at, []) == t
  {
  }

  lemma SpliceAll(t: Bytes, s: Bytes)
    requires |s| == |t|
    ensures Splice(t, 0, s) == s
  {
  }

  method WriteByte(b: byte, target: array<byte>, at: nat) returns (end: nat)
    requires at < target.Length
    modifies target
    ensures end == at + 1 && target[..] == Splice(old(target[..]), at, [b])
  {
    target[at] := b;
    end := at + 1;
  }

  /** Seven bits a byte, the top bit set on all but the last. */
  method WriteVarint64ToArray(value: uint64, target: array<byte>, at: nat) returns (end: nat)
    requires at + |EncodeVarint(value)| <= target.Length
    modifies target
    ensures end == at + |EncodeVarint(value)|
    ensures target[..] == Splice(old(target[..]), at, EncodeVarint(value))
  {
    var v: nat := value;
    end := at;
    ghost var written: Bytes, before := [], target[..];
    SpliceNothing(before, at);
    while v > 0x7F
      invariant at + |EncodeVarint(value)| <= target.Length
      invariant end == at + |written| && written + EncodeVarint(v) == EncodeVarint(value)
      invariant target[..] == Splice(before, at, written)
    {
      ghost var digit: byte := 128 + v % 128;
      JoinInAnyOrder(written, [digit], EncodeVarint(v / 128));
      SpliceTwice(before, at, written, [digit]);
      end := WriteByte(128 + v % 128, target, end);
      v, written := v / 128, written + [digit];
    }
    SpliceTwice(before, at, written, [v]);
    end := WriteByte(v, target, end);
  }

  method WriteRawToArray(s: Bytes, target: array<byte>, at: nat) returns (end: nat)
    requires at + |s| <= target.Length
    modifies target
    ensures end == at + |s| && target[..] == Splice(old(target[..]), at, s)
  {
    forall i | 0 <= i < |s| {
      target[at + i] := s[i];
    }
    end := at + |s|;
  }

  method WriteTagToArray(number: FieldNumber, wireType: nat, target: array<byte>, at: nat) returns (end: nat)
    requires wireType < 8 && at + |EncodeVarint(MakeTag(number, wireType))| <= target.Length
    modifies target
    ensures end == at + |EncodeVarint(MakeTag(number, wireType))|
    ensures target[..] == Splice(old(target[..]), at, EncodeVarint(MakeTag(number, wireType)))
  {
    end := WriteVarint64ToArray(MakeTag(number, wireType), target, at);
  }

  /** A tag and the varint of an unknown field, an enum, an integer or a bool. */
  method WriteVarintFieldToArray(number: FieldNumber, value: uint64, target: array<byte>, at: nat) returns (end: nat)
    requires at + |EncodeField(VarintField(number, value))| <= target.Length
    modifies target
    ensures end == at + |EncodeField(VarintField(number, value))|
    ensures target[..] == Splice(old(target[..]), at, EncodeField(VarintField(number, value)))
  {
    SpliceTwice(target[..], at, EncodeVarint(MakeTag(number, WIRETYPE_VARINT)), EncodeVarint(value));
    end := WriteTagToArray(number, WIRETYPE_VARINT, target, at);
    end := WriteVarint64ToArray(value, target, end);
  }

  method WriteFixed32ToArray(number: FieldNumber, value: uint32, target: array<byte>, at: nat) returns (end: nat)
    requires at + |EncodeField(Fixed32Field(number, value))| <= target.Length
    modifies target
    ensures end == at + |EncodeField(Fixed32Field(number, value))|
    ensures target[..] == Splice(old(target[..]), at, EncodeField(Fixed32Field(number, value)))
  {
    SpliceTwice(target[..], at, EncodeVarint(MakeTag(number, WIRETYPE_FIXED32)), EncodeFixed32(value));
    end := WriteTagToArray(number, WIRETYPE_FIXED32, target, at);
    end := WriteRawToArray(EncodeFixed32(value), target, end);
  }

  method WriteFixed64ToArray(number: FieldNumber, value: uint64, target: array<byte>, at: nat) returns (end: nat)
    requires at + |EncodeField(Fixed64Field(number, value))| <= target.Length
    modifies target
    ensures end == at + |EncodeField(Fixed64Field(number, value))|
    ensures target[..] == Splice(old(target[..]), at, EncodeField(Fixed64Field(number, value)))
  {
    SpliceTwice(target[..], at, EncodeVarint(MakeTag(number, WIRETYPE_FIXED64)), EncodeFixed64(value));
    end := WriteTagToArray(number, WIRETYPE_FIXED64, target, at);
    end := WriteRawToArray(EncodeFixed64(value), target, end);
  }

  /** The tag and length that go before a string or a submessage. */
  method WriteLengthToArray(number: FieldNumber, length: uint64, target: array<byte>, at: nat) returns (end: nat)
    requires at + |LengthPrefix(number, length)| <= target.Length
    modifies target
    ensures end == at + |LengthPrefix(number, length)|
    ensures target[..] == Splice(old(target[..]), at, LengthPrefix(number, length))
  {
    SpliceTwice(target[..], at, EncodeVarint(MakeTag(number, WIRETYPE_LENGTH_DELIMITED)), EncodeVarint(length));
    end := WriteTagToArray(number, WIRETYPE_LENGTH_DELIMITED, target, at);
    end := WriteVarint64ToArray(length, target, end);
  }

  ghost function LengthPrefix(number: FieldNumber, length: nat): Bytes
  {
    EncodeVarint(MakeTag(number, WIRETYPE_LENGTH_DELIMITED)) + EncodeVarint(length)
  }

  lemma LengthPrefixed(number: FieldNumber, d: Bytes)
    ensures EncodeField(LengthDelimited(number, d)) == LengthPrefix(number, |d|) + d
  {
  }

  method WriteBytesToArray(number: FieldNumber, value: Bytes, target: array<byte>, at: nat) returns (end: nat)
    requires |value| < TWO_64 && at + |EncodeField(LengthDelimited(number, value))| <= target.Length
    modifies target
    ensures end == at + |EncodeField(LengthDelimited(number, value))|
    ensures target[..] == Splice(old(target[..]), at, EncodeField(LengthDelimited(number, value)))
  {
    LengthPrefixed(number, value);
    SpliceTwice(target[..], at, LengthPrefix(number, |value|), value);
    end := WriteLengthToArray(number, |value|, target, at);
    end := WriteRawToArray(value, target, end);
  }

  /** `WireFormat::SerializeUnknownFieldsToArray`. */
  method SerializeUnknownFieldsToArray(fields: seq<UnknownField>, target: array<byte>, at: nat) returns (end: nat)
    requires at + |EncodeFields(fields)| <= target.Length < TWO_64
    modifies target
    ensures end == at + |EncodeFields(fields)|
    ensures target[..] == Splice(old(target[..]), at, EncodeFields(fields))
    decreases fields, 0
  {
    end := at;
    ghost var before := target[..];
    SpliceNothing(before, at);
    for i := 0 to |fields|
      invariant end == at + |EncodeFields(fields[..i])| <= at + |EncodeFields(fields)| <= target.Length
      invariant target[..] == Splice(before, at, EncodeFields(fields[..i]))
    {
      EncodeNext(fields, i);
      SpliceTwice(before, at, EncodeFields(fields[..i]), EncodeField(fields[i]));
      end := SerializeUnknownFieldToArray(fields[i], target, end);
    }
    assert fields[..|fields|] == fields;
  }

  method SerializeUnknownFieldToArray(f: UnknownField, target: array<byte>, at: nat) returns (end: nat)
    requires at + |EncodeField(f)| <= target.Length < TWO_64
    modifies target
    ensures end == at + |EncodeField(f)| && target[..] == Splice(old(target[..]), at, EncodeField(f))
    decreases f, 1
  {
    match f
    case VarintField(n, v) => end := WriteVarintFieldToArray(n, v, target, at);
    case Fixed32Field(n, v) => end := WriteFixed32ToArray(n, v, target, at);
    case Fixed64Field(n, v) => end := WriteFixed64ToArray(n, v, target, at);
    case LengthDelimited(n, d) => end := WriteBytesToArray(n, d, target, at);
    case GroupField(n, g) => end := SerializeGroupToArray(n, g, target, at);
  }

  /** The fields of a group between its two tags. */
  lemma EncodedGroup(n: FieldNumber, g: seq<UnknownField>)
    ensures EncodeField(GroupField(n, g))
         == EncodeVarint(MakeTag(n, WIRETYPE_START_GROUP)) + (EncodeFields(g) + EncodeVarint(MakeTag(n, WIRETYPE_END_GROUP)))
  {
  }

  method SerializeGroupToArray(n: FieldNumber, g: seq<UnknownField>, target: array<byte>, at: nat) returns (end: nat)
    requires at + |EncodeField(GroupField(n, g))| <= target.Length < TWO_64
    modifies target
    ensures end == at + |EncodeField(GroupField(n, g))|
    ensures target[..] == Splice(old(target[..]), at, EncodeField(GroupField(n, g)))
    decreases g, 1
  {
    ghost var before := target[..];
    ghost var open, inner := EncodeVarint(MakeTag(n, WIRETYPE_START_GROUP)), EncodeFields(g);
    ghost var close := EncodeVarint(MakeTag(n, WIRETYPE_END_GROUP));
    EncodedGroup(n, g);
    SpliceThrice(before, at, open, inner, close);
    end := WriteTagToArray(n, WIRETYPE_START_GROUP, target, at);
    ghost var begun := target[..];
    end := SerializeUnknownFieldsToArray(g, target, end);
    assert target[..] == Splice(begun, at + |open|, inner);
    end := WriteTagToArray(n, WIRETYPE_END_GROUP, target, end);
  }

  lemma EncodeNext(fields: seq<UnknownField>, i: nat)
    requires i < |fields|
    ensures EncodeFields(fields[..i + 1]) == EncodeFields(fields[..i]) + EncodeField(fields[i])
    ensures |EncodeFields(fields[..i])| + |EncodeField(fields[i])| <= |EncodeFields(fields)|
  {
    assert fields[..i + 1] == fields[..i] + [fields[i]];
    EncodeFieldsConcat(fields[..i], [fields[i]]);
    assert EncodeFields([fields[i]]) == EncodeField(fields[i]) + [];
    assert fields == fields[..i + 1] + fields[i + 1..];
    EncodeFieldsConcat(fields[..i + 1], fields[i + 1..]);
  }

  // ------------------------------------------------------------------ sizes

  /** Field numbers up to 15 have tags of one byte: the `1 +` of every ByteSize. */
  lemma OneByteTag(number: FieldNumber, wireType: nat)
    requires number <= 15 && wireType < 8
    ensures |EncodeVarint(MakeTag(number, wireType))| == 1
  {
  }

  lemma VarintFieldSize(number: FieldNumber, v: uint64)
    requires number <= 15
    ensures EncodeFields([VarintField(number, v)]) == EncodeField(VarintField(number, v))
    ensures |EncodeField(VarintField(number, v))| == 1 + |EncodeVarint(v)|
  {
    OneByteTag(number, WIRETYPE_VARINT);
  }

  lemma Fixed32FieldSize(number: FieldNumber, v: uint32)
    requires number <= 15
    ensures EncodeFields([Fixed32Field(number, v)]) == EncodeField(Fixed32Field(number, v))
    ensures |EncodeField(Fixed32Field(number, v))| == 5
  {
    OneByteTag(number, WIRETYPE_FIXED32);
  }

  lemma LengthDelimitedSize(number: FieldNumber, d: Bytes)
    requires number <= 15
    ensures EncodeFields([LengthDelimited(number, d)]) == EncodeField(LengthDelimited(number, d))
    ensures |EncodeField(LengthDelimited(number, d))| == 1 + |EncodeVarint(|d|)| + |d|
  {
    OneByteTag(number, WIRETYPE_LENGTH_DELIMITED);
  }

  method VarintSize32(value: uint32) returns (size: nat)
    ensures size == |EncodeVarint(value)|
  {
    VarintSizeExact(value);
    size := VarintSize(value);
  }

  /** Ten for a negative number, which is written sign-extended. */
  method Int32Size(value: int32) returns (size: nat)
    ensures size == |EncodeVarint(SignExtend(value))|
  {
    VarintSizeExact(SignExtend(value));
    if value < 0 {
      return 10;
    }
    size := VarintSize32(value);
  }

  /** `WireFormat::ComputeUnknownFieldsSize`. */
  method ComputeUnknownFieldsSize(fields: seq<UnknownField>) returns (size: nat)
    requires |EncodeFields(fields)| < TWO_31
    ensures size == |EncodeFields(fields)|
    decreases fields, 0
  {
    size := 0;
    for i := 0 to |fields|
      invariant size == |EncodeFields(fields[..i])|
    {
      EncodeNext(fields, i);
      var n := UnknownFieldSize(fields[i]);
      size := size + n;
    }
    assert fields[..|fields|] == fields;
  }

  /** `if (!unknown_fields().empty()) total_size += ComputeUnknownFieldsSize(...)`. */
  method PlusUnknown(size: nat, unknown: seq<UnknownField>) returns (total: nat)
    requires |EncodeFields(unknown)| < TWO_31
    ensures total == size + |EncodeFields(unknown)|
  {
    total := size;
    if unknown != [] {
      var n := ComputeUnknownFieldsSize(unknown);
      total := total + n;
    }
  }

  method UnknownFieldSize(f: UnknownField) returns (size: nat)
    requires |EncodeField(f)| < TWO_31
    ensures size == |EncodeField(f)|
    decreases f, 1
  {
    size := VarintSize32(FieldTag(f));
    match f
    case VarintField(_, v) =>
      VarintSizeExact(v);
      size := size + VarintSize(v);
    case Fixed32Field(_, _) => size := size + 4;
    case Fixed64Field(_, _) => size := size + 8;
    case LengthDelimited(_, d) =>
      var n := VarintSize32(|d|);
      size := size + n + |d|;
    case GroupField(n, g) =>
      var inner := ComputeUnknownFieldsSize(g);
      var close := VarintSize32(MakeTag(n, WIRETYPE_END_GROUP));
      size := size + inner + close;
  }

  // ------------------------------------------- fields behind their has bits

  method Int32FieldSize(number: FieldNumber, has: bool, value: int32) returns (size: nat)
    requires number <= 15
    ensures size == |EncodeFields(Int32Field(number, Opt(has, value)))|
  {
    if !has {
      return 0;
    }
    VarintFieldSize(number, SignExtend(value));
    size := Int32Size(value);
    size := 1 + size;
  }

  method UInt32FieldSize(number: FieldNumber, has: bool, value: uint32) returns (size: nat)
    requires number <= 15
    ensures size == |EncodeFields(UInt32Field(number, Opt(has, value)))|
  {
    if !has {
      return 0;
    }
    VarintFieldSize(number, value);
    size := VarintSize32(value);
    size := 1 + size;
  }

  method BoolFieldSize(number: FieldNumber, has: bool, value: bool) returns (size: nat)
    requires number <= 15
    ensures size == |EncodeFields(BoolField(number, Opt(has, value)))|
  {
    if !has {
      return 0;
    }
    VarintFieldSize(number, if value then 1 else 0);
    return 1 + 1;
  }

  method FloatFieldSize(number: FieldNumber, has: bool, value: uint32) returns (size: nat)
    requires number <= 15
    ensures size == |EncodeFields(FloatField(number, Opt(has, value)))|
  {
    if !has {
      return 0;
    }
    Fixed32FieldSize(number, value);
    return 1 + 4;
  }

  method BytesFieldSize(number: FieldNumber, has: bool, value: Bytes) returns (size: nat)
    requires number <= 15 && (has ==> |value| < TWO_31)
    ensures size == |EncodeFields(BytesField(number, Opt(has, value)))|
  {
    if !has {
      return 0;
    }
    LengthDelimitedSize(number, value);
    var prefix := VarintSize32(|value|);
    return 1 + prefix + |value|;
  }

  /** `now` is `before` with the fields `fs` written at `start`, up to `at`. */
  ghost predicate Written(now: Bytes, at: nat, before: Bytes, start: nat, fs: seq<UnknownField>)
  {
    && at == start + |EncodeFields(fs)| <= |before|
    && now == Splice(before, start, EncodeFields(fs))
  }

  lemma WrittenNothing(now: Bytes, at: nat)
    requires at <= |now|
    ensures Written(now, at, now, at, [])
  {
    SpliceNothing(now, at);
  }

  lemma WrittenMore(now: Bytes, at: nat, before: Bytes, start: nat, fs: seq<UnknownField>, gs: seq<UnknownField>)
    requires Written(now, at, before, start, fs) && at + |EncodeFields(gs)| <= |now|
    ensures Written(Splice(now, at, EncodeFields(gs)), at + |EncodeFields(gs)|, before, start, fs + gs)
  {
    EncodeFieldsConcat(fs, gs);
    SpliceTwice(before, start, EncodeFields(fs), EncodeFields(gs));
  }

  /** A submessage is written as its prefix and then its bytes. */
  lemma WrittenMessage(now: Bytes, at: nat, before: Bytes, start: nat, fs: seq<UnknownField>, number: FieldNumber, d: Bytes)
    requires number <= 15 && Written(now, at, before, start, fs)
    requires at + |EncodeFields([LengthDelimited(number, d)])| <= |now|
    ensures |EncodeFields([LengthDelimited(number, d)])| == |LengthPrefix(number, |d|)| + |d|
    ensures var middle := at + |LengthPrefix(number, |d|)|;
            Written(Splice(Splice(now, at, LengthPrefix(number, |d|)), middle, d), middle + |d|,
                    before, start, fs + [LengthDelimited(number, d)])
  {
    LengthDelimitedSize(number, d);
    LengthPrefixed(number, d);
    WrittenMore(now, at, before, start, fs, [LengthDelimited(number, d)]);
    SpliceTwice(now, at, LengthPrefix(number, |d|), d);
  }

  method WriteVarintIfSet(number: FieldNumber, has: bool, value: uint64, target: array<byte>, at: nat,
                          ghost before: Bytes, ghost start: nat, ghost fs: seq<UnknownField>) returns (end: nat)
    requires number <= 15 && Written(target[..], at, before, start, fs)
    requires has ==> at + |EncodeField(VarintField(number, value))| <= target.Length
    modifies target
    ensures Written(target[..], end, before, start, fs + if has then [VarintField(number, value)] else [])
  {
    end := at;
    if has {
      VarintFieldSize(number, value);
      WrittenMore(target[..], at, before, start, fs, [VarintField(number, value)]);
      end := WriteVarintFieldToArray(number, value, target, at);
    } else {
      assert fs + [] == fs;
    }
  }

  method WriteFloatIfSet(number: FieldNumber, has: bool, value: uint32, target: array<byte>, at: nat,
                         ghost before: Bytes, ghost start: nat, ghost fs: seq<UnknownField>) returns (end: nat)
    requires number <= 15 && Written(target[..], at, before, start, fs)
    requires has ==> at + |EncodeField(Fixed32Field(number, value))| <= target.Length
    modifies target
    ensures Written(target[..], end, before, start, fs + FloatField(number, Opt(has, value)))
  {
    end := at;
    if has {
      Fixed32FieldSize(number, value);
      WrittenMore(target[..], at, before, start, fs, [Fixed32Field(number, value)]);
      end := WriteFixed32ToArray(number, value, target, at);
    } else {
      assert fs + [] == fs;
    }
  }

  method WriteBytesIfSet(number: FieldNumber, has: bool, value: Bytes, target: array<byte>, at: nat,
                         ghost before: Bytes, ghost start: nat, ghost fs: seq<UnknownField>) returns (end: nat)
    requires number <= 15 && Written(target[..], at, before, start, fs)
    requires at + |EncodeFields(BytesField(number, Opt(has, value)))| <= target.Length < TWO_64
    modifies target
    ensures Written(target[..], end, before, start, fs + BytesField(number, Opt(has, value)))
  {
    end := at;
    if has {
      LengthDelimitedSize(number, value);
      WrittenMore(target[..], at, before, start, fs, [LengthDelimited(number, value)]);
      end := WriteBytesToArray(number, value, target, at);
    } else {
      assert fs + [] == fs;
    }
  }

  method WriteUnknown(unknown: seq<UnknownField>, target: array<byte>, at: nat,
                      ghost before: Bytes, ghost start: nat, ghost fs: seq<UnknownField>) returns (end: nat)
    requires Written(target[..], at, before, start, fs)
    requires at + |EncodeFields(unknown)| <= target.Length < TWO_64
    modifies target
    ensures Written(target[..], end, before, start, fs + unknown)
  {
    WrittenMore(target[..], at, before, start, fs, unknown);
    SpliceNothing(target[..], at);
    end := at;
    if unknown != [] {
      end := SerializeUnknownFieldsToArray(unknown, target, at);
    }
  }
}
