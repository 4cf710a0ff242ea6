/** `CodedOutputStream` over blocks of a zero-copy stream. What matters of the
    blocks is only whether the current one has room. */
module CodedOutput {
  import opened Prelude
  import opened Varint
  import opened WireFormat
  import opened CodedTarget

  class CodedOutputStream {
    var data: Bytes

    constructor ()
      ensures data == []
    {
      data := [];
    }

    method WriteRaw(s: Bytes)
      modifies this
      ensures data == old(data) + s
    {
      data := data + s;
    }

    /** `GetDirectBufferForNBytesAndAdvance`: whether the current block has room,
        which can turn out either way. */
    method HasDirectBuffer(size: nat) returns (direct: bool)
    {
      direct := *;
    }

    /** Through a buffer of ten bytes, which is as long as a varint gets. */
    method WriteVarint64(value: uint64)
      modifies this
      ensures data == old(data) + EncodeVarint(value)
    {
      VarintSizeExact(value);
      var bytes := new byte[MAX_VARINT_BYTES];
      ghost var before := bytes[..];
      var end := WriteVarint64ToArray(value, bytes, 0);
      assert bytes[..end] == Splice(before, 0, EncodeVarint(value))[..end] == EncodeVarint(value);
      WriteRaw(bytes[..end]);
    }

    method WriteTag(number: FieldNumber, wireType: nat)
      requires wireType < 8
      modifies this
      ensures data == old(data) + EncodeVarint(MakeTag(number, wireType))
    {
      WriteVarint64(MakeTag(number, wireType));
    }

    method WriteVarintField(number: FieldNumber, value: uint64)
      modifies this
      ensures data == old(data) + EncodeField(VarintField(number, value))
    {
      WriteTag(number, WIRETYPE_VARINT);
      WriteVarint64(value);
    }

    method WriteFixed32Field(number: FieldNumber, value: uint32)
      modifies this
      ensures data == old(data) + EncodeField(Fixed32Field(number, value))
    {
      WriteTag(number, WIRETYPE_FIXED32);
      WriteRaw(EncodeFixed32(value));
    }

    method WriteFixed64Field(number: FieldNumber, value: uint64)
      modifies this
      ensures data == old(data) + EncodeField(Fixed64Field(number, value))
    {
      WriteTag(number, WIRETYPE_FIXED64);
      WriteRaw(EncodeFixed64(value));
    }

    method WriteLength(number: FieldNumber, length: uint64)
      modifies this
      ensures data == old(data) + LengthPrefix(number, length)
    {
      WriteTag(number, WIRETYPE_LENGTH_DELIMITED);
      WriteVarint64(length);
    }

    method WriteBytesField(number: FieldNumber, value: Bytes)
      requires |value| < TWO_64
      modifies this
      ensures data == old(data) + EncodeField(LengthDelimited(number, value))
    {
      ghost var before := data;
      WriteLength(number, |value|);
      WriteRaw(value);
      LengthPrefixed(number, value);
      JoinInAnyOrder(before, LengthPrefix(number, |value|), value);
    }

    /** `WireFormat::SerializeUnknownFields`. */
    method SerializeUnknownFields(fields: seq<UnknownField>)
      requires |EncodeFields(fields)| < TWO_64
      modifies this
      ensures data == old(data) + EncodeFields(fields)
      decreases fields, 0
    {
      for i := 0 to |fields|
        invariant data == old(data) + EncodeFields(fields[..i])
      {
        EncodeNext(fields, i);
        JoinInAnyOrder(old(data), EncodeFields(fields[..i]), EncodeField(fields[i]));
        SerializeUnknownField(fields[i]);
      }
      assert fields[..|fields|] == fields;
    }

    method SerializeUnknownField(f: UnknownField)
      requires |EncodeField(f)| < TWO_64
      modifies this
      ensures data == old(data) + EncodeField(f)
      decreases f, 1
    {
      match f
      case VarintField(n, v) => WriteVarintField(n, v);
      case Fixed32Field(n, v) => WriteFixed32Field(n, v);
      case Fixed64Field(n, v) => WriteFixed64Field(n, v);
      case LengthDelimited(n, d) => WriteBytesField(n, d);
      case GroupField(n, g) => SerializeGroup(n, g);
    }

    method SerializeGroup(n: FieldNumber, g: seq<UnknownField>)
      requires |EncodeField(GroupField(n, g))| < TWO_64
      modifies this
      ensures data == old(data) + EncodeField(GroupField(n, g))
      decreases g, 1
    {
      ghost var before, head := data, EncodeVarint(MakeTag(n, WIRETYPE_START_GROUP));
      ghost var inner, close := EncodeFields(g), EncodeVarint(MakeTag(n, WIRETYPE_END_GROUP));
      assert EncodeField(GroupField(n, g)) == head + (inner + close);
      WriteTag(n, WIRETYPE_START_GROUP);
      SerializeUnknownFields(g);
      WriteTag(n, WIRETYPE_END_GROUP);
      JoinInAnyOrder(before, head, inner + close);
      JoinInAnyOrder(before + head, inner, close);
    }

    // ----------------------------------------- fields behind their has bits

    method WriteVarintIfSet(number: FieldNumber, has: bool, value: uint64, ghost before: Bytes, ghost fs: seq<UnknownField>)
      requires Put(data, before, fs)
      modifies this
      ensures Put(data, before, fs + if has then [VarintField(number, value)] else [])
    {
      PutMore(data, before, fs, if has then [VarintField(number, value)] else []);
      if has {
        assert EncodeFields([VarintField(number, value)]) == EncodeField(VarintField(number, value)) + [];
        WriteVarintField(number, value);
      }
    }

    method WriteFloatIfSet(number: FieldNumber, has: bool, value: uint32, ghost before: Bytes, ghost fs: seq<UnknownField>)
      requires Put(data, before, fs)
      modifies this
      ensures Put(data, before, fs + FloatField(number, Opt(has, value)))
    {
      PutMore(data, before, fs, FloatField(number, Opt(has, value)));
      if has {
        assert EncodeFields([Fixed32Field(number, value)]) == EncodeField(Fixed32Field(number, value)) + [];
        WriteFixed32Field(number, value);
      }
    }

    method WriteBytesIfSet(number: FieldNumber, has: bool, value: Bytes, ghost before: Bytes, ghost fs: seq<UnknownField>)
      requires Put(data, before, fs) && (has ==> |value| < TWO_64)
      modifies this
      ensures Put(data, before, fs + BytesField(number, Opt(has, value)))
    {
      PutMore(data, before, fs, BytesField(number, Opt(has, value)));
      if has {
        assert EncodeFields([LengthDelimited(number, value)]) == EncodeField(LengthDelimited(number, value)) + [];
        WriteBytesField(number, value);
      }
    }

    method WriteUnknown(unknown: seq<UnknownField>, ghost before: Bytes, ghost fs: seq<UnknownField>)
      requires Put(data, before, fs) && |EncodeFields(unknown)| < TWO_64
      modifies this
      ensures Put(data, before, fs + unknown)
    {
      PutMore(data, before, fs, unknown);
      if unknown != [] {
        SerializeUnknownFields(unknown);
      }
    }
  }

  /** `now` is `before` with the fields `fs` after it. */
  ghost predicate Put(now: Bytes, before: Bytes, fs: seq<UnknownField>)
  {
    now == before + EncodeFields(fs)
  }

  lemma PutMore(now: Bytes, before: Bytes, fs: seq<UnknownField>, gs: seq<UnknownField>)
    requires Put(now, before, fs)
    ensures Put(now + EncodeFields(gs), before, fs + gs)
    ensures gs == [] ==> Put(now, before, fs + gs)
  {
    EncodeFieldsConcat(fs, gs);
    JoinInAnyOrder(before, EncodeFields(fs), EncodeFields(gs));
    assert fs + [] == fs;
  }

  /** A submessage: its prefix, then its bytes. */
  lemma PutMessage(now: Bytes, before: Bytes, fs: seq<UnknownField>, number: FieldNumber, d: Bytes)
    requires Put(now, before, fs)
    ensures Put(now + LengthPrefix(number, |d|) + d, before, fs + [LengthDelimited(number, d)])
  {
    var f := LengthDelimited(number, d);
    PutMore(now, before, fs, [f]);
    LengthPrefixed(number, d);
    assert EncodeFields([f]) == EncodeField(f) + [];
    JoinInAnyOrder(now, LengthPrefix(number, |d|), d);
  }
}
