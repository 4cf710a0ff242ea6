/** The serialized form of each message as bytes: the literal tags in their order,
    and what follows each of them. */
module WireBytes {
  import opened Prelude
  import opened Varint
  import opened WireFormat
  import opened MessageEngine
  import opened PointCodec
  import opened OperationDataCodec
  import opened OperationCodec
  import opened OperationsCodec
  import opened DocumentCodec

  // ------------------------------------------------- a member of each scalar kind

  /** Ten bytes for a negative number. */
  function Int32Bytes(tag: byte, v: Option<int32>): Bytes
  {
    if v.None? then []
    else [tag] + EncodeVarint(if v.value >= 0 then v.value else v.value + 0x1_0000_0000_0000_0000)
  }

  function UInt32Bytes(tag: byte, v: Option<uint32>): Bytes
  {
    if v.None? then [] else [tag] + EncodeVarint(v.value)
  }

  /** One byte, 1 or 0. */
  function BoolBytes(tag: byte, v: Option<bool>): Bytes
  {
    if v.None? then [] else [tag, if v.value then 1 else 0]
  }

  /** Four bytes, the lowest first. */
  function FloatBytes(tag: byte, v: Option<uint32>): Bytes
  {
    if v.None? then []
    else
      var w: int := v.value;
      [tag, w % 0x100, w / 0x100 % 0x100, w / 0x1_0000 % 0x100, w / 0x100_0000]
  }

  /** The length and the bytes of a string, or of a message inside another. */
  function DelimitedBytes(tag: byte, v: Option<Bytes>): Bytes
  {
    if v.None? then [] else [tag] + (EncodeVarint(|v.value|) + v.value)
  }

  lemma OneFieldBytes(f: UnknownField)
    ensures EncodeFields([f]) == EncodeField(f)
  {
    assert EncodeFields([f]) == EncodeField(f) + EncodeFields([f][1..]);
    assert EncodeField(f) + [] == EncodeField(f);
  }

  lemma Int32FieldBytes(n: FieldNumber, v: Option<int32>)
    requires n < 16
    ensures EncodeFields(Int32Field(n, v)) == Int32Bytes(8 * n, v)
  {
    if v.Some? {
      FieldBytes(VarintField(n, SignExtend(v.value)));
      OneFieldBytes(VarintField(n, SignExtend(v.value)));
    }
  }

  lemma UInt32FieldBytes(n: FieldNumber, v: Option<uint32>)
    requires n < 16
    ensures EncodeFields(UInt32Field(n, v)) == UInt32Bytes(8 * n, v)
  {
    if v.Some? {
      FieldBytes(VarintField(n, v.value));
      OneFieldBytes(VarintField(n, v.value));
    }
  }

  lemma BoolFieldBytes(n: FieldNumber, v: Option<bool>)
    requires n < 16
    ensures EncodeFields(BoolField(n, v)) == BoolBytes(8 * n, v)
  {
    if v.Some? {
      var w: uint64 := if v.value then 1 else 0;
      FieldBytes(VarintField(n, w));
      OneFieldBytes(VarintField(n, w));
      assert EncodeVarint(w) == [w];
      assert [8 * n] + [w] == [8 * n, w];
    }
  }

  lemma FloatFieldBytes(n: FieldNumber, v: Option<uint32>)
    requires n < 16
    ensures EncodeFields(FloatField(n, v)) == FloatBytes(8 * n + 5, v)
  {
    if v.Some? {
      var w: int := v.value;
      FieldBytes(Fixed32Field(n, w));
      OneFieldBytes(Fixed32Field(n, w));
      Digits(w);
      assert EncodeFixed32(w) == [w % 0x100, w / 0x100 % 0x100, w / 0x1_0000 % 0x100, w / 0x100_0000];
    }
  }

  lemma Digits(w: int)
    requires 0 <= w < 0x1_0000_0000
    ensures w / 256 / 256 == w / 0x1_0000 && w / 256 / 256 / 256 == w / 0x100_0000
  {
  }

  lemma DelimitedFieldBytes(n: FieldNumber, d: Bytes)
    requires n < 16
    ensures EncodeFields([LengthDelimited(n, d)]) == DelimitedBytes(8 * n + 2, Some(d))
  {
    FieldBytes(LengthDelimited(n, d));
    OneFieldBytes(LengthDelimited(n, d));
  }

  function PointWire(p: Option<PointMsg>): Option<Bytes>
  {
    if p.None? then None else Some(SerializePoint(p.value))
  }

  // ---------------------------------------------------------- whole messages

  lemma PointWireBytes(m: PointMsg)
    ensures SerializePoint(m) == Int32Bytes(0x08, m.x) + Int32Bytes(0x10, m.y) + EncodeFields(m.unknown)
  {
    PointSizes(m);
    Int32FieldBytes(1, m.x);
    Int32FieldBytes(2, m.y);
  }

  /** Member `n` of operation data. */
  function DataBytesAt(m: OperationDataMsg, n: nat): Bytes
  {
    match n
    case 1 => Int32Bytes(0x08, m.dataType)
    case 2 => Int32Bytes(0x10, m.thinkness)
    case 3 => Int32Bytes(0x18, m.color)
    case 4 => DelimitedBytes(0x22, PointWire(m.startPoint))
    case 5 => DelimitedBytes(0x2A, PointWire(m.endPoint))
    case 6 => DelimitedBytes(0x32, PointWire(m.center))
    case 7 => FloatBytes(0x3D, m.angle)
    case 8 => FloatBytes(0x45, m.a)
    case 9 => FloatBytes(0x4D, m.b)
    case 10 => DelimitedBytes(0x52, PointWire(m.topLeftCorner))
    case 11 => DelimitedBytes(0x5A, PointWire(m.bottomRightCorner))
    case 12 => DelimitedBytes(0x62, PointWire(m.position))
    case 13 => BoolBytes(0x68, m.fill)
    case 14 => FloatBytes(0x75, m.alpha)
    case 15 => BoolBytes(0x78, m.isStart)
    case _ => []
  }

  /** The members up to `n`, in order. */
  function DataBytesTo(m: OperationDataMsg, n: nat): Bytes
  {
    if n == 0 then [] else DataBytesTo(m, n - 1) + DataBytesAt(m, n)
  }

  lemma PointMemberBytes(n: FieldNumber, p: Option<PointMsg>)
    requires n < 16
    ensures EncodeFields(PointFieldAt(n, p)) == DelimitedBytes(8 * n + 2, PointWire(p))
  {
    if p.Some? {
      DelimitedFieldBytes(n, SerializePoint(p.value));
    }
  }

  lemma DataPointBytes(m: OperationDataMsg, n: nat)
    requires n in DATA_SUBS
    ensures EncodeFields(DataFieldAt(m, n)) == DataBytesAt(m, n)
  {
    DataPointFieldAt(m, n);
    PointMemberBytes(n, DataPoint(m, n));
    if n == 4 {} else if n == 5 {} else if n == 6 {} else if n == 10 {} else if n == 11 {} else {}
  }

  lemma DataVarintBytes(m: OperationDataMsg, n: nat)
    requires n in {1, 2, 3, 13, 15}
    ensures EncodeFields(DataFieldAt(m, n)) == DataBytesAt(m, n)
  {
    if n == 1 {
      Int32FieldBytes(1, m.dataType);
    } else if n == 2 {
      Int32FieldBytes(2, m.thinkness);
    } else if n == 3 {
      Int32FieldBytes(3, m.color);
    } else if n == 13 {
      BoolFieldBytes(13, m.fill);
    } else {
      BoolFieldBytes(15, m.isStart);
    }
  }

  lemma DataFloatBytes(m: OperationDataMsg, n: nat)
    requires n in {7, 8, 9, 14}
    ensures EncodeFields(DataFieldAt(m, n)) == DataBytesAt(m, n)
  {
    if n == 7 {
      FloatFieldBytes(7, m.angle);
    } else if n == 8 {
      FloatFieldBytes(8, m.a);
    } else if n == 9 {
      FloatFieldBytes(9, m.b);
    } else {
      FloatFieldBytes(14, m.alpha);
    }
  }

  lemma DataOneBytes(m: OperationDataMsg, n: nat)
    requires 1 <= n <= 15
    ensures EncodeFields(DataFieldAt(m, n)) == DataBytesAt(m, n)
  {
    if n in DATA_SUBS {
      DataPointBytes(m, n);
    } else if n in {1, 2, 3, 13, 15} {
      DataVarintBytes(m, n);
    } else {
      DataFloatBytes(m, n);
    }
  }

  lemma DataNextBytes(m: OperationDataMsg, n: nat, front: Bytes)
    requires 1 <= n <= 15 && EncodeFields(DataFieldsTo(m, n - 1)) == front
    ensures EncodeFields(DataFieldsTo(m, n)) == front + DataBytesAt(m, n)
  {
    DataOneBytes(m, n);
    EncodeFieldsConcat(DataFieldsTo(m, n - 1), DataFieldAt(m, n));
  }

  lemma {:induction false} DataMemberBytes(m: OperationDataMsg, n: nat)
    requires n <= 15
    ensures EncodeFields(DataFieldsTo(m, n)) == DataBytesTo(m, n)
  {
    if n > 0 {
      DataMemberBytes(m, n - 1);
      DataNextBytes(m, n, DataBytesTo(m, n - 1));
    }
  }

  lemma DataWireBytes(m: OperationDataMsg)
    ensures SerializeData(m) == DataBytesTo(m, 15) + EncodeFields(m.unknown)
  {
    DataMemberBytes(m, 15);
    EncodeFieldsConcat(DataFieldsTo(m, LAST_DATA_FIELD), m.unknown);
  }

  lemma OperationWireBytes(m: OperationMsg)
    ensures SerializeOperation(m)
         == UInt32Bytes(0x08, m.serialNumber)
          + DelimitedBytes(0x12, if m.data.None? then None else Some(SerializeData(m.data.value)))
          + EncodeFields(m.unknown)
  {
    EncodeFieldsConcat(UInt32Field(1, m.serialNumber) + DataField(m.data), m.unknown);
    EncodeFieldsConcat(UInt32Field(1, m.serialNumber), DataField(m.data));
    UInt32FieldBytes(1, m.serialNumber);
    if m.data.Some? {
      DelimitedFieldBytes(2, SerializeData(m.data.value));
    }
  }

  /** The elements, one after the other. */
  function ElementBytes(ops: seq<OperationMsg>): Bytes
  {
    if ops == [] then []
    else ElementBytes(ops[..|ops| - 1]) + DelimitedBytes(0x12, Some(SerializeOperation(ops[|ops| - 1])))
  }

  lemma {:induction false} ElementsBytes(ops: seq<OperationMsg>)
    ensures EncodeFields(OperationFields(ops)) == ElementBytes(ops)
  {
    if ops != [] {
      var front, last := ops[..|ops| - 1], ops[|ops| - 1];
      ElementsBytes(front);
      DelimitedFieldBytes(2, SerializeOperation(last));
      EncodeFieldsConcat(OperationFields(front), [LengthDelimited(2, SerializeOperation(last))]);
    }
  }

  lemma OperationsWireBytes(m: OperationsMsg)
    ensures SerializeOperations(m)
         == Int32Bytes(0x08, m.avaliable) + ElementBytes(m.operations) + EncodeFields(m.unknown)
  {
    EncodeFieldsConcat(Int32Field(1, m.avaliable) + OperationFields(m.operations), m.unknown);
    EncodeFieldsConcat(Int32Field(1, m.avaliable), OperationFields(m.operations));
    Int32FieldBytes(1, m.avaliable);
    ElementsBytes(m.operations);
  }

  lemma DocumentWireBytes(m: DocumentMsg)
    ensures SerializeDocument(m)
         == UInt32Bytes(0x08, m.serialNumber) + DelimitedBytes(0x12, m.data) + DelimitedBytes(0x1A, m.userName)
          + EncodeFields(m.unknown)
  {
    var number, data, name := UInt32Field(1, m.serialNumber), BytesField(2, m.data), BytesField(3, m.userName);
    EncodeFieldsConcat(DocumentFields(m), m.unknown);
    EncodeFieldsConcat(number + data, name);
    EncodeFieldsConcat(number, data);
    UInt32FieldBytes(1, m.serialNumber);
    if m.data.Some? {
      DelimitedFieldBytes(2, m.data.value);
    }
    if m.userName.Some? {
      DelimitedFieldBytes(3, m.userName.value);
    }
  }

  // ------------------------------------------------------------------ the flags

  /** Serialized fields without a varint field `n` do not start with its tag. */
  lemma TagAbsent(fs: seq<UnknownField>, n: FieldNumber)
    requires 0 < n < 16 && forall f | f in fs :: !(f.VarintField? && f.number == n)
    ensures EncodeFields(fs) == [] || EncodeFields(fs)[0] != 8 * n
  {
    if fs != [] {
      var f, s := fs[0], EncodeFields(fs);
      var rest := EncodePayload(f) + EncodeFields(fs[1..]);
      assert s == EncodeField(f) + EncodeFields(fs[1..]);
      assert EncodeField(f) == EncodeVarint(FieldTag(f)) + EncodePayload(f);
      JoinInAnyOrder(EncodeVarint(FieldTag(f)), EncodePayload(f), EncodeFields(fs[1..]));
      if s[0] == 8 * n {
        assert s == EncodeVarint(8 * n) + s[1..];
        Varint32RoundTrip(FieldTag(f), rest);
        Varint32RoundTrip(8 * n, s[1..]);
        assert false;
      }
    }
  }

  /** What is written after the members up to `n`. */
  function DataFieldsFrom(m: OperationDataMsg, n: nat): seq<UnknownField>
    requires n <= 15
    decreases 15 - n
  {
    if n == 15 then m.unknown else DataFieldAt(m, n + 1) + DataFieldsFrom(m, n + 1)
  }

  lemma DataFromNext(m: OperationDataMsg, n: nat)
    requires n < 15
    ensures EncodeFields(DataFieldsFrom(m, n)) == DataBytesAt(m, n + 1) + EncodeFields(DataFieldsFrom(m, n + 1))
  {
    EncodeFieldsConcat(DataFieldAt(m, n + 1), DataFieldsFrom(m, n + 1));
    DataOneBytes(m, n + 1);
  }

  lemma DataToNext(m: OperationDataMsg, n: nat, rest: Bytes)
    requires n > 0
    ensures DataBytesTo(m, n) + rest == DataBytesTo(m, n - 1) + (DataBytesAt(m, n) + rest)
  {
    JoinInAnyOrder(DataBytesTo(m, n - 1), DataBytesAt(m, n), rest);
  }

  lemma {:induction false} DataSplits(m: OperationDataMsg, n: nat)
    requires n <= 15
    ensures SerializeData(m) == DataBytesTo(m, n) + EncodeFields(DataFieldsFrom(m, n))
    decreases 15 - n
  {
    if n == 15 {
      DataWireBytes(m);
    } else {
      DataSplits(m, n + 1);
      DataFromNext(m, n);
      DataToNext(m, n + 1, EncodeFields(DataFieldsFrom(m, n + 1)));
    }
  }

  /** `fill` and `is_start` on the wire: after the members before it the flag is its
      tag and the byte 1 exactly if it is true, and its tag and the byte 0 exactly if
      it is false. */
  lemma FlagBytes(depth: nat, m: OperationDataMsg, n: nat) returns (rest: Bytes)
    requires DataCanonical(depth, m) && n in {13, 15}
    ensures SerializeData(m) == DataBytesTo(m, n - 1) + rest
    ensures var flag, tag := if n == 13 then m.fill else m.isStart, if n == 13 then 0x68 else 0x78;
            ([tag, 1] <= rest <==> flag == Some(true)) && ([tag, 0] <= rest <==> flag == Some(false))
  {
    DataSplits(m, n - 1);
    rest := EncodeFields(DataFieldsFrom(m, n - 1));
    LaterFields(depth, m, n);
    TagAbsent(DataFieldsFrom(m, n), n);
    FlagComesNext(m, n);
    BoolStarts(8 * n, if n == 13 then m.fill else m.isStart, EncodeFields(DataFieldsFrom(m, n)));
  }

  lemma FlagComesNext(m: OperationDataMsg, n: nat)
    requires n in {13, 15}
    ensures EncodeFields(DataFieldsFrom(m, n - 1))
         == BoolBytes(8 * n, if n == 13 then m.fill else m.isStart) + EncodeFields(DataFieldsFrom(m, n))
  {
    DataFromNext(m, n - 1);
  }

  lemma BoolStarts(tag: byte, v: Option<bool>, rest: Bytes)
    requires rest == [] || rest[0] != tag
    ensures [tag, 1] <= BoolBytes(tag, v) + rest <==> v == Some(true)
    ensures [tag, 0] <= BoolBytes(tag, v) + rest <==> v == Some(false)
  {
    var s := BoolBytes(tag, v) + rest;
    assert |s| >= 2 ==> s[..2] == [s[0], s[1]];
  }

  lemma LaterFields(depth: nat, m: OperationDataMsg, n: nat)
    requires DataCanonical(depth, m) && n in {13, 15}
    ensures forall f | f in DataFieldsFrom(m, n) :: !(f.VarintField? && f.number == n)
  {
    assert forall f | f in m.unknown :: DataKeeps(depth, f);
    if n == 13 {
      assert DataFieldsFrom(m, 13) == DataFieldAt(m, 14) + DataFieldsFrom(m, 14);
      assert DataFieldsFrom(m, 14) == DataFieldAt(m, 15) + m.unknown;
    }
  }
}
