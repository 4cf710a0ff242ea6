/** What `OperationData` needs to size and to write itself besides its points:
    the scalars, in the order and the groups in which `ByteSize` and the array
    serializer visit them. */
module OperationDataWriting {
  import opened Prelude
  import opened WireFormat
  import opened HasBits
  import opened CodedTarget
  import opened PointCodec
  import opened OperationDataCodec
  import opened OperationDataMembers

  ghost function LowFieldsSize(m: OperationDataMsg): nat
  {
    DataFieldSize(m, 1) + DataFieldSize(m, 2) + DataFieldSize(m, 3) + DataFieldSize(m, 4)
    + DataFieldSize(m, 5) + DataFieldSize(m, 6) + DataFieldSize(m, 7) + DataFieldSize(m, 8)
  }

  ghost function HighFieldsSize(m: OperationDataMsg): nat
  {
    DataFieldSize(m, 9) + DataFieldSize(m, 10) + DataFieldSize(m, 11) + DataFieldSize(m, 12)
    + DataFieldSize(m, 13) + DataFieldSize(m, 14) + DataFieldSize(m, 15)
  }

  lemma BlockSizes(m: OperationDataMsg)
    ensures |SerializeData(m)| == LowFieldsSize(m) + HighFieldsSize(m) + |EncodeFields(m.unknown)|
    ensures |EncodeFields(m.unknown)| <= |SerializeData(m)|
  {
    DataSizes(m);
  }

  // The sizes of the scalars that a block has before and after its points.

  method LowScalarSizes(f: Members) returns (before: nat, after: nat)
    ensures before == LowBefore(f) && after == LowAfter(f)
  {
    var n1 := Int32FieldSize(1, f.dataType.has, f.dataType.value);
    var n2 := Int32FieldSize(2, f.thinkness.has, f.thinkness.value);
    var n3 := Int32FieldSize(3, f.color.has, f.color.value);
    var n7 := FloatFieldSize(7, f.angle.has, f.angle.value);
    var n8 := FloatFieldSize(8, f.a.has, f.a.value);
    before, after := n1 + n2 + n3, n7 + n8;
  }

  method HighScalarSizes(f: Members) returns (before: nat, after: nat)
    ensures before == HighBefore(f) && after == HighAfter(f)
  {
    before := FloatFieldSize(9, f.b.has, f.b.value);
    var n15 := BoolFieldSize(15, f.isStart.has, f.isStart.value);
    var n13 := BoolFieldSize(13, f.fill.has, f.fill.value);
    var n14 := FloatFieldSize(14, f.alpha.has, f.alpha.value);
    after := n15 + n13 + n14;
  }

  ghost function LowBefore(f: Members): nat
  {
    |EncodeFields(Int32Field(1, f.dataType.Shown()))| + |EncodeFields(Int32Field(2, f.thinkness.Shown()))|
    + |EncodeFields(Int32Field(3, f.color.Shown()))|
  }

  ghost function LowAfter(f: Members): nat
  {
    |EncodeFields(FloatField(7, f.angle.Shown()))| + |EncodeFields(FloatField(8, f.a.Shown()))|
  }

  ghost function HighBefore(f: Members): nat
  {
    |EncodeFields(FloatField(9, f.b.Shown()))|
  }

  ghost function HighAfter(f: Members): nat
  {
    |EncodeFields(BoolField(13, f.fill.Shown()))| + |EncodeFields(FloatField(14, f.alpha.Shown()))|
    + |EncodeFields(BoolField(15, f.isStart.Shown()))|
  }

  /** The fields of each block; a block without has bits writes nothing. */
  lemma LowSizes(f: Members, shown: map<nat, PointMsg>, unknown: seq<UnknownField>)
    ensures LowFieldsSize(Show(f, shown, unknown))
         == LowBefore(f) + PointFieldSize(4, PointShown(shown, 4)) + PointFieldSize(5, PointShown(shown, 5))
          + PointFieldSize(6, PointShown(shown, 6)) + LowAfter(f)
    ensures !LowBlock(f, shown.Keys) ==> LowFieldsSize(Show(f, shown, unknown)) == 0
  {
  }

  lemma HighSizes(f: Members, shown: map<nat, PointMsg>, unknown: seq<UnknownField>)
    ensures HighFieldsSize(Show(f, shown, unknown))
         == HighBefore(f) + PointFieldSize(10, PointShown(shown, 10)) + PointFieldSize(11, PointShown(shown, 11))
          + PointFieldSize(12, PointShown(shown, 12)) + HighAfter(f)
    ensures !HighBlock(f, shown.Keys) ==> HighFieldsSize(Show(f, shown, unknown)) == 0
  {
  }

  lemma PointsFit(f: Members, shown: map<nat, PointMsg>, unknown: seq<UnknownField>)
    requires shown.Keys <= DATA_SUBS && |SerializeData(Show(f, shown, unknown))| < TWO_31
    ensures forall n | n in shown :: |SerializePoint(shown[n])| < TWO_31
  {
    forall n | n in shown
      ensures |SerializePoint(shown[n])| < TWO_31
    {
      ShowsPoint(f, shown, unknown, n);
      DataPointFits(Show(f, shown, unknown), n);
    }
  }

  /** `now` is `before` with the fields of `m` up to number `n` written at `start`,
      and the rest of `m` still fits. */
  ghost predicate Progress(m: OperationDataMsg, n: nat, now: Bytes, at: nat, before: Bytes, start: nat)
  {
    && Written(now, at, before, start, DataFieldsTo(m, n))
    && start + |SerializeData(m)| <= |before| < TWO_64
  }

  /** `if (has_...()) WriteInt32ToArray(...)` and its like. */
  method WriteVarint(ghost m: OperationDataMsg, n: nat, has: bool, value: uint64, target: array<byte>, at: nat,
                     ghost before: Bytes, ghost start: nat) returns (end: nat)
    requires 1 <= n <= LAST_DATA_FIELD && Progress(m, n - 1, target[..], at, before, start)
    requires DataFieldAt(m, n) == if has then [VarintField(n, value)] else []
    modifies target
    ensures Progress(m, n, target[..], end, before, start)
  {
    DataRoom(m, n);
    if has {
      VarintFieldSize(n, value);
    }
    end := WriteVarintIfSet(n, has, value, target, at, before, start, DataFieldsTo(m, n - 1));
  }

  /** `if (has_...()) WriteBoolToArray(...)`. */
  method WriteBool(ghost m: OperationDataMsg, n: nat, has: bool, value: bool, target: array<byte>, at: nat,
                   ghost before: Bytes, ghost start: nat) returns (end: nat)
    requires 1 <= n <= LAST_DATA_FIELD && Progress(m, n - 1, target[..], at, before, start)
    requires DataFieldAt(m, n) == BoolField(n, Opt(has, value))
    modifies target
    ensures Progress(m, n, target[..], end, before, start)
  {
    end := WriteVarint(m, n, has, if value then 1 else 0, target, at, before, start);
  }

  /** `if (has_...()) WriteFloatToArray(...)`. */
  method WriteFloat(ghost m: OperationDataMsg, n: nat, has: bool, value: uint32, target: array<byte>, at: nat,
                    ghost before: Bytes, ghost start: nat) returns (end: nat)
    requires 1 <= n <= LAST_DATA_FIELD && Progress(m, n - 1, target[..], at, before, start)
    requires DataFieldAt(m, n) == FloatField(n, Opt(has, value))
    modifies target
    ensures Progress(m, n, target[..], end, before, start)
  {
    DataRoom(m, n);
    if has {
      Fixed32FieldSize(n, value);
    }
    end := WriteFloatIfSet(n, has, value, target, at, before, start, DataFieldsTo(m, n - 1));
  }

  /** The scalars are those of `f`. */
  ghost predicate HasScalars(m: OperationDataMsg, f: Members)
  {
    && m.dataType == f.dataType.Shown() && m.thinkness == f.thinkness.Shown() && m.color == f.color.Shown()
    && m.angle == f.angle.Shown() && m.a == f.a.Shown() && m.b == f.b.Shown()
    && m.fill == f.fill.Shown() && m.alpha == f.alpha.Shown() && m.isStart == f.isStart.Shown()
  }

  lemma FillFields(m: OperationDataMsg, f: Members)
    requires HasScalars(m, f)
    ensures DataFieldAt(m, 13) == BoolField(13, Opt(f.fill.has, f.fill.value))
    ensures DataFieldAt(m, 14) == FloatField(14, Opt(f.alpha.has, f.alpha.value))
    ensures DataFieldAt(m, 15) == BoolField(15, Opt(f.isStart.has, f.isStart.value))
  {
  }

  // The scalars that the serializer writes before, between and after the points.

  method WriteOutline(ghost m: OperationDataMsg, f: Members, target: array<byte>, at: nat,
                      ghost before: Bytes, ghost start: nat) returns (end: nat)
    requires HasScalars(m, f) && Progress(m, 0, target[..], at, before, start)
    modifies target
    ensures Progress(m, 3, target[..], end, before, start)
  {
    end := WriteVarint(m, 1, f.dataType.has, SignExtend(f.dataType.value), target, at, before, start);
    end := WriteVarint(m, 2, f.thinkness.has, SignExtend(f.thinkness.value), target, end, before, start);
    end := WriteVarint(m, 3, f.color.has, SignExtend(f.color.value), target, end, before, start);
  }

  method WriteEllipse(ghost m: OperationDataMsg, f: Members, target: array<byte>, at: nat,
                      ghost before: Bytes, ghost start: nat) returns (end: nat)
    requires HasScalars(m, f) && Progress(m, 6, target[..], at, before, start)
    modifies target
    ensures Progress(m, 9, target[..], end, before, start)
  {
    end := WriteFloat(m, 7, f.angle.has, f.angle.value, target, at, before, start);
    end := WriteFloat(m, 8, f.a.has, f.a.value, target, end, before, start);
    end := WriteFloat(m, 9, f.b.has, f.b.value, target, end, before, start);
  }

  method WriteFill(ghost m: OperationDataMsg, f: Members, target: array<byte>, at: nat,
                   ghost before: Bytes, ghost start: nat) returns (end: nat)
    requires HasScalars(m, f) && Progress(m, 12, target[..], at, before, start)
    modifies target
    ensures Progress(m, 15, target[..], end, before, start)
  {
    FillFields(m, f);
    end := WriteBool(m, 13, f.fill.has, f.fill.value, target, at, before, start);
    end := WriteFloat(m, 14, f.alpha.has, f.alpha.value, target, end, before, start);
    end := WriteBool(m, 15, f.isStart.has, f.isStart.value, target, end, before, start);
  }
}
