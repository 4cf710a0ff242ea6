/** Values of `Operation.OperationData` and their wire form. */
module OperationDataCodec {
  import opened Prelude
  import opened WireFormat
  import opened MessageEngine
  import opened TotalLimit
  import opened PointCodec
  import Varint

  /** LINE, ELLIPSE, RECTANGE, POINT, ERASER. */
  type DataType = n: int32 | 0 <= n <= 4

  function DataTypeIsValid(v: int32): bool
  {
    0 <= v <= 4
  }

  /** Floats are their 32-bit patterns. */
  datatype OperationDataMsg = OperationDataMsg(
    dataType: Option<DataType>,
    thinkness: Option<int32>,
    color: Option<int32>,
    startPoint: Option<PointMsg>,
    endPoint: Option<PointMsg>,
    center: Option<PointMsg>,
    angle: Option<uint32>,
    a: Option<uint32>,
    b: Option<uint32>,
    topLeftCorner: Option<PointMsg>,
    bottomRightCorner: Option<PointMsg>,
    position: Option<PointMsg>,
    fill: Option<bool>,
    alpha: Option<uint32>,
    isStart: Option<bool>,
    unknown: seq<UnknownField>)

  const EMPTY_DATA := OperationDataMsg(None, None, None, None, None, None, None, None, None,
                                       None, None, None, None, None, None, [])

  const DATA_SUBS: set<nat> := {4, 5, 6, 10, 11, 12}

  // ---------------------------------------------------------------- parsing

  /** `ReadMessageNoVirtual(input, mutable_...())`: the nested parse continues
      from the point already there. */
  function PointInto(depth: nat, prior: Option<PointMsg>, data: Bytes): Option<PointMsg>
  {
    if depth == 0 then None else ParsePoint(depth - 1, prior.GetOr(EMPTY_POINT), data)
  }

  function DataAddUnknown(m: OperationDataMsg, f: UnknownField): OperationDataMsg
  {
    m.(unknown := m.unknown + [f])
  }

  /** An enum value outside the enum is kept as an unknown varint, sign-extended. */
  function DataTypeStep(m: OperationDataMsg, v: int32): OperationDataMsg
  {
    if DataTypeIsValid(v) then m.(dataType := Some(v)) else DataAddUnknown(m, VarintField(1, SignExtend(v)))
  }

  function DataPointStep(depth: nat, m: OperationDataMsg, n: nat, data: Bytes): Option<OperationDataMsg>
    requires n in DATA_SUBS
  {
    match PointInto(depth, DataPoint(m, n), data)
    case None => None
    case Some(p) => Some(SetDataPoint(m, n, Some(p)))
  }

  function DataPoint(m: OperationDataMsg, n: nat): Option<PointMsg>
    requires n in DATA_SUBS
  {
    match n
    case 4 => m.startPoint
    case 5 => m.endPoint
    case 6 => m.center
    case 10 => m.topLeftCorner
    case 11 => m.bottomRightCorner
    case 12 => m.position
  }

  function SetDataPoint(m: OperationDataMsg, n: nat, p: Option<PointMsg>): OperationDataMsg
    requires n in DATA_SUBS
  {
    match n
    case 4 => m.(startPoint := p)
    case 5 => m.(endPoint := p)
    case 6 => m.(center := p)
    case 10 => m.(topLeftCorner := p)
    case 11 => m.(bottomRightCorner := p)
    case 12 => m.(position := p)
  }

  /** `mutable_start_point()->set_x(value)` and its like. */
  function WithPointX(m: OperationDataMsg, n: nat, value: int32): OperationDataMsg
    requires n in DATA_SUBS
  {
    SetDataPoint(m, n, Some(DataPoint(m, n).GetOr(EMPTY_POINT).(x := Some(value))))
  }

  function NoPoints(m: OperationDataMsg): OperationDataMsg
  {
    m.(startPoint := None, endPoint := None, center := None,
       topLeftCorner := None, bottomRightCorner := None, position := None)
  }

  /** The cases of `OperationData::MergePartialFromCodedStream`. */
  function DataStepAt(depth: nat, m: OperationDataMsg, f: UnknownField): Option<OperationDataMsg>
  {
    match f
    case VarintField(1, v) => Some(DataTypeStep(m, ToInt32(v % TWO_32)))
    case VarintField(2, v) => Some(m.(thinkness := Some(ToInt32(v % TWO_32))))
    case VarintField(3, v) => Some(m.(color := Some(ToInt32(v % TWO_32))))
    case Fixed32Field(7, v) => Some(m.(angle := Some(v)))
    case Fixed32Field(8, v) => Some(m.(a := Some(v)))
    case Fixed32Field(9, v) => Some(m.(b := Some(v)))
    case VarintField(13, v) => Some(m.(fill := Some(v % TWO_32 != 0)))
    case Fixed32Field(14, v) => Some(m.(alpha := Some(v)))
    case VarintField(15, v) => Some(m.(isStart := Some(v % TWO_32 != 0)))
    case LengthDelimited(n, data) =>
      if n in DATA_SUBS then DataPointStep(depth, m, n, data) else Some(DataAddUnknown(m, f))
    case _ => Some(DataAddUnknown(m, f))
  }

  function DataStep(depth: nat): (OperationDataMsg, UnknownField) -> Option<OperationDataMsg>
  {
    (m, f) => DataStepAt(depth, m, f)
  }

  function ParseData(depth: nat, m: OperationDataMsg, s: Bytes): Option<OperationDataMsg>
  {
    Run(DataStep(depth), DATA_SUBS, depth, m, s)
  }

  /** The case of `is_start` ends in `ExpectAtEnd`. */
  function DataCloses(f: UnknownField, short: bool): bool
  {
    f.VarintField? && f.number == 15
  }

  /** The parse up to an end of the given kind. */
  function ParseDataTo(depth: nat, m: OperationDataMsg, s: Bytes, end: End): Outcome<OperationDataMsg>
  {
    RunTo(DataStep(depth), DataCloses, DATA_SUBS, depth, m, s, end)
  }

  /** `ParseFromArray` but for the required fields. */
  function DataFromArray(depth: nat, s: Bytes): Outcome<OperationDataMsg>
  {
    ParseDataTo(depth, EMPTY_DATA, s, EndOf(s))
  }

  function DataOnward(depth: nat, m: OperationDataMsg, rest: Bytes, end: End, closed: bool): Outcome<OperationDataMsg>
  {
    Onward(DataStep(depth), DataCloses, DATA_SUBS, depth, m, rest, end, closed)
  }

  /** `ReadMessageNoVirtual` into the data: the new data and what follows it. */
  function ReadDataTo(depth: nat, m: OperationDataMsg, sub: Option<Submessage>): Outcome<(OperationDataMsg, Bytes)>
  {
    if depth == 0 then Rejected else ReadTo(DataStep(depth - 1), DataCloses, DATA_SUBS, depth, m, sub)
  }

  lemma ReadDataInside(depth: nat, m: OperationDataMsg, sub: Submessage)
    ensures ReadDataTo(depth + 1, m, Some(sub)) == Followed(ParseDataTo(depth, m, sub.data, sub.end), sub.rest)
  {
  }

  // What a turn of the loop does for each way a field can be read.

  lemma DataVarintTurn(depth: nat, m: OperationDataMsg, s: Bytes, end: End, n: FieldNumber, body: Bytes,
                       m': OperationDataMsg)
    requires Varint.ReadVarint32(s) == Got(MakeTag(n, WIRETYPE_VARINT), body) && n > 0
    ensures Varint.ReadVarint64(body).Fail? ==> ParseDataTo(depth, m, s, end) == Rejected
    ensures Varint.ReadVarint64(body).Got?
            && DataStepAt(depth, m, VarintField(n, Varint.ReadVarint64(body).value)) == Some(m')
        ==> ParseDataTo(depth, m, s, end) == DataOnward(depth, m', Varint.ReadVarint64(body).rest, end, n == 15)
  {
    VarintNext(DATA_SUBS, depth, s, n, body);
    FieldTurn(DataStep(depth), DataCloses, DATA_SUBS, depth, m, s, end, m');
  }

  lemma DataFixed32Turn(depth: nat, m: OperationDataMsg, s: Bytes, end: End, n: FieldNumber, body: Bytes,
                        m': OperationDataMsg)
    requires Varint.ReadVarint32(s) == Got(MakeTag(n, WIRETYPE_FIXED32), body)
    ensures Varint.ReadFixed32(body).Fail? ==> ParseDataTo(depth, m, s, end) == Rejected
    ensures Varint.ReadFixed32(body).Got? && DataStepAt(depth, m, Fixed32Field(n, Varint.ReadFixed32(body).value)) == Some(m')
        ==> ParseDataTo(depth, m, s, end) == DataOnward(depth, m', Varint.ReadFixed32(body).rest, end, false)
  {
    Fixed32Next(DATA_SUBS, depth, s, n, body);
    FieldTurn(DataStep(depth), DataCloses, DATA_SUBS, depth, m, s, end, m');
  }

  lemma DataPointTurn(depth: nat, m: OperationDataMsg, s: Bytes, end: End, n: FieldNumber, body: Bytes)
    requires Varint.ReadVarint32(s) == Got(MakeTag(n, WIRETYPE_LENGTH_DELIMITED), body) && n in DATA_SUBS
    ensures var read := ReadPointTo(depth, DataPoint(m, n).GetOr(EMPTY_POINT), Enter(depth, body, end));
      ParseDataTo(depth, m, s, end)
      == if Breaks(depth, body, end) then Undefined
         else if read.Accepted?
         then DataOnward(depth, SetDataPoint(m, n, Some(read.message.0)), read.message.1, SettledEnd(end), false)
         else Rejected
  {
    var p := DataPoint(m, n).GetOr(EMPTY_POINT);
    var put := q => SetDataPoint(m, n, Some(q));
    forall data
      ensures StepNests(DataStep(depth), PointStep, {}, put, depth, m, p, n, data)
    {
      assert DataStep(depth)(m, LengthDelimited(n, data)) == DataPointStep(depth, m, n, data);
    }
    assert forall data, short :: ClosesNests(DataCloses, PointCloses, {}, false, depth, n, data, short);
    NestedTurn(DataStep(depth), DataCloses, DATA_SUBS, PointStep, PointCloses, {}, put, false,
               depth, m, p, s, end, n, body);
  }

  lemma DataSkipTurn(depth: nat, m: OperationDataMsg, s: Bytes, end: End, tag: uint32, body: Bytes)
    requires Varint.ReadVarint32(s) == Got(tag, body) && tag != 0 && TagWireType(tag) != WIRETYPE_END_GROUP
    requires !DataInterprets(tag)
    ensures match SkipField(depth, tag, body)
            case Fail => ParseDataTo(depth, m, s, end) == Rejected
            case Got(f, rest) =>
              ParseDataTo(depth, m, s, end) == DataOnward(depth, DataAddUnknown(m, f), rest, end, false)
  {
    SkippedNext(DATA_SUBS, depth, s, tag, body);
    var skipped := SkipField(depth, tag, body);
    if skipped.Got? {
      SkipFieldKind(depth, tag, body);
    }
    FieldTurn(DataStep(depth), DataCloses, DATA_SUBS, depth, m, s, end,
              if skipped.Got? then DataAddUnknown(m, skipped.value) else m);
  }

  /** The tags that have a case of their own. */
  predicate DataInterprets(tag: uint32)
  {
    var n, w := TagNumber(tag), TagWireType(tag);
    || (w == WIRETYPE_VARINT && n in {1, 2, 3, 13, 15})
    || (w == WIRETYPE_FIXED32 && n in {7, 8, 9, 14})
    || (w == WIRETYPE_LENGTH_DELIMITED && n in DATA_SUBS)
  }

  // ---------------------------------------------------------------- merging

  function MergeData(a: OperationDataMsg, b: OperationDataMsg): OperationDataMsg
  {
    OperationDataMsg(
      Later(a.dataType, b.dataType),
      Later(a.thinkness, b.thinkness),
      Later(a.color, b.color),
      MergePoints(a.startPoint, b.startPoint),
      MergePoints(a.endPoint, b.endPoint),
      MergePoints(a.center, b.center),
      Later(a.angle, b.angle),
      Later(a.a, b.a),
      Later(a.b, b.b),
      MergePoints(a.topLeftCorner, b.topLeftCorner),
      MergePoints(a.bottomRightCorner, b.bottomRightCorner),
      MergePoints(a.position, b.position),
      Later(a.fill, b.fill),
      Later(a.alpha, b.alpha),
      Later(a.isStart, b.isStart),
      a.unknown + b.unknown)
  }

  lemma DataMergeUnit(m: OperationDataMsg)
    ensures MergeData(m, EMPTY_DATA) == m && MergeData(EMPTY_DATA, m) == m
  {
    forall n | n in DATA_SUBS
      ensures MergePoints(DataPoint(m, n), None) == DataPoint(m, n) == MergePoints(None, DataPoint(m, n))
    {
      MergePointsUnit(DataPoint(m, n));
    }
    assert MergePoints(DataPoint(m, 4), None) == m.startPoint && MergePoints(DataPoint(m, 5), None) == m.endPoint;
    assert MergePoints(DataPoint(m, 6), None) == m.center && MergePoints(DataPoint(m, 10), None) == m.topLeftCorner;
    assert MergePoints(DataPoint(m, 11), None) == m.bottomRightCorner && MergePoints(DataPoint(m, 12), None) == m.position;
  }

  lemma DataMergeAssociative(a: OperationDataMsg, b: OperationDataMsg, c: OperationDataMsg)
    ensures MergeData(MergeData(a, b), c) == MergeData(a, MergeData(b, c))
  {
    MergePointsAssociative(a.startPoint, b.startPoint, c.startPoint);
    MergePointsAssociative(a.endPoint, b.endPoint, c.endPoint);
    MergePointsAssociative(a.center, b.center, c.center);
    MergePointsAssociative(a.topLeftCorner, b.topLeftCorner, c.topLeftCorner);
    MergePointsAssociative(a.bottomRightCorner, b.bottomRightCorner, c.bottomRightCorner);
    MergePointsAssociative(a.position, b.position, c.position);
    assert a.unknown + b.unknown + c.unknown == a.unknown + (b.unknown + c.unknown);
  }

  lemma PointIntoMerges(depth: nat, a: Option<PointMsg>, b: Option<PointMsg>, data: Bytes)
    ensures PointInto(depth, MergePoints(a, b), data)
         == match PointInto(depth, b, data) case None => None case Some(p) => MergePoints(a, Some(p))
  {
    if depth > 0 {
      var a', b' := a.GetOr(EMPTY_POINT), b.GetOr(EMPTY_POINT);
      PointParseMerges(depth - 1, a', b', data);
      PointMergeUnit(a');
    }
  }

  lemma DataAddUnknownMerges(a: OperationDataMsg, b: OperationDataMsg, f: UnknownField)
    ensures DataAddUnknown(MergeData(a, b), f) == MergeData(a, DataAddUnknown(b, f))
  {
    assert a.unknown + (b.unknown + [f]) == a.unknown + b.unknown + [f];
  }

  lemma MergeDataPoint(a: OperationDataMsg, b: OperationDataMsg, n: nat)
    requires n in DATA_SUBS
    ensures DataPoint(MergeData(a, b), n) == MergePoints(DataPoint(a, n), DataPoint(b, n))
  {
  }

  lemma MergeSetDataPoint(a: OperationDataMsg, b: OperationDataMsg, n: nat, p: Option<PointMsg>)
    requires n in DATA_SUBS
    ensures SetDataPoint(MergeData(a, b), n, MergePoints(DataPoint(a, n), p)) == MergeData(a, SetDataPoint(b, n, p))
  {
    if n == 4 {} else if n == 5 {} else if n == 6 {} else if n == 10 {} else if n == 11 {} else {}
  }

  lemma DataPointStepMerges(depth: nat, a: OperationDataMsg, b: OperationDataMsg, n: nat, data: Bytes)
    requires n in DATA_SUBS
    ensures DataPointStep(depth, MergeData(a, b), n, data)
         == match DataPointStep(depth, b, n, data) case None => None case Some(b') => Some(MergeData(a, b'))
  {
    var p := PointInto(depth, DataPoint(b, n), data);
    MergeDataPoint(a, b, n);
    PointIntoMerges(depth, DataPoint(a, n), DataPoint(b, n), data);
    if p.Some? {
      MergeSetDataPoint(a, b, n, p);
    }
  }

  lemma DataStepMerges(depth: nat, a: OperationDataMsg, b: OperationDataMsg, f: UnknownField)
    ensures DataStepAt(depth, MergeData(a, b), f)
         == match DataStepAt(depth, b, f) case None => None case Some(b') => Some(MergeData(a, b'))
  {
    DataAddUnknownMerges(a, b, f);
    match f
    case LengthDelimited(n, data) =>
      if n in DATA_SUBS {
        DataPointStepMerges(depth, a, b, n, data);
      }
    case VarintField(n, v) =>
      if n == 1 {
        DataAddUnknownMerges(a, b, VarintField(1, SignExtend(ToInt32(v % TWO_32))));
      } else if n == 2 {} else if n == 3 {} else if n == 13 {} else if n == 15 {} else {}
    case Fixed32Field(n, v) =>
      if n == 7 {} else if n == 8 {} else if n == 9 {} else if n == 14 {} else {}
    case _ =>
  }

  lemma DataParseMerges(depth: nat, a: OperationDataMsg, b: OperationDataMsg, s: Bytes)
    ensures ParseData(depth, MergeData(a, b), s)
         == match ParseData(depth, b, s) case None => None case Some(b') => Some(MergeData(a, b'))
  {
    forall a, b, f
      ensures DataStep(depth)(MergeData(a, b), f)
           == match DataStep(depth)(b, f) case None => None case Some(b') => Some(MergeData(a, b'))
    {
      DataStepMerges(depth, a, b, f);
    }
    RunMerge(DataStep(depth), MergeData, DATA_SUBS, depth, a, b, s);
  }

  // ------------------------------------------------------------ serializing

  function PointFieldAt(n: FieldNumber, p: Option<PointMsg>): seq<UnknownField>
  {
    if p.None? then [] else [LengthDelimited(n, SerializePoint(p.value))]
  }

  function PointFieldSize(n: FieldNumber, p: Option<PointMsg>): nat
  {
    |EncodeFields(PointFieldAt(n, p))|
  }

  const LAST_DATA_FIELD: nat := 15

  /** What the serializers write for field number `n`. */
  function DataFieldAt(m: OperationDataMsg, n: nat): seq<UnknownField>
  {
    match n
    case 1 => Int32Field(1, m.dataType)
    case 2 => Int32Field(2, m.thinkness)
    case 3 => Int32Field(3, m.color)
    case 4 => PointFieldAt(4, m.startPoint)
    case 5 => PointFieldAt(5, m.endPoint)
    case 6 => PointFieldAt(6, m.center)
    case 7 => FloatField(7, m.angle)
    case 8 => FloatField(8, m.a)
    case 9 => FloatField(9, m.b)
    case 10 => PointFieldAt(10, m.topLeftCorner)
    case 11 => PointFieldAt(11, m.bottomRightCorner)
    case 12 => PointFieldAt(12, m.position)
    case 13 => BoolField(13, m.fill)
    case 14 => FloatField(14, m.alpha)
    case 15 => BoolField(15, m.isStart)
    case _ => []
  }

  /** The known fields numbered up to `n`, in order. */
  function DataFieldsTo(m: OperationDataMsg, n: nat): seq<UnknownField>
  {
    if n == 0 then [] else DataFieldsTo(m, n - 1) + DataFieldAt(m, n)
  }

  function SerializeData(m: OperationDataMsg): Bytes
  {
    EncodeFields(DataFieldsTo(m, LAST_DATA_FIELD) + m.unknown)
  }

  function DataFieldSize(m: OperationDataMsg, n: nat): nat
  {
    |EncodeFields(DataFieldAt(m, n))|
  }

  /** The sizes of the fields add up in any order. */
  lemma DataSizes(m: OperationDataMsg)
    ensures |SerializeData(m)|
         == DataFieldSize(m, 1) + DataFieldSize(m, 2) + DataFieldSize(m, 3) + DataFieldSize(m, 4) + DataFieldSize(m, 5)
          + DataFieldSize(m, 6) + DataFieldSize(m, 7) + DataFieldSize(m, 8) + DataFieldSize(m, 9) + DataFieldSize(m, 10)
          + DataFieldSize(m, 11) + DataFieldSize(m, 12) + DataFieldSize(m, 13) + DataFieldSize(m, 14)
          + DataFieldSize(m, 15) + |EncodeFields(m.unknown)|
  {
    EncodeFieldsConcat(DataFieldsTo(m, LAST_DATA_FIELD), m.unknown);
    DataSizesTo(m, LAST_DATA_FIELD);
    DataSizeToFive(m, 5);
    DataSizeToFive(m, 10);
    DataSizeToFive(m, 15);
    assert DataSizeTo(m, 0) == 0;
  }

  lemma DataSizeToFive(m: OperationDataMsg, n: nat)
    requires n >= 5
    ensures DataSizeTo(m, n) == DataSizeTo(m, n - 5) + DataFieldSize(m, n - 4) + DataFieldSize(m, n - 3)
                              + DataFieldSize(m, n - 2) + DataFieldSize(m, n - 1) + DataFieldSize(m, n)
  {
    assert DataSizeTo(m, n - 2) == DataSizeTo(m, n - 3) + DataFieldSize(m, n - 2);
    assert DataSizeTo(m, n - 3) == DataSizeTo(m, n - 4) + DataFieldSize(m, n - 3);
  }

  lemma DataSizeNext(m: OperationDataMsg, n: nat)
    requires n > 0
    ensures |EncodeFields(DataFieldsTo(m, n))| == |EncodeFields(DataFieldsTo(m, n - 1))| + DataFieldSize(m, n)
  {
    EncodeFieldsConcat(DataFieldsTo(m, n - 1), DataFieldAt(m, n));
  }

  lemma {:induction false} DataSizesTo(m: OperationDataMsg, n: nat)
    ensures |EncodeFields(DataFieldsTo(m, n))| == DataSizeTo(m, n)
  {
    if n > 0 {
      DataSizesTo(m, n - 1);
      DataSizeNext(m, n);
    }
  }

  function DataSizeTo(m: OperationDataMsg, n: nat): nat
  {
    if n == 0 then 0 else DataSizeTo(m, n - 1) + DataFieldSize(m, n)
  }

  lemma {:induction false} DataSizeGrows(m: OperationDataMsg, n: nat, last: nat)
    requires n <= last
    ensures DataSizeTo(m, n) <= DataSizeTo(m, last)
    decreases last
  {
    if n < last {
      DataSizeGrows(m, n, last - 1);
    }
  }

  /** The fields up to `n` are no longer than those up to a later one. */
  lemma DataPrefix(m: OperationDataMsg, n: nat, last: nat)
    requires n <= last
    ensures |EncodeFields(DataFieldsTo(m, n))| <= |EncodeFields(DataFieldsTo(m, last))|
  {
    DataSizesTo(m, n);
    DataSizesTo(m, last);
    DataSizeGrows(m, n, last);
  }

  /** There is room for field `n` after the fields before it. */
  lemma DataRoom(m: OperationDataMsg, n: nat)
    requires 1 <= n <= LAST_DATA_FIELD
    ensures |EncodeFields(DataFieldsTo(m, n - 1))| + DataFieldSize(m, n) <= |SerializeData(m)|
    ensures |EncodeFields(DataFieldsTo(m, LAST_DATA_FIELD))| + |EncodeFields(m.unknown)| == |SerializeData(m)|
  {
    DataSizeNext(m, n);
    DataPrefix(m, n, LAST_DATA_FIELD);
    EncodeFieldsConcat(DataFieldsTo(m, LAST_DATA_FIELD), m.unknown);
  }

  /** A point is no longer than the message that holds it. */
  lemma DataPointFits(m: OperationDataMsg, n: nat)
    requires n in DATA_SUBS && DataPoint(m, n).Some?
    ensures |SerializePoint(DataPoint(m, n).value)| <= |SerializeData(m)|
  {
    DataRoom(m, n);
    DataPointFieldAt(m, n);
    EncodeFieldsBound(DataFieldAt(m, n), LengthDelimited(n, SerializePoint(DataPoint(m, n).value)));
  }

  predicate DataInitialized(m: OperationDataMsg)
  {
    && m.dataType.Some? && m.thinkness.Some?
    && forall n | n in DATA_SUBS && DataPoint(m, n).Some? :: PointInitialized(DataPoint(m, n).value)
  }

  /** A field the parser files under the unknown ones, unchanged. */
  predicate DataKeeps(depth: nat, f: UnknownField)
  {
    && Wire(depth, f)
    && !IsSubmessage(DATA_SUBS, f)
    && match f
       case VarintField(1, v) => !DataTypeIsValid(ToInt32(v % TWO_32)) && v == SignExtend(ToInt32(v % TWO_32))
       case VarintField(n, _) => n !in {2, 3, 13, 15}
       case Fixed32Field(n, _) => n !in {7, 8, 9, 14}
       case _ => true
  }

  predicate DataPointCanonical(depth: nat, p: Option<PointMsg>)
  {
    p.Some? ==> depth > 0 && PointCanonical(depth - 1, p.value)
  }

  predicate DataCanonical(depth: nat, m: OperationDataMsg)
  {
    && (forall f | f in m.unknown :: DataKeeps(depth, f))
    && (forall n | n in DATA_SUBS :: DataPointCanonical(depth, DataPoint(m, n)))
  }

  lemma DataScalarStepShape(depth: nat, m: OperationDataMsg, f: UnknownField)
    requires !IsSubmessage(DATA_SUBS, f)
    ensures DataStepAt(depth, m, f).Some?
    ensures var r := DataStepAt(depth, m, f).value;
      && r.startPoint == m.startPoint && r.endPoint == m.endPoint && r.center == m.center
      && r.topLeftCorner == m.topLeftCorner && r.bottomRightCorner == m.bottomRightCorner && r.position == m.position
      && (r.unknown == m.unknown || exists g :: r.unknown == m.unknown + [g] && (Wire(depth, f) ==> DataKeeps(depth, g)))
  {
    var r := DataStepAt(depth, m, f).value;
    match f
    case VarintField(n, v) =>
      if n == 1 {
        SignExtendRoundTrip(ToInt32(v % TWO_32));
        var g := VarintField(1, SignExtend(ToInt32(v % TWO_32)));
        assert r.unknown == m.unknown || (r.unknown == m.unknown + [g] && DataKeeps(depth, g));
      } else if n == 2 {} else if n == 3 {} else if n == 13 {} else if n == 15 {} else {
        assert r.unknown == m.unknown + [f];
      }
    case Fixed32Field(n, v) =>
      if n == 7 {} else if n == 8 {} else if n == 9 {} else if n == 14 {} else {
        assert r.unknown == m.unknown + [f];
      }
    case _ => assert r.unknown == m.unknown + [f];
  }

  lemma DataScalarStepCanonical(depth: nat, m: OperationDataMsg, f: UnknownField)
    requires DataCanonical(depth, m) && Wire(depth, f) && !IsSubmessage(DATA_SUBS, f)
    ensures DataStepAt(depth, m, f).Some? && DataCanonical(depth, DataStepAt(depth, m, f).value)
  {
    DataScalarStepShape(depth, m, f);
    SamePointsCanonical(depth, m, DataStepAt(depth, m, f).value);
  }

  lemma SamePointsCanonical(depth: nat, m: OperationDataMsg, r: OperationDataMsg)
    requires DataCanonical(depth, m)
    requires forall f | f in r.unknown :: DataKeeps(depth, f)
    requires r.startPoint == m.startPoint && r.endPoint == m.endPoint && r.center == m.center
    requires r.topLeftCorner == m.topLeftCorner && r.bottomRightCorner == m.bottomRightCorner
    requires r.position == m.position
    ensures DataCanonical(depth, r)
  {
    assert forall n | n in DATA_SUBS :: DataPoint(r, n) == DataPoint(m, n);
  }

  lemma DataStepCanonical(depth: nat, m: OperationDataMsg, f: UnknownField)
    requires DataCanonical(depth, m) && Readable(DATA_SUBS, depth, f) && DataStepAt(depth, m, f).Some?
    ensures DataCanonical(depth, DataStepAt(depth, m, f).value)
  {
    if IsSubmessage(DATA_SUBS, f) {
      var n := f.number;
      PointParseCanonical(depth - 1, DataPoint(m, n).GetOr(EMPTY_POINT), f.data);
      SetThenGetDataPoint(m, n, PointInto(depth, DataPoint(m, n), f.data));
    } else {
      DataScalarStepCanonical(depth, m, f);
    }
  }

  lemma SetThenGetDataPoint(m: OperationDataMsg, n: nat, p: Option<PointMsg>)
    requires n in DATA_SUBS
    ensures NoPoints(SetDataPoint(m, n, p)) == NoPoints(m)
    ensures SetDataPoint(m, n, p).unknown == m.unknown
    ensures forall k | k in DATA_SUBS :: DataPoint(SetDataPoint(m, n, p), k) == if k == n then p else DataPoint(m, k)
  {
    if n == 4 {} else if n == 5 {} else if n == 6 {} else if n == 10 {} else if n == 11 {} else {}
  }

  lemma SetPointTwice(m: OperationDataMsg, n: nat, p: PointMsg, q: PointMsg)
    requires n in DATA_SUBS
    ensures SetDataPoint(SetDataPoint(m, n, Some(p)), n, Some(q)) == SetDataPoint(m, n, Some(q))
  {
    if n == 4 {} else if n == 5 {} else if n == 6 {} else if n == 10 {} else if n == 11 {} else {}
  }

  lemma DataParseCanonical(depth: nat, m: OperationDataMsg, s: Bytes)
    requires DataCanonical(depth, m) && ParseData(depth, m, s).Some?
    ensures DataCanonical(depth, ParseData(depth, m, s).value)
  {
    forall m, f | DataCanonical(depth, m) && Readable(DATA_SUBS, depth, f) && DataStep(depth)(m, f).Some?
      ensures DataCanonical(depth, DataStep(depth)(m, f).value)
    {
      DataStepCanonical(depth, m, f);
    }
    RunKeeps(DataStep(depth), m => DataCanonical(depth, m), DATA_SUBS, depth, m, s);
  }

  // ------------------------------------------------------------- round trip

  /** The part of `m` that has been read back once the fields numbered up to
      `n` have been. */
  function DataUpto(m: OperationDataMsg, n: nat): OperationDataMsg
  {
    OperationDataMsg(
      if n >= 1 then m.dataType else None,
      if n >= 2 then m.thinkness else None,
      if n >= 3 then m.color else None,
      if n >= 4 then m.startPoint else None,
      if n >= 5 then m.endPoint else None,
      if n >= 6 then m.center else None,
      if n >= 7 then m.angle else None,
      if n >= 8 then m.a else None,
      if n >= 9 then m.b else None,
      if n >= 10 then m.topLeftCorner else None,
      if n >= 11 then m.bottomRightCorner else None,
      if n >= 12 then m.position else None,
      if n >= 13 then m.fill else None,
      if n >= 14 then m.alpha else None,
      if n >= 15 then m.isStart else None,
      [])
  }

  lemma PointFieldReads(depth: nat, m: OperationDataMsg, n: nat)
    requires n in DATA_SUBS && DataPointCanonical(depth, DataPoint(m, n))
    requires DataPoint(m, n).Some? ==> |SerializePoint(DataPoint(m, n).value)| < TWO_31
    ensures Fold(DataStep(depth), DataUpto(m, n - 1), PointFieldAt(n, DataPoint(m, n))) == Some(DataUpto(m, n))
  {
    if DataPoint(m, n).Some? {
      PointRoundTrip(depth - 1, DataPoint(m, n).value);
    }
    if n == 4 {} else if n == 5 {} else if n == 6 {} else if n == 10 {} else if n == 11 {} else {}
  }

  lemma VarintFieldReads(depth: nat, m: OperationDataMsg, n: nat)
    requires n in {1, 2, 3, 13, 15}
    ensures Fold(DataStep(depth), DataUpto(m, n - 1), DataFieldAt(m, n)) == Some(DataUpto(m, n))
  {
    if n <= 3 {
      var v := if n == 1 then m.dataType else if n == 2 then m.thinkness else m.color;
      if v.Some? {
        SignExtendRoundTrip(v.value);
      }
      if n == 1 {} else if n == 2 {} else {}
    } else if n == 13 {} else {}
  }

  lemma FloatFieldReads(depth: nat, m: OperationDataMsg, n: nat)
    requires n in {7, 8, 9, 14}
    ensures Fold(DataStep(depth), DataUpto(m, n - 1), DataFieldAt(m, n)) == Some(DataUpto(m, n))
  {
    if n == 7 {} else if n == 8 {} else if n == 9 {} else {}
  }

  /** Every point is short enough to be read whole. */
  predicate PointsShort(m: OperationDataMsg)
  {
    forall n | n in DATA_SUBS && DataPoint(m, n).Some? :: |SerializePoint(DataPoint(m, n).value)| < TWO_31
  }

  lemma DataFieldReads(depth: nat, m: OperationDataMsg, n: nat)
    requires 1 <= n <= LAST_DATA_FIELD && DataCanonical(depth, m)
    requires PointsShort(m)
    ensures Fold(DataStep(depth), DataUpto(m, n - 1), DataFieldAt(m, n)) == Some(DataUpto(m, n))
  {
    if n in DATA_SUBS {
      PointFieldReads(depth, m, n);
      DataPointFieldAt(m, n);
    } else if n in {1, 2, 3, 13, 15} {
      VarintFieldReads(depth, m, n);
    } else {
      FloatFieldReads(depth, m, n);
    }
  }

  lemma DataPointFieldAt(m: OperationDataMsg, n: nat)
    requires n in DATA_SUBS
    ensures DataFieldAt(m, n) == PointFieldAt(n, DataPoint(m, n))
  {
  }

  lemma DataFieldsReadNext(depth: nat, m: OperationDataMsg, n: nat)
    requires n > 0 && Fold(DataStep(depth), EMPTY_DATA, DataFieldsTo(m, n - 1)) == Some(DataUpto(m, n - 1))
    requires Fold(DataStep(depth), DataUpto(m, n - 1), DataFieldAt(m, n)) == Some(DataUpto(m, n))
    ensures Fold(DataStep(depth), EMPTY_DATA, DataFieldsTo(m, n)) == Some(DataUpto(m, n))
  {
    FoldConcat(DataStep(depth), EMPTY_DATA, DataFieldsTo(m, n - 1), DataFieldAt(m, n));
  }

  lemma {:induction false} DataFieldsRead(depth: nat, m: OperationDataMsg, n: nat)
    requires n <= LAST_DATA_FIELD && DataCanonical(depth, m)
    requires PointsShort(m)
    ensures Fold(DataStep(depth), EMPTY_DATA, DataFieldsTo(m, n)) == Some(DataUpto(m, n))
  {
    if n > 0 {
      DataFieldsRead(depth, m, n - 1);
      DataFieldReads(depth, m, n);
      DataFieldsReadNext(depth, m, n);
    }
  }

  lemma {:induction false} DataFoldUnknown(depth: nat, m: OperationDataMsg, fs: seq<UnknownField>)
    requires forall f | f in fs :: DataKeeps(depth, f)
    ensures Fold(DataStep(depth), m, fs) == Some(m.(unknown := m.unknown + fs))
    decreases fs
  {
    if fs == [] {
      assert m.unknown + fs == m.unknown;
    } else {
      assert fs[0] in fs;
      assert DataStep(depth)(m, fs[0]) == Some(DataAddUnknown(m, fs[0]));
      DataFoldUnknown(depth, DataAddUnknown(m, fs[0]), fs[1..]);
      assert m.unknown + fs == m.unknown + [fs[0]] + fs[1..];
    }
  }

  /** A field no longer than an `int` counts is one `NextField` reads whole. */
  lemma DataFieldWritable(depth: nat, m: OperationDataMsg, n: nat)
    requires 1 <= n <= LAST_DATA_FIELD && DataCanonical(depth, m)
    requires |EncodeFields(DataFieldAt(m, n))| < TWO_31
    ensures forall f | f in DataFieldAt(m, n) :: Writable(DATA_SUBS, depth, f)
    ensures n in DATA_SUBS && DataPoint(m, n).Some? ==> |SerializePoint(DataPoint(m, n).value)| < TWO_31
  {
    if n in DATA_SUBS {
      DataPointFieldAt(m, n);
      if DataPoint(m, n).Some? {
        EncodeFieldsBound(DataFieldAt(m, n), LengthDelimited(n, SerializePoint(DataPoint(m, n).value)));
      }
    } else if n in {1, 2, 3, 13, 15} {} else {}
  }

  lemma {:induction false} DataFieldsWritable(depth: nat, m: OperationDataMsg, n: nat)
    requires n <= LAST_DATA_FIELD && DataCanonical(depth, m)
    requires |EncodeFields(DataFieldsTo(m, n))| < TWO_31
    ensures forall f | f in DataFieldsTo(m, n) :: Writable(DATA_SUBS, depth, f)
    ensures forall k | k in DATA_SUBS && k <= n && DataPoint(m, k).Some? ::
              |SerializePoint(DataPoint(m, k).value)| < TWO_31
  {
    if n > 0 {
      EncodeFieldsConcat(DataFieldsTo(m, n - 1), DataFieldAt(m, n));
      DataFieldsWritable(depth, m, n - 1);
      DataFieldWritable(depth, m, n);
    }
  }

  lemma DataFolds(depth: nat, m: OperationDataMsg)
    requires DataCanonical(depth, m) && PointsShort(m)
    ensures Fold(DataStep(depth), EMPTY_DATA, DataFieldsTo(m, LAST_DATA_FIELD) + m.unknown) == Some(m)
  {
    var known, bare := DataFieldsTo(m, LAST_DATA_FIELD), DataUpto(m, LAST_DATA_FIELD);
    FoldConcat(DataStep(depth), EMPTY_DATA, known, m.unknown);
    DataFieldsRead(depth, m, LAST_DATA_FIELD);
    DataFoldUnknown(depth, bare, m.unknown);
    assert bare.unknown + m.unknown == m.unknown;
  }

  lemma DataRoundTrip(depth: nat, m: OperationDataMsg)
    requires DataCanonical(depth, m) && |SerializeData(m)| < TWO_31
    ensures ParseData(depth, EMPTY_DATA, SerializeData(m)) == Some(m)
  {
    var known := DataFieldsTo(m, LAST_DATA_FIELD);
    EncodeFieldsConcat(known, m.unknown);
    DataFieldsWritable(depth, m, LAST_DATA_FIELD);
    DataFolds(depth, m);
    RunEncoded(DataStep(depth), DATA_SUBS, depth, EMPTY_DATA, known + m.unknown);
  }
}
