/** Values of `Operation` and their wire form. */
module OperationCodec {
  import opened Prelude
  import opened WireFormat
  import opened MessageEngine
  import opened TotalLimit
  import opened OperationDataCodec
  import Varint

  datatype OperationMsg = OperationMsg(
    serialNumber: Option<uint32>, data: Option<OperationDataMsg>, unknown: seq<UnknownField>)

  const EMPTY_OPERATION := OperationMsg(None, None, [])

  const OPERATION_SUBS: set<nat> := {2}

  function DataInto(depth: nat, prior: Option<OperationDataMsg>, data: Bytes): Option<OperationDataMsg>
  {
    if depth == 0 then None else ParseData(depth - 1, prior.GetOr(EMPTY_DATA), data)
  }

  /** The cases of `Operation::MergePartialFromCodedStream`. */
  function OperationStepAt(depth: nat, m: OperationMsg, f: UnknownField): Option<OperationMsg>
  {
    match f
    case VarintField(1, v) => Some(m.(serialNumber := Some(v % TWO_32)))
    case LengthDelimited(2, data) => (
      match DataInto(depth, m.data, data)
      case None => None
      case Some(d) => Some(m.(data := Some(d))))
    case _ => Some(m.(unknown := m.unknown + [f]))
  }

  function OperationStep(depth: nat): (OperationMsg, UnknownField) -> Option<OperationMsg>
  {
    (m, f) => OperationStepAt(depth, m, f)
  }

  function ParseOperation(depth: nat, m: OperationMsg, s: Bytes): Option<OperationMsg>
  {
    Run(OperationStep(depth), OPERATION_SUBS, depth, m, s)
  }

  /** The case of `data` ends in `ExpectAtEnd`. */
  function OperationClosesAt(depth: nat, f: UnknownField, short: bool): bool
  {
    f.LengthDelimited? && f.number == 2 && (short && depth > 0 ==> LastCloses(DataCloses, DATA_SUBS, depth - 1, f.data))
  }

  function OperationCloses(depth: nat): (UnknownField, bool) -> bool
  {
    (f, short) => OperationClosesAt(depth, f, short)
  }

  /** The parse up to an end of the given kind. */
  function ParseOperationTo(depth: nat, m: OperationMsg, s: Bytes, end: End): Outcome<OperationMsg>
  {
    RunTo(OperationStep(depth), OperationCloses(depth), OPERATION_SUBS, depth, m, s, end)
  }

  /** `ParseFromArray` but for the required fields. */
  function OperationFromArray(depth: nat, s: Bytes): Outcome<OperationMsg>
  {
    ParseOperationTo(depth, EMPTY_OPERATION, s, EndOf(s))
  }

  function OperationOnward(depth: nat, m: OperationMsg, rest: Bytes, end: End, closed: bool): Outcome<OperationMsg>
  {
    Onward(OperationStep(depth), OperationCloses(depth), OPERATION_SUBS, depth, m, rest, end, closed)
  }

  /** `ReadMessageNoVirtual` into an operation: the new one and what follows it. */
  function ReadOperationTo(depth: nat, m: OperationMsg, sub: Option<Submessage>): Outcome<(OperationMsg, Bytes)>
  {
    if depth == 0 then Rejected
    else ReadTo(OperationStep(depth - 1), OperationCloses(depth - 1), OPERATION_SUBS, depth, m, sub)
  }

  lemma ReadOperationInside(depth: nat, m: OperationMsg, sub: Submessage)
    ensures ReadOperationTo(depth + 1, m, Some(sub)) == Followed(ParseOperationTo(depth, m, sub.data, sub.end), sub.rest)
  {
  }

  // What a turn of the loop does for each way a field can be read.

  lemma SerialNumberTurn(depth: nat, m: OperationMsg, s: Bytes, end: End, body: Bytes)
    requires Varint.ReadVarint32(s) == Got(MakeTag(1, WIRETYPE_VARINT), body)
    ensures match Varint.ReadVarint32(body)
            case Fail => ParseOperationTo(depth, m, s, end) == Rejected
            case Got(v, rest) =>
              ParseOperationTo(depth, m, s, end) == OperationOnward(depth, m.(serialNumber := Some(v)), rest, end, false)
  {
    VarintNext(OPERATION_SUBS, depth, s, 1, body);
    var v := if Varint.ReadVarint32(body).Got? then Varint.ReadVarint32(body).value else 0;
    FieldTurn(OperationStep(depth), OperationCloses(depth), OPERATION_SUBS, depth, m, s, end,
              m.(serialNumber := Some(v)));
  }

  lemma OperationDataTurn(depth: nat, m: OperationMsg, s: Bytes, end: End, body: Bytes)
    requires Varint.ReadVarint32(s) == Got(MakeTag(2, WIRETYPE_LENGTH_DELIMITED), body)
    ensures var read := ReadDataTo(depth, m.data.GetOr(EMPTY_DATA), Enter(depth, body, end));
      ParseOperationTo(depth, m, s, end)
      == if Breaks(depth, body, end) then Undefined
         else if read.Accepted?
         then OperationOnward(depth, m.(data := Some(read.message.0)), read.message.1, SettledEnd(end), true)
         else Rejected
  {
    var d, below := m.data.GetOr(EMPTY_DATA), if depth == 0 then 0 else depth - 1;
    var put := e => m.(data := Some(e));
    assert forall data :: StepNests(OperationStep(depth), DataStep(below), DATA_SUBS, put, depth, m, d, 2, data);
    assert forall data, short :: ClosesNests(OperationCloses(depth), DataCloses, DATA_SUBS, true, depth, 2, data, short);
    NestedTurn(OperationStep(depth), OperationCloses(depth), OPERATION_SUBS, DataStep(below), DataCloses, DATA_SUBS,
               put, true, depth, m, d, s, end, 2, body);
  }

  /** `mutable_data()->mutable_start_point()->set_x(value)` and its like. */
  function WithDataPointX(m: OperationMsg, n: nat, value: int32): OperationMsg
    requires n in DATA_SUBS
  {
    m.(data := Some(WithPointX(m.data.GetOr(EMPTY_DATA), n, value)))
  }

  lemma OperationStop(depth: nat, m: OperationMsg, s: Bytes, end: End)
    requires s == [] || Varint.ReadVarint32(s).Fail? || Varint.ReadVarint32(s).value == 0
             || TagWireType(Varint.ReadVarint32(s).value) == WIRETYPE_END_GROUP
    ensures ParseOperationTo(depth, m, s, end) == Ended(s == [] && end.Legit?, false, m)
  {
    StopTurn(OperationStep(depth), OperationCloses(depth), OPERATION_SUBS, depth, m, s, end);
  }

  function OperationAddUnknown(m: OperationMsg, f: UnknownField): OperationMsg
  {
    m.(unknown := m.unknown + [f])
  }

  lemma OperationSkipTurn(depth: nat, m: OperationMsg, s: Bytes, end: End, tag: uint32, body: Bytes)
    requires Varint.ReadVarint32(s) == Got(tag, body) && tag !in {0, 8, 18} && TagWireType(tag) != WIRETYPE_END_GROUP
    ensures match SkipField(depth, tag, body)
            case Fail => ParseOperationTo(depth, m, s, end) == Rejected
            case Got(f, rest) =>
              ParseOperationTo(depth, m, s, end) == OperationOnward(depth, OperationAddUnknown(m, f), rest, end, false)
  {
    SkippedNext(OPERATION_SUBS, depth, s, tag, body);
    var skipped := SkipField(depth, tag, body);
    FieldTurn(OperationStep(depth), OperationCloses(depth), OPERATION_SUBS, depth, m, s, end,
              if skipped.Got? then OperationAddUnknown(m, skipped.value) else m);
  }

  function MergeDatas(a: Option<OperationDataMsg>, b: Option<OperationDataMsg>): Option<OperationDataMsg>
  {
    if b.None? then a else Some(MergeData(a.GetOr(EMPTY_DATA), b.value))
  }

  function MergeOperation(a: OperationMsg, b: OperationMsg): OperationMsg
  {
    OperationMsg(Later(a.serialNumber, b.serialNumber), MergeDatas(a.data, b.data), a.unknown + b.unknown)
  }

  function DataField(d: Option<OperationDataMsg>): seq<UnknownField>
  {
    if d.None? then [] else [LengthDelimited(2, SerializeData(d.value))]
  }

  function SerializeOperation(m: OperationMsg): Bytes
  {
    EncodeFields(UInt32Field(1, m.serialNumber) + DataField(m.data) + m.unknown)
  }

  function DataFieldLength(d: Option<OperationDataMsg>): nat
  {
    |EncodeFields(DataField(d))|
  }

  lemma OperationSizes(m: OperationMsg)
    ensures |SerializeOperation(m)|
         == |EncodeFields(UInt32Field(1, m.serialNumber))| + DataFieldLength(m.data) + |EncodeFields(m.unknown)|
    ensures |EncodeFields(UInt32Field(1, m.serialNumber) + DataField(m.data))|
         == |EncodeFields(UInt32Field(1, m.serialNumber))| + DataFieldLength(m.data)
    ensures m.data.Some? ==> |SerializeData(m.data.value)| <= DataFieldLength(m.data)
  {
    EncodeFieldsConcat(UInt32Field(1, m.serialNumber) + DataField(m.data), m.unknown);
    EncodeFieldsConcat(UInt32Field(1, m.serialNumber), DataField(m.data));
    if m.data.Some? {
      EncodeFieldsBound(DataField(m.data), LengthDelimited(2, SerializeData(m.data.value)));
    }
  }

  predicate OperationInitialized(m: OperationMsg)
  {
    m.serialNumber.Some? && m.data.Some? && DataInitialized(m.data.value)
  }

  /** A field the parser files under the unknown ones, unchanged. */
  predicate OperationKeeps(depth: nat, f: UnknownField)
  {
    Wire(depth, f) && !(f.VarintField? && f.number == 1) && !IsSubmessage(OPERATION_SUBS, f)
  }

  predicate OperationCanonical(depth: nat, m: OperationMsg)
  {
    && (forall f | f in m.unknown :: OperationKeeps(depth, f))
    && (m.data.Some? ==> depth > 0 && DataCanonical(depth - 1, m.data.value))
  }

  lemma OperationMergeUnit(m: OperationMsg)
    ensures MergeOperation(m, EMPTY_OPERATION) == m && MergeOperation(EMPTY_OPERATION, m) == m
  {
    DataMergeUnit(m.data.GetOr(EMPTY_DATA));
  }

  lemma OperationMergeAssociative(a: OperationMsg, b: OperationMsg, c: OperationMsg)
    ensures MergeOperation(MergeOperation(a, b), c) == MergeOperation(a, MergeOperation(b, c))
  {
    DataMergeAssociative(a.data.GetOr(EMPTY_DATA), b.data.GetOr(EMPTY_DATA), c.data.GetOr(EMPTY_DATA));
    DataMergeUnit(a.data.GetOr(EMPTY_DATA));
    DataMergeUnit(c.data.GetOr(EMPTY_DATA));
    assert a.unknown + b.unknown + c.unknown == a.unknown + (b.unknown + c.unknown);
  }

  lemma OperationDataMerges(depth: nat, a: OperationMsg, b: OperationMsg, data: Bytes)
    ensures DataInto(depth, MergeDatas(a.data, b.data), data)
         == match DataInto(depth, b.data, data) case None => None case Some(d) => MergeDatas(a.data, Some(d))
  {
    if depth > 0 {
      var a', b' := a.data.GetOr(EMPTY_DATA), b.data.GetOr(EMPTY_DATA);
      DataParseMerges(depth - 1, a', b', data);
      DataMergeUnit(a');
      DataMergeUnit(b');
    }
  }

  lemma OperationStepMerges(depth: nat, a: OperationMsg, b: OperationMsg, f: UnknownField)
    ensures OperationStepAt(depth, MergeOperation(a, b), f)
         == match OperationStepAt(depth, b, f) case None => None case Some(b') => Some(MergeOperation(a, b'))
  {
    if IsSubmessage(OPERATION_SUBS, f) {
      OperationDataMerges(depth, a, b, f.data);
    } else {
      assert a.unknown + (b.unknown + [f]) == a.unknown + b.unknown + [f];
    }
  }

  lemma OperationParseMerges(depth: nat, a: OperationMsg, b: OperationMsg, s: Bytes)
    ensures ParseOperation(depth, MergeOperation(a, b), s)
         == match ParseOperation(depth, b, s) case None => None case Some(b') => Some(MergeOperation(a, b'))
  {
    forall a, b, f
      ensures OperationStep(depth)(MergeOperation(a, b), f)
           == match OperationStep(depth)(b, f) case None => None case Some(b') => Some(MergeOperation(a, b'))
    {
      OperationStepMerges(depth, a, b, f);
    }
    RunMerge(OperationStep(depth), MergeOperation, OPERATION_SUBS, depth, a, b, s);
  }

  lemma OperationStepCanonical(depth: nat, m: OperationMsg, f: UnknownField)
    requires OperationCanonical(depth, m) && Readable(OPERATION_SUBS, depth, f)
    requires OperationStepAt(depth, m, f).Some?
    ensures OperationCanonical(depth, OperationStepAt(depth, m, f).value)
  {
    if IsSubmessage(OPERATION_SUBS, f) {
      DataParseCanonical(depth - 1, m.data.GetOr(EMPTY_DATA), f.data);
    }
  }

  lemma OperationParseCanonical(depth: nat, m: OperationMsg, s: Bytes)
    requires OperationCanonical(depth, m) && ParseOperation(depth, m, s).Some?
    ensures OperationCanonical(depth, ParseOperation(depth, m, s).value)
  {
    forall m, f | OperationCanonical(depth, m) && Readable(OPERATION_SUBS, depth, f) && OperationStep(depth)(m, f).Some?
      ensures OperationCanonical(depth, OperationStep(depth)(m, f).value)
    {
      OperationStepCanonical(depth, m, f);
    }
    RunKeeps(OperationStep(depth), m => OperationCanonical(depth, m), OPERATION_SUBS, depth, m, s);
  }

  lemma {:induction false} OperationFoldUnknown(depth: nat, m: OperationMsg, fs: seq<UnknownField>)
    requires forall f | f in fs :: OperationKeeps(depth, f)
    ensures Fold(OperationStep(depth), m, fs) == Some(m.(unknown := m.unknown + fs))
    decreases fs
  {
    if fs == [] {
      assert m.unknown + fs == m.unknown;
    } else {
      assert fs[0] in fs;
      var m' := m.(unknown := m.unknown + [fs[0]]);
      assert OperationStep(depth)(m, fs[0]) == Some(m');
      OperationFoldUnknown(depth, m', fs[1..]);
      assert m.unknown + fs == m.unknown + [fs[0]] + fs[1..];
    }
  }

  lemma DataFieldReads(depth: nat, m: OperationMsg, d: Option<OperationDataMsg>)
    requires m.data.None?
    requires d.Some? ==> depth > 0 && DataCanonical(depth - 1, d.value) && |SerializeData(d.value)| < TWO_31
    ensures Fold(OperationStep(depth), m, DataField(d)) == Some(m.(data := d))
  {
    if d.Some? {
      DataRoundTrip(depth - 1, d.value);
      DataSet(depth, m, SerializeData(d.value), d.value);
    }
  }

  lemma DataSet(depth: nat, m: OperationMsg, data: Bytes, d: OperationDataMsg)
    requires depth > 0 && m.data.None? && ParseData(depth - 1, EMPTY_DATA, data) == Some(d)
    ensures OperationStepAt(depth, m, LengthDelimited(2, data)) == Some(m.(data := Some(d)))
    ensures Fold(OperationStep(depth), m, [LengthDelimited(2, data)]) == Some(m.(data := Some(d)))
  {
    FoldOne(OperationStep(depth), m, LengthDelimited(2, data));
  }

  lemma NumberFieldReads(depth: nat, n: Option<uint32>)
    ensures Fold(OperationStep(depth), EMPTY_OPERATION, UInt32Field(1, n)) == Some(EMPTY_OPERATION.(serialNumber := n))
  {
  }

  lemma OperationFoldKnown(depth: nat, m: OperationMsg)
    requires OperationCanonical(depth, m)
    requires m.data.Some? ==> |SerializeData(m.data.value)| < TWO_31
    ensures Fold(OperationStep(depth), EMPTY_OPERATION, UInt32Field(1, m.serialNumber) + DataField(m.data))
         == Some(m.(unknown := []))
  {
    FoldConcat(OperationStep(depth), EMPTY_OPERATION, UInt32Field(1, m.serialNumber), DataField(m.data));
    NumberFieldReads(depth, m.serialNumber);
    DataFieldReads(depth, EMPTY_OPERATION.(serialNumber := m.serialNumber), m.data);
  }

  lemma OperationWritable(depth: nat, m: OperationMsg)
    requires OperationCanonical(depth, m) && |SerializeOperation(m)| < TWO_31
    ensures m.data.Some? ==> |SerializeData(m.data.value)| < TWO_31
    ensures forall f | f in UInt32Field(1, m.serialNumber) + DataField(m.data) + m.unknown ::
              Writable(OPERATION_SUBS, depth, f)
  {
    if m.data.Some? {
      EncodeFieldsBound(UInt32Field(1, m.serialNumber) + DataField(m.data) + m.unknown,
                        LengthDelimited(2, SerializeData(m.data.value)));
    }
  }

  lemma OperationRoundTrip(depth: nat, m: OperationMsg)
    requires OperationCanonical(depth, m) && |SerializeOperation(m)| < TWO_31
    ensures ParseOperation(depth, EMPTY_OPERATION, SerializeOperation(m)) == Some(m)
  {
    var known := UInt32Field(1, m.serialNumber) + DataField(m.data);
    OperationWritable(depth, m);
    RunEncoded(OperationStep(depth), OPERATION_SUBS, depth, EMPTY_OPERATION, known + m.unknown);
    FoldConcat(OperationStep(depth), EMPTY_OPERATION, known, m.unknown);
    OperationFoldKnown(depth, m);
    var bare := m.(unknown := []);
    OperationFoldUnknown(depth, bare, m.unknown);
    assert bare.unknown + m.unknown == m.unknown;
    assert Fold(OperationStep(depth), bare, m.unknown) == Some(m);
  }
}
