/** What writing a parsed message back makes of its input: how much longer it can
    get, and when parsing it again gives the same message. */
module Normalisation {
  import opened Prelude
  import opened WireFormat
  import opened Varint
  import opened MessageEngine
  import opened TotalLimit
  import opened PointCodec
  import opened OperationDataCodec
  import opened OperationCodec
  import opened OperationsCodec
  import opened DocumentCodec
  import opened CodecTheorems

  // ------------------------------------------------------- growth of a parse

  /** Once or twice a length. */
  function Times(twice: bool, n: nat): nat
  {
    if twice then 2 * n else n
  }

  /** No field makes a message longer than the field is, or than twice that. */
  ghost predicate StepGrows<M(!new)>(step: (M, UnknownField) -> Option<M>, size: M -> nat, lean: UnknownField -> bool,
                                     twice: bool)
  {
    forall m, f {:trigger step(m, f)} | lean(f) && step(m, f).Some? ::
      size(step(m, f).value) <= size(m) + Times(twice, |EncodeField(f)|)
  }

  lemma {:induction false} FoldGrows<M(!new)>(step: (M, UnknownField) -> Option<M>, size: M -> nat,
                                              lean: UnknownField -> bool, twice: bool, m: M, fs: seq<UnknownField>)
    requires StepGrows(step, size, lean, twice) && (forall f | f in fs :: lean(f)) && Fold(step, m, fs).Some?
    ensures size(Fold(step, m, fs).value) <= size(m) + Times(twice, |EncodeFields(fs)|)
    decreases fs
  {
    if fs != [] {
      assert |EncodeFields(fs)| == |EncodeField(fs[0])| + |EncodeFields(fs[1..])|;
      assert size(step(m, fs[0]).value) <= size(m) + Times(twice, |EncodeField(fs[0])|);
      FoldGrows(step, size, lean, twice, step(m, fs[0]).value, fs[1..]);
    }
  }

  /** Nor does a whole input make it longer than the input is. */
  lemma RunGrows<M(!new)>(step: (M, UnknownField) -> Option<M>, size: M -> nat, lean: UnknownField -> bool, twice: bool,
                          subs: set<nat>, depth: nat, m: M, s: Bytes)
    requires StepGrows(step, size, lean, twice) && forall f | f in FieldsOf(subs, depth, s) :: lean(f)
    requires Run(step, subs, depth, m, s).Some?
    ensures size(Run(step, subs, depth, m, s).value) <= size(m) + Times(twice, |s|)
  {
    RunFolds(step, subs, depth, m, s);
    FoldGrows(step, size, lean, twice, m, FieldsOf(subs, depth, s));
    FieldsLength(subs, depth, s);
  }

  /** The varint of a negative int32 is one whose sign has been extended to 64 bits. */
  predicate Extended(v: uint64)
  {
    v % TWO_32 < TWO_31 || v >= 0x8000_0000_0000_0000
  }

  /** An int32 is written in twice the bytes it was read from at most, ten for five;
      in no more bytes if its sign came extended. */
  lemma Int32Length(twice: bool, v: uint64)
    requires twice || Extended(v)
    ensures |EncodeVarint(SignExtend(ToInt32(v % TWO_32)))| <= Times(twice, |EncodeVarint(v)|)
  {
    var w: nat := v % TWO_32;
    ModAtMost(v, TWO_32);
    VarintMonotone(w, v);
    if w >= TWO_31 {
      VarintSizeExact(SignExtend(ToInt32(w)));
      VarintSizeExact(v);
    }
  }

  /** The bytes of a submessage field of `w` bytes, but for its tag. */
  function PrefixedLength(w: nat): nat
  {
    |EncodeVarint(w)| + w
  }

  lemma PrefixedGrows(twice: bool, w: nat, d: nat, after: nat)
    requires after <= w + Times(twice, d)
    ensures PrefixedLength(after) <= PrefixedLength(w) + Times(twice, PrefixedLength(d))
    ensures w == 0 ==> PrefixedLength(after) <= Times(twice, PrefixedLength(d))
  {
    VarintDoubled(d);
    VarintMonotone(after, w + Times(twice, d));
    VarintSum(w, Times(twice, d));
  }

  lemma NestedLength(n: FieldNumber, data: Bytes)
    ensures |EncodeField(LengthDelimited(n, data))|
         == |EncodeVarint(MakeTag(n, WIRETYPE_LENGTH_DELIMITED))| + PrefixedLength(|data|)
  {
  }

  lemma OneFieldLength(f: UnknownField)
    ensures |EncodeFields([f])| == |EncodeField(f)|
  {
    assert EncodeFields([f]) == EncodeField(f) + EncodeFields([f][1..]);
  }

  lemma AppendedLength(fs: seq<UnknownField>, f: UnknownField)
    ensures |EncodeFields(fs + [f])| == |EncodeFields(fs)| + |EncodeField(f)|
  {
    EncodeFieldsConcat(fs, [f]);
    OneFieldLength(f);
  }

  lemma VarintFieldLength(n: FieldNumber, v: uint64)
    ensures |EncodeField(VarintField(n, v))| == |EncodeVarint(MakeTag(n, WIRETYPE_VARINT))| + |EncodeVarint(v)|
  {
  }

  lemma Int32FieldLength(twice: bool, n: FieldNumber, v: uint64)
    requires twice || Extended(v)
    ensures |EncodeFields(Int32Field(n, Some(ToInt32(v % TWO_32))))| <= Times(twice, |EncodeField(VarintField(n, v))|)
  {
    var u: uint64 := SignExtend(ToInt32(v % TWO_32));
    Int32Length(twice, v);
    OneFieldLength(VarintField(n, u));
    VarintFieldLength(n, u);
    VarintFieldLength(n, v);
  }

  // ------------------------------------------------------------------ points

  predicate PointFieldExtended(f: UnknownField)
  {
    f.VarintField? && f.number in {1, 2} ==> Extended(f.varint)
  }

  /** Every negative coordinate is sent with its sign extended. */
  predicate PointExtended(depth: nat, s: Bytes)
  {
    forall f | f in FieldsOf({}, depth, s) :: PointFieldExtended(f)
  }

  lemma PointStepGrows(twice: bool, m: PointMsg, f: UnknownField)
    requires twice || PointFieldExtended(f)
    ensures |SerializePoint(PointStep(m, f).value)| <= |SerializePoint(m)| + Times(twice, |EncodeField(f)|)
  {
    PointSizes(m);
    PointSizes(PointStep(m, f).value);
    if f.VarintField? && f.number in {1, 2} {
      Int32FieldLength(twice, f.number, f.varint);
    } else {
      AppendedLength(m.unknown, f);
    }
  }

  lemma PointGrows(twice: bool, depth: nat, m: PointMsg, s: Bytes)
    requires ParsePoint(depth, m, s).Some? && (twice || PointExtended(depth, s))
    ensures |SerializePoint(ParsePoint(depth, m, s).value)| <= |SerializePoint(m)| + Times(twice, |s|)
  {
    var size, lean := (m: PointMsg) => |SerializePoint(m)|, f => twice || PointFieldExtended(f);
    forall m, f | lean(f) && PointStep(m, f).Some?
      ensures size(PointStep(m, f).value) <= size(m) + Times(twice, |EncodeField(f)|)
    {
      PointStepGrows(twice, m, f);
    }
    RunGrows(PointStep, size, lean, twice, {}, depth, m, s);
  }

  // ---------------------------------------------------------- operation data

  predicate DataFieldExtended(depth: nat, f: UnknownField)
  {
    && (f.VarintField? && f.number in {1, 2, 3} ==> Extended(f.varint))
    && (IsSubmessage(DATA_SUBS, f) && depth > 0 ==> PointExtended(depth - 1, f.data))
  }

  /** Every negative number is sent with its sign extended, those of the points too. */
  predicate DataExtended(depth: nat, s: Bytes)
  {
    forall f | f in FieldsOf(DATA_SUBS, depth, s) :: DataFieldExtended(depth, f)
  }

  /** Two messages that differ in field `n` alone, unknown fields aside. */
  ghost predicate Apart(m: OperationDataMsg, r: OperationDataMsg, n: nat)
  {
    forall i: nat | i != n :: SameField(m, r, i)
  }

  predicate SameField(m: OperationDataMsg, r: OperationDataMsg, i: nat)
  {
    DataFieldAt(r, i) == DataFieldAt(m, i)
  }

  function SumTo(f: nat -> nat, n: nat): nat
  {
    if n == 0 then 0 else SumTo(f, n - 1) + f(n)
  }

  lemma {:induction false} SumsApart(f: nat -> nat, g: nat -> nat, n: nat, last: nat)
    requires forall i: nat | i != n :: g(i) == f(i)
    ensures n == 0 || last < n ==> SumTo(g, last) == SumTo(f, last)
    ensures 1 <= n <= last ==> SumTo(g, last) + f(n) == SumTo(f, last) + g(n)
    decreases last
  {
    if last > 0 {
      SumsApart(f, g, n, last - 1);
    }
  }

  function DataFieldSizes(m: OperationDataMsg): nat -> nat
  {
    i => DataFieldSize(m, i)
  }

  lemma DataSizeStep(m: OperationDataMsg, n: nat)
    requires n > 0
    ensures DataSizeTo(m, n) == DataSizeTo(m, n - 1) + DataFieldSizes(m)(n)
  {
  }

  lemma {:induction false} DataSum(m: OperationDataMsg, f: nat -> nat, last: nat)
    requires f == DataFieldSizes(m)
    ensures SumTo(f, last) == DataSizeTo(m, last)
  {
    if last > 0 {
      DataSum(m, f, last - 1);
      DataSizeStep(m, last);
    }
  }

  lemma DataSizesApart(m: OperationDataMsg, r: OperationDataMsg, n: nat)
    requires Apart(m, r, n)
    ensures n == 0 ==> DataSizeTo(r, LAST_DATA_FIELD) == DataSizeTo(m, LAST_DATA_FIELD)
    ensures 1 <= n <= LAST_DATA_FIELD ==>
      DataSizeTo(r, LAST_DATA_FIELD) + DataFieldSize(m, n) == DataSizeTo(m, LAST_DATA_FIELD) + DataFieldSize(r, n)
  {
    var f, g := DataFieldSizes(m), DataFieldSizes(r);
    forall i: nat | i != n
      ensures g(i) == f(i)
    {
      assert SameField(m, r, i);
    }
    SumsApart(f, g, n, LAST_DATA_FIELD);
    DataSum(m, f, LAST_DATA_FIELD);
    DataSum(r, g, LAST_DATA_FIELD);
  }

  lemma DataLength(m: OperationDataMsg)
    ensures |SerializeData(m)| == DataSizeTo(m, LAST_DATA_FIELD) + |EncodeFields(m.unknown)|
  {
    DataSizesTo(m, LAST_DATA_FIELD);
    EncodeFieldsConcat(DataFieldsTo(m, LAST_DATA_FIELD), m.unknown);
  }

  lemma DataAddUnknownLength(m: OperationDataMsg, f: UnknownField)
    ensures |SerializeData(DataAddUnknown(m, f))| == |SerializeData(m)| + |EncodeField(f)|
  {
    var r := DataAddUnknown(m, f);
    UnknownApart(m, f);
    DataSizesApart(m, r, 0);
    DataLength(m);
    DataLength(r);
    AppendedLength(m.unknown, f);
  }

  lemma UnknownApart(m: OperationDataMsg, f: UnknownField)
    ensures Apart(m, DataAddUnknown(m, f), 0)
  {
  }

  lemma DataFieldGrows(m: OperationDataMsg, r: OperationDataMsg, n: nat, d: nat)
    requires 1 <= n <= LAST_DATA_FIELD && r.unknown == m.unknown && Apart(m, r, n)
    requires DataFieldSize(r, n) <= DataFieldSize(m, n) + d
    ensures |SerializeData(r)| <= |SerializeData(m)| + d
  {
    DataSizesApart(m, r, n);
    DataLength(m);
    DataLength(r);
  }

  lemma TypeApart(m: OperationDataMsg, w: DataType)
    ensures Apart(m, m.(dataType := Some(w)), 1)
  {
  }

  lemma DataTypeGrows(twice: bool, m: OperationDataMsg, v: uint64)
    requires twice || Extended(v)
    ensures |SerializeData(DataTypeStep(m, ToInt32(v % TWO_32)))|
         <= |SerializeData(m)| + Times(twice, |EncodeField(VarintField(1, v))|)
  {
    var w: int32 := ToInt32(v % TWO_32);
    Int32FieldLength(twice, 1, v);
    if DataTypeIsValid(w) {
      TypeApart(m, w);
      DataFieldGrows(m, DataTypeStep(m, w), 1, Times(twice, |EncodeField(VarintField(1, v))|));
    } else {
      DataAddUnknownLength(m, VarintField(1, SignExtend(w)));
      OneFieldLength(VarintField(1, SignExtend(w)));
    }
  }

  lemma NumberApart(depth: nat, m: OperationDataMsg, n: FieldNumber, v: uint64)
    requires n in {2, 3}
    ensures DataStepAt(depth, m, VarintField(n, v)).Some?
    ensures var r := DataStepAt(depth, m, VarintField(n, v)).value;
            Apart(m, r, n) && DataFieldAt(r, n) == Int32Field(n, Some(ToInt32(v % TWO_32))) && r.unknown == m.unknown
  {
    if n == 2 {} else {}
  }

  lemma DataNumberGrows(twice: bool, depth: nat, m: OperationDataMsg, n: FieldNumber, v: uint64)
    requires n in {2, 3} && (twice || Extended(v))
    ensures DataStepAt(depth, m, VarintField(n, v)).Some?
    ensures |SerializeData(DataStepAt(depth, m, VarintField(n, v)).value)|
         <= |SerializeData(m)| + Times(twice, |EncodeField(VarintField(n, v))|)
  {
    NumberApart(depth, m, n, v);
    Int32FieldLength(twice, n, v);
    DataFieldGrows(m, DataStepAt(depth, m, VarintField(n, v)).value, n, Times(twice, |EncodeField(VarintField(n, v))|));
  }

  lemma BoolFieldLength(n: FieldNumber, b: bool, v: uint64)
    requires b <==> v % TWO_32 != 0
    ensures |EncodeFields(BoolField(n, Some(b)))| <= |EncodeField(VarintField(n, v))|
  {
    var u: uint64 := if b then 1 else 0;
    VarintMonotone(u, v);
    OneFieldLength(VarintField(n, u));
    VarintFieldLength(n, u);
    VarintFieldLength(n, v);
  }

  lemma FlagApart(depth: nat, m: OperationDataMsg, n: FieldNumber, v: uint64)
    requires n in {13, 15}
    ensures DataStepAt(depth, m, VarintField(n, v)).Some?
    ensures var r := DataStepAt(depth, m, VarintField(n, v)).value;
            Apart(m, r, n) && DataFieldAt(r, n) == BoolField(n, Some(v % TWO_32 != 0)) && r.unknown == m.unknown
  {
    if n == 13 {} else {}
  }

  lemma DataFlagGrows(depth: nat, m: OperationDataMsg, n: FieldNumber, v: uint64)
    requires n in {13, 15}
    ensures DataStepAt(depth, m, VarintField(n, v)).Some?
    ensures |SerializeData(DataStepAt(depth, m, VarintField(n, v)).value)|
         <= |SerializeData(m)| + |EncodeField(VarintField(n, v))|
  {
    FlagApart(depth, m, n, v);
    BoolFieldLength(n, v % TWO_32 != 0, v);
    DataFieldGrows(m, DataStepAt(depth, m, VarintField(n, v)).value, n, |EncodeField(VarintField(n, v))|);
  }

  lemma FloatApart(depth: nat, m: OperationDataMsg, n: FieldNumber, v: uint32)
    requires n in {7, 8, 9, 14}
    ensures DataStepAt(depth, m, Fixed32Field(n, v)).Some?
    ensures var r := DataStepAt(depth, m, Fixed32Field(n, v)).value;
            Apart(m, r, n) && DataFieldAt(r, n) == FloatField(n, Some(v)) && r.unknown == m.unknown
  {
    if n == 7 {} else if n == 8 {} else if n == 9 {} else {}
  }

  lemma DataFloatGrows(depth: nat, m: OperationDataMsg, n: FieldNumber, v: uint32)
    requires n in {7, 8, 9, 14}
    ensures DataStepAt(depth, m, Fixed32Field(n, v)).Some?
    ensures |SerializeData(DataStepAt(depth, m, Fixed32Field(n, v)).value)|
         <= |SerializeData(m)| + |EncodeField(Fixed32Field(n, v))|
  {
    FloatApart(depth, m, n, v);
    OneFieldLength(Fixed32Field(n, v));
    DataFieldGrows(m, DataStepAt(depth, m, Fixed32Field(n, v)).value, n, |EncodeField(Fixed32Field(n, v))|);
  }

  lemma PointFieldGrows(twice: bool, n: FieldNumber, before: Option<PointMsg>, data: Bytes, after: PointMsg)
    requires |SerializePoint(after)| <= |SerializePoint(before.GetOr(EMPTY_POINT))| + Times(twice, |data|)
    ensures PointFieldSize(n, Some(after))
         <= PointFieldSize(n, before) + Times(twice, |EncodeField(LengthDelimited(n, data))|)
  {
    var p := SerializePoint(before.GetOr(EMPTY_POINT));
    PrefixedGrows(twice, |p|, |data|, |SerializePoint(after)|);
    OneFieldLength(LengthDelimited(n, p));
    OneFieldLength(LengthDelimited(n, SerializePoint(after)));
    NestedLength(n, p);
    NestedLength(n, data);
    NestedLength(n, SerializePoint(after));
  }

  lemma DataPointGrows(twice: bool, depth: nat, m: OperationDataMsg, n: FieldNumber, data: Bytes)
    requires n in DATA_SUBS && DataPointStep(depth, m, n, data).Some?
    requires twice || PointExtended(depth - 1, data)
    ensures |SerializeData(DataPointStep(depth, m, n, data).value)|
         <= |SerializeData(m)| + Times(twice, |EncodeField(LengthDelimited(n, data))|)
  {
    var before, r := DataPoint(m, n), DataPointStep(depth, m, n, data).value;
    var after := PointInto(depth, before, data).value;
    PointGrows(twice, depth - 1, before.GetOr(EMPTY_POINT), data);
    PointFieldGrows(twice, n, before, data, after);
    SetThenGetDataPoint(m, n, Some(after));
    DataPointFieldAt(m, n);
    DataPointFieldAt(r, n);
    SetPointApart(m, n, after);
    DataFieldGrows(m, r, n, Times(twice, |EncodeField(LengthDelimited(n, data))|));
  }

  lemma SetPointApart(m: OperationDataMsg, n: nat, p: PointMsg)
    requires n in DATA_SUBS
    ensures Apart(m, SetDataPoint(m, n, Some(p)), n)
  {
    if n == 4 {} else if n == 5 {} else if n == 6 {} else if n == 10 {} else if n == 11 {} else {}
  }

  lemma DataStepGrows(twice: bool, depth: nat, m: OperationDataMsg, f: UnknownField)
    requires DataStepAt(depth, m, f).Some? && (twice || DataFieldExtended(depth, f))
    ensures |SerializeData(DataStepAt(depth, m, f).value)| <= |SerializeData(m)| + Times(twice, |EncodeField(f)|)
  {
    if IsSubmessage(DATA_SUBS, f) {
      DataPointGrows(twice, depth, m, f.number, f.data);
    } else if f.VarintField? && f.number == 1 {
      DataTypeGrows(twice, m, f.varint);
    } else if f.VarintField? && f.number in {2, 3} {
      DataNumberGrows(twice, depth, m, f.number, f.varint);
    } else if f.VarintField? && f.number in {13, 15} {
      DataFlagGrows(depth, m, f.number, f.varint);
    } else if f.Fixed32Field? && f.number in {7, 8, 9, 14} {
      DataFloatGrows(depth, m, f.number, f.fixed32);
    } else {
      DataOtherStep(depth, m, f);
      DataAddUnknownLength(m, f);
    }
  }

  lemma DataOtherStep(depth: nat, m: OperationDataMsg, f: UnknownField)
    requires !IsSubmessage(DATA_SUBS, f)
    requires !(f.VarintField? && f.number in {1, 2, 3, 13, 15}) && !(f.Fixed32Field? && f.number in {7, 8, 9, 14})
    ensures DataStepAt(depth, m, f) == Some(DataAddUnknown(m, f))
  {
  }

  lemma DataGrows(twice: bool, depth: nat, m: OperationDataMsg, s: Bytes)
    requires ParseData(depth, m, s).Some? && (twice || DataExtended(depth, s))
    ensures |SerializeData(ParseData(depth, m, s).value)| <= |SerializeData(m)| + Times(twice, |s|)
  {
    var size, lean := (m: OperationDataMsg) => |SerializeData(m)|, f => twice || DataFieldExtended(depth, f);
    forall m, f | lean(f) && DataStep(depth)(m, f).Some?
      ensures size(DataStep(depth)(m, f).value) <= size(m) + Times(twice, |EncodeField(f)|)
    {
      DataStepGrows(twice, depth, m, f);
    }
    RunGrows(DataStep(depth), size, lean, twice, DATA_SUBS, depth, m, s);
  }

  // -------------------------------------------------------------- operations

  predicate OperationFieldExtended(depth: nat, f: UnknownField)
  {
    IsSubmessage(OPERATION_SUBS, f) && depth > 0 ==> DataExtended(depth - 1, f.data)
  }

  predicate OperationExtended(depth: nat, s: Bytes)
  {
    forall f | f in FieldsOf(OPERATION_SUBS, depth, s) :: OperationFieldExtended(depth, f)
  }

  lemma UInt32FieldLength(n: FieldNumber, v: uint64)
    ensures |EncodeFields(UInt32Field(n, Some(v % TWO_32)))| <= |EncodeField(VarintField(n, v))|
  {
    var w: uint32 := v % TWO_32;
    ModAtMost(v, TWO_32);
    VarintMonotone(w, v);
    OneFieldLength(VarintField(n, w));
    VarintFieldLength(n, w);
    VarintFieldLength(n, v);
  }

  lemma OperationDataGrows(twice: bool, depth: nat, m: OperationMsg, data: Bytes)
    requires DataInto(depth, m.data, data).Some? && (twice || DataExtended(depth - 1, data))
    ensures DataFieldLength(DataInto(depth, m.data, data))
         <= DataFieldLength(m.data) + Times(twice, |EncodeField(LengthDelimited(2, data))|)
  {
    var before, after := SerializeData(m.data.GetOr(EMPTY_DATA)), SerializeData(DataInto(depth, m.data, data).value);
    DataGrows(twice, depth - 1, m.data.GetOr(EMPTY_DATA), data);
    EmptyDataLength();
    PrefixedGrows(twice, |before|, |data|, |after|);
    OneFieldLength(LengthDelimited(2, before));
    OneFieldLength(LengthDelimited(2, after));
    NestedLength(2, before);
    NestedLength(2, data);
    NestedLength(2, after);
  }

  lemma EmptyDataLength()
    ensures SerializeData(EMPTY_DATA) == []
  {
    EmptyDataSize(LAST_DATA_FIELD);
    DataLength(EMPTY_DATA);
  }

  lemma {:induction false} EmptyDataSize(n: nat)
    requires n <= LAST_DATA_FIELD
    ensures DataSizeTo(EMPTY_DATA, n) == 0
  {
    if n > 0 {
      EmptyDataSize(n - 1);
      EmptyDataField(n);
    }
  }

  lemma EmptyDataField(n: nat)
    ensures DataFieldAt(EMPTY_DATA, n) == []
  {
  }

  lemma OperationStepGrows(twice: bool, depth: nat, m: OperationMsg, f: UnknownField)
    requires OperationStepAt(depth, m, f).Some? && (twice || OperationFieldExtended(depth, f))
    ensures |SerializeOperation(OperationStepAt(depth, m, f).value)|
         <= |SerializeOperation(m)| + Times(twice, |EncodeField(f)|)
  {
    OperationSizes(m);
    OperationSizes(OperationStepAt(depth, m, f).value);
    if IsSubmessage(OPERATION_SUBS, f) {
      OperationDataGrows(twice, depth, m, f.data);
    } else if f.VarintField? && f.number == 1 {
      UInt32FieldLength(1, f.varint);
    } else {
      AppendedLength(m.unknown, f);
    }
  }

  lemma OperationGrows(twice: bool, depth: nat, m: OperationMsg, s: Bytes)
    requires ParseOperation(depth, m, s).Some? && (twice || OperationExtended(depth, s))
    ensures |SerializeOperation(ParseOperation(depth, m, s).value)| <= |SerializeOperation(m)| + Times(twice, |s|)
  {
    var size, lean := (m: OperationMsg) => |SerializeOperation(m)|, f => twice || OperationFieldExtended(depth, f);
    forall m, f | lean(f) && OperationStep(depth)(m, f).Some?
      ensures size(OperationStep(depth)(m, f).value) <= size(m) + Times(twice, |EncodeField(f)|)
    {
      OperationStepGrows(twice, depth, m, f);
    }
    RunGrows(OperationStep(depth), size, lean, twice, OPERATION_SUBS, depth, m, s);
  }

  predicate OperationsFieldExtended(depth: nat, f: UnknownField)
  {
    && (f.VarintField? && f.number == 1 ==> Extended(f.varint))
    && (IsSubmessage(OPERATIONS_SUBS, f) && depth > 0 ==> OperationExtended(depth - 1, f.data))
  }

  /** Every negative number in the whole tree is sent with its sign extended to 64
      bits. */
  predicate OperationsExtended(depth: nat, s: Bytes)
  {
    forall f | f in FieldsOf(OPERATIONS_SUBS, depth, s) :: OperationsFieldExtended(depth, f)
  }

  lemma AddedElement(m: OperationsMsg, op: OperationMsg)
    ensures |SerializeOperations(AddOperation(m, op))| == |SerializeOperations(m)| + |EncodeField(ElementField(op))|
  {
    var r := AddOperation(m, op);
    OperationsSizes(m);
    OperationsSizes(r);
    assert r.operations[..|m.operations|] == m.operations;
    AppendedLength(OperationFields(m.operations), ElementField(op));
  }

  lemma ElementGrows(twice: bool, depth: nat, op: OperationMsg, data: Bytes)
    requires ParseOperation(depth, EMPTY_OPERATION, data) == Some(op) && (twice || OperationExtended(depth, data))
    ensures |EncodeField(ElementField(op))| <= Times(twice, |EncodeField(LengthDelimited(2, data))|)
  {
    OperationGrows(twice, depth, EMPTY_OPERATION, data);
    OperationSizes(EMPTY_OPERATION);
    PrefixedGrows(twice, 0, |data|, |SerializeOperation(op)|);
    NestedLength(2, data);
    NestedLength(2, SerializeOperation(op));
  }

  lemma AvaliableGrows(twice: bool, m: OperationsMsg, v: uint64)
    requires twice || Extended(v)
    ensures |SerializeOperations(AvaliableStep(m, ToInt32(v % TWO_32)))|
         <= |SerializeOperations(m)| + Times(twice, |EncodeField(VarintField(1, v))|)
  {
    var w: int32 := ToInt32(v % TWO_32);
    Int32FieldLength(twice, 1, v);
    OperationsSizes(m);
    OperationsSizes(AvaliableStep(m, w));
    if !AvaliableIsValid(w) {
      AppendedLength(m.unknown, VarintField(1, SignExtend(w)));
      OneFieldLength(VarintField(1, SignExtend(w)));
    }
  }

  lemma OperationsUnknownLength(m: OperationsMsg, f: UnknownField)
    ensures |SerializeOperations(OperationsAddUnknown(m, f))| == |SerializeOperations(m)| + |EncodeField(f)|
  {
    OperationsSizes(m);
    OperationsSizes(OperationsAddUnknown(m, f));
    AppendedLength(m.unknown, f);
  }

  lemma OperationsElementGrows(twice: bool, depth: nat, m: OperationsMsg, data: Bytes)
    requires depth > 0 && ParseOperation(depth - 1, EMPTY_OPERATION, data).Some?
    requires twice || OperationExtended(depth - 1, data)
    ensures |SerializeOperations(AddOperation(m, ParseOperation(depth - 1, EMPTY_OPERATION, data).value))|
         <= |SerializeOperations(m)| + Times(twice, |EncodeField(LengthDelimited(2, data))|)
  {
    var op := ParseOperation(depth - 1, EMPTY_OPERATION, data).value;
    ElementGrows(twice, depth - 1, op, data);
    AddedElement(m, op);
  }

  lemma OperationsStepGrows(twice: bool, depth: nat, m: OperationsMsg, f: UnknownField)
    requires OperationsStepAt(depth, m, f).Some? && (twice || OperationsFieldExtended(depth, f))
    ensures |SerializeOperations(OperationsStepAt(depth, m, f).value)|
         <= |SerializeOperations(m)| + Times(twice, |EncodeField(f)|)
  {
    if IsSubmessage(OPERATIONS_SUBS, f) {
      OperationsElementGrows(twice, depth, m, f.data);
    } else if f.VarintField? && f.number == 1 {
      AvaliableGrows(twice, m, f.varint);
    } else {
      assert OperationsStepAt(depth, m, f) == Some(OperationsAddUnknown(m, f));
      OperationsUnknownLength(m, f);
    }
  }

  /** What is written back is at most twice as long as what was read; no longer at
      all if every sign came extended. */
  lemma OperationsGrows(twice: bool, depth: nat, m: OperationsMsg, s: Bytes)
    requires ParseOperations(depth, m, s).Some? && (twice || OperationsExtended(depth, s))
    ensures |SerializeOperations(ParseOperations(depth, m, s).value)| <= |SerializeOperations(m)| + Times(twice, |s|)
  {
    var size, lean := (m: OperationsMsg) => |SerializeOperations(m)|, f => twice || OperationsFieldExtended(depth, f);
    forall m, f | lean(f) && OperationsStep(depth)(m, f).Some?
      ensures size(OperationsStep(depth)(m, f).value) <= size(m) + Times(twice, |EncodeField(f)|)
    {
      OperationsStepGrows(twice, depth, m, f);
    }
    RunGrows(OperationsStep(depth), size, lean, twice, OPERATIONS_SUBS, depth, m, s);
  }

  /** The bytes of an array that its stream lets through. */
  function WithinLimit(s: Bytes): Bytes
  {
    s[..Min(|s|, TOTAL_BYTES_LIMIT)]
  }

  lemma AcceptedParse(depth: nat, s: Bytes)
    requires OperationsFromArray(depth, s).Accepted?
    ensures ParseOperations(depth, EMPTY_OPERATIONS, WithinLimit(s)) == Some(OperationsFromArray(depth, s).message)
  {
    if |s| > TOTAL_BYTES_LIMIT {
      OperationsOverLimit(depth, s);
    } else {
      assert s[..|s|] == s;
    }
  }

  /** A parsed message that is written and parsed again is the same message exactly
      if what is written fits the limit, whatever the order, repetition or wire
      types of the first input. It is written in at most twice the bytes, so half
      the limit is always safe; and in no more bytes if every sign came extended. */
  lemma OperationsNormalisation(depth: nat, s: Bytes)
    requires OperationsFromArray(depth, s).Accepted?
    ensures var m, read := OperationsFromArray(depth, s).message, WithinLimit(s);
      && |SerializeOperations(m)| <= 2 * |read|
      && (OperationsFromArray(depth, SerializeOperations(m)) == Accepted(m) <==>
            |SerializeOperations(m)| <= TOTAL_BYTES_LIMIT)
      && (2 * |s| <= TOTAL_BYTES_LIMIT ==> OperationsFromArray(depth, SerializeOperations(m)) == Accepted(m))
      && (OperationsExtended(depth, read) ==>
            |SerializeOperations(m)| <= |read| && OperationsFromArray(depth, SerializeOperations(m)) == Accepted(m))
  {
    var m, read := OperationsFromArray(depth, s).message, WithinLimit(s);
    AcceptedParse(depth, s);
    OperationsParseCanonical(depth, EMPTY_OPERATIONS, read);
    OperationsSizes(EMPTY_OPERATIONS);
    OperationsGrows(true, depth, EMPTY_OPERATIONS, read);
    if OperationsExtended(depth, read) {
      OperationsGrows(false, depth, EMPTY_OPERATIONS, read);
    }
    OperationsRoundTripIff(depth, m);
  }

  // --------------------------------------------------------------- documents

  lemma BytesFieldLength(n: FieldNumber, d: Bytes)
    ensures |EncodeFields(BytesField(n, Some(d)))| == |EncodeField(LengthDelimited(n, d))|
  {
    OneFieldLength(LengthDelimited(n, d));
  }

  lemma DocumentStepGrows(m: DocumentMsg, f: UnknownField)
    ensures |SerializeDocument(DocumentStep(m, f).value)| <= |SerializeDocument(m)| + |EncodeField(f)|
  {
    DocumentSizes(m);
    DocumentSizes(DocumentStep(m, f).value);
    if f.VarintField? && f.number == 1 {
      UInt32FieldLength(1, f.varint);
    } else if f.LengthDelimited? && f.number in {2, 3} {
      BytesFieldLength(f.number, f.data);
    } else {
      AppendedLength(m.unknown, f);
    }
  }

  lemma DocumentGrows(depth: nat, m: DocumentMsg, s: Bytes)
    requires ParseDocument(depth, m, s).Some?
    ensures |SerializeDocument(ParseDocument(depth, m, s).value)| <= |SerializeDocument(m)| + |s|
  {
    var size := (m: DocumentMsg) => |SerializeDocument(m)|;
    forall m, f | DocumentStep(m, f).Some?
      ensures size(DocumentStep(m, f).value) <= size(m) + Times(false, |EncodeField(f)|)
    {
      DocumentStepGrows(m, f);
    }
    RunGrows(DocumentStep, size, f => true, false, {}, depth, m, s);
  }

  /** A document has no signed number: it is never written longer than it was read,
      and parsing what is written always gives it back. */
  lemma DocumentNormalisation(depth: nat, s: Bytes)
    requires DocumentFromArray(depth, s).Accepted?
    ensures var m := DocumentFromArray(depth, s).message;
            |SerializeDocument(m)| <= |s| && DocumentFromArray(depth, SerializeDocument(m)) == Accepted(m)
  {
    if |s| > TOTAL_BYTES_LIMIT {
      DocumentOverLimit(depth, s);
    }
    DocumentParseCanonical(depth, EMPTY_DOCUMENT, s);
    DocumentSizes(EMPTY_DOCUMENT);
    DocumentGrows(depth, EMPTY_DOCUMENT, s);
    DocumentRoundTripIff(depth, DocumentFromArray(depth, s).message);
  }
}
