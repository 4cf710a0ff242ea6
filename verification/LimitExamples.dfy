/** What goes wrong at the total bytes limit: an input that is not read again once it
    has been parsed and written back, and one of which the parser drops the end. */
module LimitExamples {
  import opened Prelude
  import opened WireFormat
  import opened MessageEngine
  import opened TotalLimit
  import opened ArrayParsing
  import opened OperationDataCodec
  import opened OperationCodec
  import opened OperationsCodec
  import opened CodecTheorems
  import opened Normalisation
  import Varint

  // -------------------------------------------- written back over the limit

  function Repeat<T>(n: nat, x: T): (s: seq<T>)
    ensures |s| == n && forall i | 0 <= i < n :: s[i] == x
  {
    seq(n, i => x)
  }

  lemma RepeatNext<T>(n: nat, x: T)
    requires n > 0
    ensures Repeat(n, x) == Repeat(n - 1, x) + [x]
  {
  }

  lemma {:induction false} RepeatedLength(n: nat, f: UnknownField, size: nat)
    requires |EncodeField(f)| == size
    ensures |EncodeFields(Repeat(n, f))| == n * size
  {
    if n > 0 {
      RepeatNext(n, f);
      RepeatedLength(n - 1, f, size);
      AppendedLength(Repeat(n - 1, f), f);
      assert (n - 1) * size + size == n * size;
    }
  }

  lemma {:induction false} RepeatedElements(n: nat, op: OperationMsg)
    ensures OperationFields(Repeat(n, op)) == Repeat(n, ElementField(op))
  {
    if n > 0 {
      RepeatNext(n, op);
      RepeatNext(n, ElementField(op));
      RepeatedElements(n - 1, op);
    }
  }

  lemma {:induction false} FoldRepeated(depth: nat, m: OperationsMsg, n: nat, data: Bytes, op: OperationMsg)
    requires depth > 0 && ParseOperation(depth - 1, EMPTY_OPERATION, data) == Some(op)
    requires m.operations == []
    ensures Fold(OperationsStep(depth), m, Repeat(n, LengthDelimited(2, data))) == Some(m.(operations := Repeat(n, op)))
  {
    if n > 0 {
      var f := LengthDelimited(2, data);
      var m' := m.(operations := Repeat(n - 1, op));
      RepeatNext(n, f);
      RepeatNext(n, op);
      FoldRepeated(depth, m, n - 1, data, op);
      FoldConcat(OperationsStep(depth), m, Repeat(n - 1, f), [f]);
      ElementAdded(depth, m', data, op);
    }
  }

  /** Data with the required members and no others. */
  function Mark(dataType: DataType, thinkness: int32): OperationDataMsg
  {
    EMPTY_DATA.(dataType := Some(dataType), thinkness := Some(thinkness))
  }

  lemma MarkLength(t: DataType, w: int32)
    ensures |SerializeData(Mark(t, w))| == 3 + |Varint.EncodeVarint(SignExtend(w))|
  {
    DataLength(Mark(t, w));
    MarkFieldsLength(t, w);
    MarkRestLength(t, w, LAST_DATA_FIELD);
  }

  lemma {:induction false} MarkRestLength(t: DataType, w: int32, n: nat)
    requires 2 <= n <= LAST_DATA_FIELD
    ensures DataSizeTo(Mark(t, w), n) == DataSizeTo(Mark(t, w), 2)
  {
    if n > 2 {
      MarkRestLength(t, w, n - 1);
      MarkRestField(t, w, n);
    }
  }

  lemma MarkRestField(t: DataType, w: int32, n: nat)
    requires n > 2
    ensures DataFieldAt(Mark(t, w), n) == []
  {
  }

  lemma MarkFieldsLength(t: DataType, w: int32)
    ensures DataSizeTo(Mark(t, w), 2) == 3 + |Varint.EncodeVarint(SignExtend(w))|
  {
    var m := Mark(t, w);
    OneFieldLength(VarintField(1, SignExtend(t)));
    OneFieldLength(VarintField(2, SignExtend(w)));
    VarintFieldLength(1, SignExtend(t));
    VarintFieldLength(2, SignExtend(w));
    assert DataSizeTo(m, 1) == DataSizeTo(m, 0) + DataFieldSize(m, 1);
  }

  /** A line whose thickness is sent as the 32-bit pattern `w`: five bytes if it is
      negative, its sign not extended. */
  function ShortData(w: uint32): Bytes
  {
    EncodeFields([VarintField(1, 0), VarintField(2, w)])
  }

  function ShortOperation(w: uint32): Bytes
  {
    EncodeFields([VarintField(1, 1), LengthDelimited(2, ShortData(w))])
  }

  /** What they are parsed as. */
  function Line(w: uint32): OperationMsg
  {
    OperationMsg(Some(1), Some(Mark(0, ToInt32(w))), [])
  }

  lemma MarkSteps(depth: nat, w: uint32)
    ensures var m := EMPTY_DATA.(dataType := Some(0));
            DataStepAt(depth, EMPTY_DATA, VarintField(1, 0)) == Some(m)
            && DataStepAt(depth, m, VarintField(2, w)) == Some(Mark(0, ToInt32(w)))
  {
  }

  lemma TwoFieldsParse(depth: nat, f: UnknownField, g: UnknownField)
    requires Writable(DATA_SUBS, depth, f) && Writable(DATA_SUBS, depth, g)
    requires DataStepAt(depth, EMPTY_DATA, f).Some?
    ensures ParseData(depth, EMPTY_DATA, EncodeFields([f, g]))
         == DataStepAt(depth, DataStepAt(depth, EMPTY_DATA, f).value, g)
  {
    RunEncoded(DataStep(depth), DATA_SUBS, depth, EMPTY_DATA, [f, g]);
    FoldTwo(DataStep(depth), EMPTY_DATA, f, g);
  }

  lemma ShortDataParses(depth: nat, w: uint32)
    ensures ParseData(depth, EMPTY_DATA, ShortData(w)) == Some(Mark(0, ToInt32(w)))
  {
    MarkSteps(depth, w);
    TwoFieldsParse(depth, VarintField(1, 0), VarintField(2, w));
  }

  lemma ShortDataLength(w: uint32)
    requires w >= TWO_31
    ensures |ShortData(w)| == 8
  {
    TwoFieldsLength(VarintField(1, 0), VarintField(2, w));
    VarintFieldLength(1, 0);
    VarintFieldLength(2, w);
    Varint.VarintSizeExact(w);
  }

  lemma FoldTwo<M>(step: (M, UnknownField) -> Option<M>, m: M, f: UnknownField, g: UnknownField)
    requires step(m, f).Some?
    ensures Fold(step, m, [f, g]) == step(step(m, f).value, g)
  {
    var m' := step(m, f).value;
    assert [f, g][1..] == [g] && [g][1..] == [];
    assert Fold(step, m, [f, g]) == Fold(step, m', [g]);
    match step(m', g)
    case None =>
    case Some(m'') => assert Fold(step, m'', []) == Some(m'');
  }

  lemma TwoFieldsLength(f: UnknownField, g: UnknownField)
    ensures |EncodeFields([f, g])| == |EncodeField(f)| + |EncodeField(g)|
  {
    assert [f, g] == [f] + [g];
    OneFieldLength(f);
    AppendedLength([f], g);
  }

  lemma NumberSetStep(depth: nat)
    ensures OperationStepAt(depth, EMPTY_OPERATION, VarintField(1, 1)) == Some(EMPTY_OPERATION.(serialNumber := Some(1)))
  {
  }

  lemma NumberedParses(depth: nat, data: Bytes, d: OperationDataMsg)
    requires depth > 0 && |data| < TWO_31 && ParseData(depth - 1, EMPTY_DATA, data) == Some(d)
    ensures ParseOperation(depth, EMPTY_OPERATION, EncodeFields([VarintField(1, 1), LengthDelimited(2, data)]))
         == Some(OperationMsg(Some(1), Some(d), []))
  {
    var first, second := VarintField(1, 1), LengthDelimited(2, data);
    RunEncoded(OperationStep(depth), OPERATION_SUBS, depth, EMPTY_OPERATION, [first, second]);
    NumberSetStep(depth);
    DataSet(depth, EMPTY_OPERATION.(serialNumber := Some(1)), data, d);
    FoldTwo(OperationStep(depth), EMPTY_OPERATION, first, second);
  }

  lemma ShortOperationParses(depth: nat, w: uint32)
    requires depth > 0 && w >= TWO_31
    ensures ParseOperation(depth, EMPTY_OPERATION, ShortOperation(w)) == Some(Line(w))
  {
    ShortDataParses(depth - 1, w);
    ShortDataLength(w);
    NumberedParses(depth, ShortData(w), Mark(0, ToInt32(w)));
  }

  lemma ShortOperationLength(w: uint32)
    requires w >= TWO_31
    ensures |ShortOperation(w)| == 12
  {
    ShortDataLength(w);
    TwoFieldsLength(VarintField(1, 1), LengthDelimited(2, ShortData(w)));
    VarintFieldLength(1, 1);
    NestedLength(2, ShortData(w));
  }

  lemma StateLength()
    ensures |EncodeFields([VarintField(1, 1)])| == 2
  {
    OneFieldLength(VarintField(1, 1));
    VarintFieldLength(1, 1);
  }

  /** Written back the number takes ten bytes, and the operation five more. */
  lemma LineLength(w: uint32)
    requires w >= TWO_31
    ensures |SerializeOperation(Line(w))| == 17
  {
    var d := Mark(0, ToInt32(w));
    MarkLength(0, ToInt32(w));
    Varint.VarintSizeExact(SignExtend(ToInt32(w)));
    OperationSizes(Line(w));
    StateLength();
    OneFieldLength(LengthDelimited(2, SerializeData(d)));
    NestedLength(2, SerializeData(d));
  }

  /** A state and `n` such elements. */
  function ShortLines(w: uint32, n: nat): Bytes
  {
    EncodeFields([VarintField(1, 1)] + Repeat(n, LengthDelimited(2, ShortOperation(w))))
  }

  function Lines(w: uint32, n: nat): OperationsMsg
  {
    OperationsMsg(Some(1), Repeat(n, Line(w)), [])
  }

  lemma StateStep(depth: nat)
    ensures Fold(OperationsStep(depth), EMPTY_OPERATIONS, [VarintField(1, 1)]) == Some(OperationsMsg(Some(1), [], []))
  {
    var first, m := VarintField(1, 1), OperationsMsg(Some(1), [], []);
    assert OperationsStepAt(depth, EMPTY_OPERATIONS, first) == Some(m);
    assert Fold(OperationsStep(depth), m, []) == Some(m);
  }

  lemma RepeatedParse(depth: nat, n: nat, data: Bytes, op: OperationMsg)
    requires depth > 0 && |data| < TWO_31 && ParseOperation(depth - 1, EMPTY_OPERATION, data) == Some(op)
    ensures ParseOperations(depth, EMPTY_OPERATIONS, EncodeFields([VarintField(1, 1)] + Repeat(n, LengthDelimited(2, data))))
         == Some(OperationsMsg(Some(1), Repeat(n, op), []))
  {
    var state, elements := [VarintField(1, 1)], Repeat(n, LengthDelimited(2, data));
    RunEncoded(OperationsStep(depth), OPERATIONS_SUBS, depth, EMPTY_OPERATIONS, state + elements);
    StateStep(depth);
    FoldConcat(OperationsStep(depth), EMPTY_OPERATIONS, state, elements);
    FoldRepeated(depth, OperationsMsg(Some(1), [], []), n, data, op);
  }

  lemma ShortLinesLength(w: uint32, n: nat)
    requires w >= TWO_31
    ensures |ShortLines(w, n)| == 2 + n * 14
  {
    var f := LengthDelimited(2, ShortOperation(w));
    ShortOperationLength(w);
    NestedLength(2, ShortOperation(w));
    RepeatedLength(n, f, 14);
    StateLength();
    EncodeFieldsConcat([VarintField(1, 1)], Repeat(n, f));
  }

  lemma LinesLength(w: uint32, n: nat)
    requires w >= TWO_31
    ensures |SerializeOperations(Lines(w, n))| == 2 + n * 19
  {
    LineLength(w);
    NestedLength(2, SerializeOperation(Line(w)));
    RepeatedElements(n, Line(w));
    RepeatedLength(n, ElementField(Line(w)), 19);
    StateLength();
    OperationsSizes(Lines(w, n));
  }

  lemma LinesInitialized(w: uint32, n: nat)
    ensures OperationsInitialized(Lines(w, n))
  {
    assert DataInitialized(Mark(0, ToInt32(w)));
  }

  lemma ShortLinesParse(depth: nat, w: uint32, n: nat)
    requires depth >= 2 && w >= TWO_31
    ensures ParseOperations(depth, EMPTY_OPERATIONS, ShortLines(w, n)) == Some(Lines(w, n))
  {
    ShortOperationParses(depth - 1, w);
    ShortOperationLength(w);
    RepeatedParse(depth, n, ShortOperation(w), Line(w));
  }

  lemma TooLong(depth: nat, m: OperationsMsg)
    requires TOTAL_BYTES_LIMIT < |SerializeOperations(m)| < TWO_31
    ensures OperationsFromArray(depth, SerializeOperations(m)) != Accepted(m)
  {
    OperationsRoundTripIff(depth, m);
  }

  /** Inputs within the limit that `ParseFromArray` accepts, with fourteen bytes an
      element: any negative thickness in five, its sign not extended. Written back in
      nineteen bytes an element their parse is over the limit, and it is not read as
      the same message again. */
  lemma WrittenBackTooLong(depth: nat, w: uint32, n: nat)
    requires depth >= 2 && w >= TWO_31 && 3532045 < n <= 4793490
    ensures var s, m := ShortLines(w, n), Lines(w, n);
      && |s| <= TOTAL_BYTES_LIMIT < |SerializeOperations(m)|
      && OperationsFromArray(depth, s) == Accepted(m) && OperationsInitialized(m)
      && OperationsFromArray(depth, SerializeOperations(m)) != Accepted(m)
  {
    ShortLinesParse(depth, w, n);
    ShortLinesLength(w, n);
    LinesLength(w, n);
    LinesInitialized(w, n);
    TooLong(depth, Lines(w, n));
  }

  // ------------------------------------------------------ closed at the limit

  /** An operation with an unknown field after its data. */
  function Filled(filling: Bytes): OperationMsg
  {
    OperationMsg(Some(1), Some(Mark(3, 1)), [LengthDelimited(3, filling)])
  }

  function FilledMessage(filling: Bytes): OperationsMsg
  {
    OperationsMsg(Some(1), [Filled(filling)], [])
  }

  lemma FilledLength(filling: Bytes)
    requires 0x20_0000 <= |filling| < 0x1000_0000
    ensures |SerializeOperation(Filled(filling))| == |filling| + 13
  {
    var op := Filled(filling);
    OperationSizes(op);
    StateLength();
    MarkLength(3, 1);
    OneFieldLength(LengthDelimited(2, SerializeData(Mark(3, 1))));
    NestedLength(2, SerializeData(Mark(3, 1)));
    OneFieldLength(LengthDelimited(3, filling));
    NestedLength(3, filling);
    Varint.VarintSizeExact(|filling|);
  }

  lemma FilledMessageLength(filling: Bytes)
    requires 0x20_0000 <= |filling| < 0xFFF_FFF0
    ensures |SerializeOperations(FilledMessage(filling))| == |filling| + 20
  {
    var op := Filled(filling);
    OperationsSizes(FilledMessage(filling));
    StateLength();
    FilledLength(filling);
    assert OperationFields([op]) == [ElementField(op)];
    OneFieldLength(ElementField(op));
    NestedLength(2, SerializeOperation(op));
    Varint.VarintSizeExact(|SerializeOperation(op)|);
  }

  lemma FilledCanonical(depth: nat, filling: Bytes)
    requires depth >= 2 && |filling| < TWO_31
    ensures OperationsCanonical(depth, FilledMessage(filling)) && OperationsInitialized(FilledMessage(filling))
  {
    assert DataCanonical(depth - 2, Mark(3, 1)) && DataInitialized(Mark(3, 1));
    assert OperationCanonical(depth - 1, Filled(filling));
  }

  /** A message of exactly 64 MiB, a state and one element, and more bytes after it:
      `ParseFromArray` takes the message and drops the bytes, the plain loop rejects
      them all. */
  lemma ClosedAtLimit(depth: nat, filling: Bytes, t: Bytes)
    requires depth >= 2 && |filling| == TOTAL_BYTES_LIMIT - 20 && t != []
    ensures var m := FilledMessage(filling);
      var s := SerializeOperations(m) + t;
      && OperationsFromArray(depth, s) == Accepted(m) && OperationsInitialized(m)
      && FromArray(OperationsStep(depth), Never, OPERATIONS_SUBS, depth, EMPTY_OPERATIONS, s) == Rejected
  {
    FilledMessageLength(filling);
    FilledCanonical(depth, filling);
    OperationsJumpsDiffer(depth, FilledMessage(filling), t);
  }

  lemma WithElement(m: OperationsMsg, op: OperationMsg)
    requires m.unknown == []
    ensures SerializeOperations(AddOperation(m, op)) == SerializeOperations(m) + EncodeFields([ElementField(op)])
  {
    var state, ops := Int32Field(1, m.avaliable), m.operations;
    assert (ops + [op])[..|ops|] == ops;
    assert state + OperationFields(ops + [op]) + [] == state + OperationFields(ops) + [] + [ElementField(op)];
    EncodeFieldsConcat(state + OperationFields(ops) + [], [ElementField(op)]);
  }

  /** So a message with one more element, over the limit when it is written, is read
      as the message without it, and nothing tells the receiver. */
  lemma ElementDropped(depth: nat, filling: Bytes, op: OperationMsg)
    requires depth >= 2 && |filling| == TOTAL_BYTES_LIMIT - 20
    ensures var m := FilledMessage(filling);
            OperationsFromArray(depth, SerializeOperations(AddOperation(m, op))) == Accepted(m) && OperationsInitialized(m)
  {
    WithElement(FilledMessage(filling), op);
    OneFieldLength(ElementField(op));
    ClosedAtLimit(depth, filling, EncodeFields([ElementField(op)]));
  }
}
