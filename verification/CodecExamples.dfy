/** Inputs whose concatenation is accepted and is not their merge. */
module CodecExamples {
  import opened Prelude
  import opened WireFormat
  import Varint
  import opened MessageEngine
  import opened TotalLimit
  import opened ArrayParsing
  import opened OperationDataCodec
  import opened OperationCodec
  import opened OperationsCodec
  import opened CodecTheorems

  const OVERRUN: Bytes := [0x12, 0x05]
  const SECOND: Bytes := [0x08, 0x01]

  /** Two bytes that announce five bytes of data and have none are an accepted
      `Operation`, and they overrun. */
  lemma OverrunExample()
    ensures OperationFromArray(2, OVERRUN) == Accepted(OperationMsg(None, Some(EMPTY_DATA), []))
    ensures Overruns(OPERATION_SUBS, 2, OVERRUN)
  {
    assert OVERRUN == [0x12, 0x05] + [];
    ExampleFields([]);
    assert ParseData(1, EMPTY_DATA, []) == Some(EMPTY_DATA);
    assert OperationStep(2)(EMPTY_OPERATION, LengthDelimited(2, [])) == Some(OperationMsg(None, Some(EMPTY_DATA), []));
  }

  /** Two more bytes, a serial number by themselves, become a data type inside
      the submessage when they are appended. */
  lemma AbsorbedExample()
    ensures OperationFromArray(2, SECOND) == Accepted(OperationMsg(Some(1), None, []))
    ensures OperationFromArray(2, OVERRUN + SECOND)
         == Accepted(OperationMsg(None, Some(EMPTY_DATA.(dataType := Some(1))), []))
  {
    ExampleFields(SECOND);
    var d := EMPTY_DATA.(dataType := Some(1));
    RunOneField(OperationStep(2), OPERATION_SUBS, 2, EMPTY_OPERATION, SECOND, VarintField(1, 1), false);
    RunOneField(DataStep(1), DATA_SUBS, 1, EMPTY_DATA, SECOND, VarintField(1, 1), false);
    assert DataInto(2, None, SECOND) == Some(d);
    RunOneField(OperationStep(2), OPERATION_SUBS, 2, EMPTY_OPERATION, OVERRUN + SECOND, LengthDelimited(2, SECOND), true);
  }

  lemma ExampleFields(t: Bytes)
    requires |t| <= 2
    ensures NextField(OPERATION_SUBS, 2, [0x12, 0x05] + t) == Found(LengthDelimited(2, t), [], true)
    ensures NextField(OPERATION_SUBS, 2, [0x08, 0x01]) == Found(VarintField(1, 1), [], false)
    ensures NextField(DATA_SUBS, 1, [0x08, 0x01]) == Found(VarintField(1, 1), [], false)
  {
    assert [0x12, 0x05] + t == [0x12] + ([0x05] + t);
    OneByteVarint(0x12, [0x05] + t);
    OneByteVarint(0x05, t);
    assert t[..|t|] == t && t[|t|..] == [];
    assert [0x08, 0x01] == [0x08] + [0x01] && [0x01] == [0x01] + [];
    OneByteVarint(0x08, [0x01]);
    OneByteVarint(0x01, []);
  }

  lemma OneByteVarint(b: byte, t: Bytes)
    requires b < 128
    ensures Varint.ReadVarint64([b] + t) == Got(b, t) && Varint.ReadVarint32([b] + t) == Got(b, t)
  {
    assert Varint.EncodeVarint(b) == [b];
    Varint.VarintRoundTrip(b, t);
    Varint.Varint32RoundTrip(b, t);
  }

  /** Field 1 as a varint. */
  function Scalar(v: byte): Bytes
  {
    [0x08, v]
  }

  /** A state, and an element that announces 127 bytes and is shorter. */
  function Unfinished(state: byte, data: Bytes): Bytes
  {
    Scalar(state) + ([0x12, 0x7F] + data)
  }

  /** The same where every required field is there, so that `ParseFromArray` accepts
      the input: the element announces more than it has. */
  lemma InitializedOverrunExample(depth: nat, state: Avaliable, op: OperationMsg)
    requires depth > 0 && OperationCanonical(depth - 1, op) && OperationInitialized(op) && |SerializeOperation(op)| <= 125
    ensures var m := OperationsMsg(Some(state), [op], []);
            OperationsFromArray(depth, Unfinished(state, SerializeOperation(op))) == Accepted(m) && OperationsInitialized(m)
  {
    OperationRoundTrip(depth - 1, op);
    UnfinishedParses(depth, state, SerializeOperation(op), op);
  }

  /** A second input that `ParseFromArray` accepts, a state by itself. Put together
      they are accepted as well, but not as their merge: that state has become the
      serial number of the first one's element. */
  lemma InitializedAbsorbedExample(depth: nat, state: Avaliable, op: OperationMsg, next: Avaliable)
    requires depth > 0 && OperationCanonical(depth - 1, op) && OperationInitialized(op) && |SerializeOperation(op)| <= 125
    ensures OperationsFromArray(depth, Scalar(next)) == Accepted(OperationsMsg(Some(next), [], []))
    ensures OperationsInitialized(OperationsMsg(Some(next), [], []))
    ensures var m := OperationsMsg(Some(state), [op.(serialNumber := Some(next))], []);
            OperationsFromArray(depth, Unfinished(state, SerializeOperation(op)) + Scalar(next)) == Accepted(m)
            && OperationsInitialized(m)
  {
    var data := SerializeOperation(op);
    StateParses(depth, next);
    NumberedParses(depth - 1, op, next);
    UnfinishedParses(depth, state, data + Scalar(next), op.(serialNumber := Some(next)));
    assert Unfinished(state, data) + Scalar(next) == Unfinished(state, data + Scalar(next));
  }

  lemma OneField(v: byte, t: Bytes, subs: set<nat>, depth: nat)
    requires v < 128
    ensures NextField(subs, depth, Scalar(v) + t) == Found(VarintField(1, v), t, false)
  {
    assert Varint.EncodeVarint(0x08) == [0x08] && Varint.EncodeVarint(v) == [v];
    assert EncodeField(VarintField(1, v)) == Scalar(v);
    NextFieldEncoded(subs, depth, VarintField(1, v), t);
  }

  lemma StateParses(depth: nat, v: Avaliable)
    ensures ParseOperations(depth, EMPTY_OPERATIONS, Scalar(v)) == Some(OperationsMsg(Some(v), [], []))
  {
    OneField(v, [], OPERATIONS_SUBS, depth);
    assert Scalar(v) + [] == Scalar(v);
    RunOneField(OperationsStep(depth), OPERATIONS_SUBS, depth, EMPTY_OPERATIONS, Scalar(v), VarintField(1, v), false);
    assert OperationsStepAt(depth, EMPTY_OPERATIONS, VarintField(1, v)) == Some(OperationsMsg(Some(v), [], []));
  }

  lemma NumberParses(depth: nat, op: OperationMsg, v: byte)
    requires v < 128
    ensures ParseOperation(depth, op, Scalar(v)) == Some(op.(serialNumber := Some(v)))
  {
    OneField(v, [], OPERATION_SUBS, depth);
    assert Scalar(v) + [] == Scalar(v);
    RunOneField(OperationStep(depth), OPERATION_SUBS, depth, op, Scalar(v), VarintField(1, v), false);
    assert OperationStepAt(depth, op, VarintField(1, v)) == Some(op.(serialNumber := Some(v)));
  }

  /** A serial number after a serialized operation replaces its own. */
  lemma NumberedParses(depth: nat, op: OperationMsg, v: byte)
    requires OperationCanonical(depth, op) && |SerializeOperation(op)| < TWO_31 && v < 128
    ensures ParseOperation(depth, EMPTY_OPERATION, SerializeOperation(op) + Scalar(v))
         == Some(op.(serialNumber := Some(v)))
  {
    OperationWritable(depth, op);
    EncodedEnds(OPERATION_SUBS, depth, UInt32Field(1, op.serialNumber) + DataField(op.data) + op.unknown);
    OperationRoundTrip(depth, op);
    RunConcat(OperationStep(depth), OPERATION_SUBS, depth, EMPTY_OPERATION, SerializeOperation(op), Scalar(v));
    NumberParses(depth, op, v);
  }

  lemma UnfinishedParses(depth: nat, state: Avaliable, data: Bytes, op: OperationMsg)
    requires depth > 0 && |data| <= 127 && ParseOperation(depth - 1, EMPTY_OPERATION, data) == Some(op)
    ensures ParseOperations(depth, EMPTY_OPERATIONS, Unfinished(state, data)) == Some(OperationsMsg(Some(state), [op], []))
  {
    var first := OperationsMsg(Some(state), [], []);
    assert first.operations + [op] == [op];
    ElementParses(depth, first, data, op);
    AfterState(depth, state, [0x12, 0x7F] + data, AddOperation(first, op));
  }

  lemma AfterState(depth: nat, state: Avaliable, t: Bytes, m: OperationsMsg)
    requires ParseOperations(depth, OperationsMsg(Some(state), [], []), t) == Some(m)
    ensures ParseOperations(depth, EMPTY_OPERATIONS, Scalar(state) + t) == Some(m)
  {
    StateParses(depth, state);
    ScalarEnds(depth, state);
    RunConcat(OperationsStep(depth), OPERATIONS_SUBS, depth, EMPTY_OPERATIONS, Scalar(state), t);
  }

  lemma ScalarEnds(depth: nat, v: byte)
    requires v < 128
    ensures !Overruns(OPERATIONS_SUBS, depth, Scalar(v))
  {
    OneField(v, [], OPERATIONS_SUBS, depth);
    assert Scalar(v) + [] == Scalar(v);
  }

  lemma ElementParses(depth: nat, m: OperationsMsg, data: Bytes, op: OperationMsg)
    requires depth > 0 && |data| <= 127 && ParseOperation(depth - 1, EMPTY_OPERATION, data) == Some(op)
    ensures ParseOperations(depth, m, [0x12, 0x7F] + data) == Some(AddOperation(m, op))
  {
    UnfinishedElement(depth, data);
    RunOneField(OperationsStep(depth), OPERATIONS_SUBS, depth, m, [0x12, 0x7F] + data, LengthDelimited(2, data),
                |data| < 127);
    assert OperationsStepAt(depth, m, LengthDelimited(2, data)) == Some(AddOperation(m, op));
  }

  lemma UnfinishedElement(depth: nat, data: Bytes)
    requires depth > 0 && |data| <= 127
    ensures NextField(OPERATIONS_SUBS, depth, [0x12, 0x7F] + data) == Found(LengthDelimited(2, data), [], |data| < 127)
  {
    assert [0x12, 0x7F] + data == [0x12] + ([0x7F] + data);
    OneByteVarint(0x12, [0x7F] + data);
    UnfinishedData(data);
  }

  lemma UnfinishedData(data: Bytes)
    requires |data| <= 127
    ensures CutSubmessage([0x7F] + data) == Got((data, 127), [])
  {
    OneByteVarint(0x7F, data);
    assert data[..|data|] == data && data[|data|..] == [];
  }
}
