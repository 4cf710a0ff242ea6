/** Values of `Operations`, the message the clients exchange, and their wire form. */
module OperationsCodec {
  import opened Prelude
  import opened WireFormat
  import opened MessageEngine
  import opened TotalLimit
  import opened OperationCodec
  import Varint

  /** NOT_AVALIABLE, LOAD_DOCUMENT, AVALIBLE. */
  type Avaliable = n: int32 | 1 <= n <= 3 witness 1

  function AvaliableIsValid(v: int32): bool
  {
    1 <= v <= 3
  }

  datatype OperationsMsg = OperationsMsg(
    avaliable: Option<Avaliable>, operations: seq<OperationMsg>, unknown: seq<UnknownField>)

  const EMPTY_OPERATIONS := OperationsMsg(None, [], [])

  const OPERATIONS_SUBS: set<nat> := {2}

  function AvaliableStep(m: OperationsMsg, v: int32): OperationsMsg
  {
    if AvaliableIsValid(v) then m.(avaliable := Some(v))
    else m.(unknown := m.unknown + [VarintField(1, SignExtend(v))])
  }

  /** The cases of `Operations::MergePartialFromCodedStream`. */
  function OperationsStepAt(depth: nat, m: OperationsMsg, f: UnknownField): Option<OperationsMsg>
  {
    match f
    case VarintField(1, v) => Some(AvaliableStep(m, ToInt32(v % TWO_32)))
    case LengthDelimited(2, data) =>
      if depth == 0 then None else (
      match ParseOperation(depth - 1, EMPTY_OPERATION, data)
      case None => None
      case Some(op) => Some(m.(operations := m.operations + [op])))
    case _ => Some(m.(unknown := m.unknown + [f]))
  }

  function OperationsStep(depth: nat): (OperationsMsg, UnknownField) -> Option<OperationsMsg>
  {
    (m, f) => OperationsStepAt(depth, m, f)
  }

  function ParseOperations(depth: nat, m: OperationsMsg, s: Bytes): Option<OperationsMsg>
  {
    Run(OperationsStep(depth), OPERATIONS_SUBS, depth, m, s)
  }

  /** The case of `operations` ends in `ExpectAtEnd`. */
  function OperationsClosesAt(depth: nat, f: UnknownField, short: bool): bool
  {
    f.LengthDelimited? && f.number == 2
    && (short && depth > 0 ==> LastCloses(OperationCloses(depth - 1), OPERATION_SUBS, depth - 1, f.data))
  }

  function OperationsCloses(depth: nat): (UnknownField, bool) -> bool
  {
    (f, short) => OperationsClosesAt(depth, f, short)
  }

  /** The parse up to an end of the given kind. */
  function ParseOperationsTo(depth: nat, m: OperationsMsg, s: Bytes, end: End): Outcome<OperationsMsg>
  {
    RunTo(OperationsStep(depth), OperationsCloses(depth), OPERATIONS_SUBS, depth, m, s, end)
  }

  /** `ParseFromArray` but for the required fields. */
  function OperationsFromArray(depth: nat, s: Bytes): Outcome<OperationsMsg>
  {
    ParseOperationsTo(depth, EMPTY_OPERATIONS, s, EndOf(s))
  }

  function OperationsOnward(depth: nat, m: OperationsMsg, rest: Bytes, end: End, closed: bool): Outcome<OperationsMsg>
  {
    Onward(OperationsStep(depth), OperationsCloses(depth), OPERATIONS_SUBS, depth, m, rest, end, closed)
  }

  // What a turn of the loop does for each way a field can be read.

  lemma AvaliableTurn(depth: nat, m: OperationsMsg, s: Bytes, end: End, body: Bytes)
    requires Varint.ReadVarint32(s) == Got(MakeTag(1, WIRETYPE_VARINT), body)
    ensures match Varint.ReadVarint32(body)
            case Fail => ParseOperationsTo(depth, m, s, end) == Rejected
            case Got(v, rest) =>
              ParseOperationsTo(depth, m, s, end) == OperationsOnward(depth, AvaliableStep(m, ToInt32(v)), rest, end, false)
  {
    VarintNext(OPERATIONS_SUBS, depth, s, 1, body);
    var v := if Varint.ReadVarint32(body).Got? then Varint.ReadVarint32(body).value else 0;
    FieldTurn(OperationsStep(depth), OperationsCloses(depth), OPERATIONS_SUBS, depth, m, s, end,
              AvaliableStep(m, ToInt32(v)));
  }

  function AddOperation(m: OperationsMsg, op: OperationMsg): OperationsMsg
  {
    m.(operations := m.operations + [op])
  }

  lemma ElementNests(depth: nat, m: OperationsMsg, data: Bytes, put: OperationMsg -> OperationsMsg)
    requires forall op :: put(op) == AddOperation(m, op)
    ensures StepNests(OperationsStep(depth), OperationStep(if depth == 0 then 0 else depth - 1), OPERATION_SUBS, put,
                      depth, m, EMPTY_OPERATION, 2, data)
  {
    if depth > 0 && ParseOperation(depth - 1, EMPTY_OPERATION, data).Some? {
      var op := ParseOperation(depth - 1, EMPTY_OPERATION, data).value;
      assert put(op) == AddOperation(m, op);
    }
  }

  lemma ElementClosesNests(depth: nat, data: Bytes, short: bool)
    ensures ClosesNests(OperationsCloses(depth), OperationCloses(if depth == 0 then 0 else depth - 1), OPERATION_SUBS,
                        true, depth, 2, data, short)
  {
  }

  lemma ElementTurn(depth: nat, m: OperationsMsg, s: Bytes, end: End, body: Bytes)
    requires Varint.ReadVarint32(s) == Got(MakeTag(2, WIRETYPE_LENGTH_DELIMITED), body)
    ensures var read := ReadOperationTo(depth, EMPTY_OPERATION, Enter(depth, body, end));
      ParseOperationsTo(depth, m, s, end)
      == if Breaks(depth, body, end) then Undefined
         else if read.Accepted?
         then OperationsOnward(depth, AddOperation(m, read.message.0), read.message.1, SettledEnd(end), true)
         else Rejected
  {
    var below := if depth == 0 then 0 else depth - 1;
    var put := op => AddOperation(m, op);
    forall data
      ensures StepNests(OperationsStep(depth), OperationStep(below), OPERATION_SUBS, put, depth, m, EMPTY_OPERATION, 2, data)
    {
      ElementNests(depth, m, data, put);
    }
    forall data, short
      ensures ClosesNests(OperationsCloses(depth), OperationCloses(below), OPERATION_SUBS, true, depth, 2, data, short)
    {
      ElementClosesNests(depth, data, short);
    }
    NestedTurn(OperationsStep(depth), OperationsCloses(depth), OPERATIONS_SUBS, OperationStep(below),
               OperationCloses(below), OPERATION_SUBS, put, true, depth, m, EMPTY_OPERATION, s, end, 2, body);
  }

  lemma OperationsStop(depth: nat, m: OperationsMsg, s: Bytes, end: End)
    requires s == [] || Varint.ReadVarint32(s).Fail? || Varint.ReadVarint32(s).value == 0
             || TagWireType(Varint.ReadVarint32(s).value) == WIRETYPE_END_GROUP
    ensures ParseOperationsTo(depth, m, s, end) == Ended(s == [] && end.Legit?, false, m)
  {
    StopTurn(OperationsStep(depth), OperationsCloses(depth), OPERATIONS_SUBS, depth, m, s, end);
  }

  function OperationsAddUnknown(m: OperationsMsg, f: UnknownField): OperationsMsg
  {
    m.(unknown := m.unknown + [f])
  }

  lemma OperationsSkipTurn(depth: nat, m: OperationsMsg, s: Bytes, end: End, tag: uint32, body: Bytes)
    requires Varint.ReadVarint32(s) == Got(tag, body) && tag !in {0, 8, 18} && TagWireType(tag) != WIRETYPE_END_GROUP
    ensures match SkipField(depth, tag, body)
            case Fail => ParseOperationsTo(depth, m, s, end) == Rejected
            case Got(f, rest) =>
              ParseOperationsTo(depth, m, s, end) == OperationsOnward(depth, OperationsAddUnknown(m, f), rest, end, false)
  {
    SkippedNext(OPERATIONS_SUBS, depth, s, tag, body);
    var skipped := SkipField(depth, tag, body);
    FieldTurn(OperationsStep(depth), OperationsCloses(depth), OPERATIONS_SUBS, depth, m, s, end,
              if skipped.Got? then OperationsAddUnknown(m, skipped.value) else m);
  }

  function MergeOperations(a: OperationsMsg, b: OperationsMsg): OperationsMsg
  {
    OperationsMsg(Later(a.avaliable, b.avaliable), a.operations + b.operations, a.unknown + b.unknown)
  }

  function OperationFields(ops: seq<OperationMsg>): seq<UnknownField>
  {
    if ops == [] then [] else OperationFields(ops[..|ops| - 1]) + [LengthDelimited(2, SerializeOperation(ops[|ops| - 1]))]
  }

  function SerializeOperations(m: OperationsMsg): Bytes
  {
    EncodeFields(Int32Field(1, m.avaliable) + OperationFields(m.operations) + m.unknown)
  }

  function ElementField(op: OperationMsg): UnknownField
  {
    LengthDelimited(2, SerializeOperation(op))
  }

  /** How the elements' wire form grows, element by element. */
  lemma OperationFieldsNext(ops: seq<OperationMsg>, i: nat)
    requires i < |ops|
    ensures OperationFields(ops[..i + 1]) == OperationFields(ops[..i]) + [ElementField(ops[i])]
    ensures |EncodeFields(OperationFields(ops[..i + 1]))|
         == |EncodeFields(OperationFields(ops[..i]))| + |EncodeFields([ElementField(ops[i])])|
  {
    assert ops[..i + 1][..i] == ops[..i];
    EncodeFieldsConcat(OperationFields(ops[..i]), [ElementField(ops[i])]);
  }

  lemma {:induction false} OperationFieldsPrefix(ops: seq<OperationMsg>, i: nat)
    requires i <= |ops|
    ensures |EncodeFields(OperationFields(ops[..i]))| <= |EncodeFields(OperationFields(ops))|
    decreases |ops| - i
  {
    if i < |ops| {
      OperationFieldsPrefix(ops, i + 1);
      OperationFieldsNext(ops, i);
    } else {
      assert ops[..i] == ops;
    }
  }

  /** An element is no longer than its list, which is no longer than the message. */
  lemma OperationsSizes(m: OperationsMsg)
    ensures |SerializeOperations(m)|
         == |EncodeFields(Int32Field(1, m.avaliable))| + |EncodeFields(OperationFields(m.operations))|
          + |EncodeFields(m.unknown)|
    ensures EncodeFields(Int32Field(1, m.avaliable) + OperationFields(m.operations))
         == EncodeFields(Int32Field(1, m.avaliable)) + EncodeFields(OperationFields(m.operations))
  {
    EncodeFieldsConcat(Int32Field(1, m.avaliable) + OperationFields(m.operations), m.unknown);
    EncodeFieldsConcat(Int32Field(1, m.avaliable), OperationFields(m.operations));
  }

  lemma ElementsFit(ops: seq<OperationMsg>, i: nat)
    requires i < |ops|
    ensures |SerializeOperation(ops[i])| <= |EncodeFields(OperationFields(ops))|
  {
    OperationFieldsMembers(ops);
    EncodeFieldsBound(OperationFields(ops), LengthDelimited(2, SerializeOperation(ops[i])));
  }

  predicate OperationsInitialized(m: OperationsMsg)
  {
    m.avaliable.Some? && forall op | op in m.operations :: OperationInitialized(op)
  }

  /** A field the parser files under the unknown ones, unchanged. */
  predicate OperationsKeeps(depth: nat, f: UnknownField)
  {
    && Wire(depth, f)
    && !IsSubmessage(OPERATIONS_SUBS, f)
    && match f
       case VarintField(1, v) => !AvaliableIsValid(ToInt32(v % TWO_32)) && v == SignExtend(ToInt32(v % TWO_32))
       case _ => true
  }

  predicate OperationsCanonical(depth: nat, m: OperationsMsg)
  {
    && (forall f | f in m.unknown :: OperationsKeeps(depth, f))
    && (m.operations != [] ==> depth > 0)
    && (forall op | op in m.operations :: OperationCanonical(depth - 1, op))
  }

  lemma OperationsMergeUnit(m: OperationsMsg)
    ensures MergeOperations(m, EMPTY_OPERATIONS) == m && MergeOperations(EMPTY_OPERATIONS, m) == m
  {
  }

  lemma OperationsMergeAssociative(a: OperationsMsg, b: OperationsMsg, c: OperationsMsg)
    ensures MergeOperations(MergeOperations(a, b), c) == MergeOperations(a, MergeOperations(b, c))
  {
  }

  lemma OperationsStepMerges(depth: nat, a: OperationsMsg, b: OperationsMsg, f: UnknownField)
    ensures OperationsStepAt(depth, MergeOperations(a, b), f)
         == match OperationsStepAt(depth, b, f) case None => None case Some(b') => Some(MergeOperations(a, b'))
  {
    if IsSubmessage(OPERATIONS_SUBS, f) {
      if depth > 0 && ParseOperation(depth - 1, EMPTY_OPERATION, f.data).Some? {
        var op := ParseOperation(depth - 1, EMPTY_OPERATION, f.data).value;
        assert a.operations + (b.operations + [op]) == a.operations + b.operations + [op];
      }
    } else {
      var g := if f.VarintField? && f.number == 1 then VarintField(1, SignExtend(ToInt32(f.varint % TWO_32))) else f;
      assert a.unknown + (b.unknown + [g]) == a.unknown + b.unknown + [g];
    }
  }

  lemma OperationsParseMerges(depth: nat, a: OperationsMsg, b: OperationsMsg, s: Bytes)
    ensures ParseOperations(depth, MergeOperations(a, b), s)
         == match ParseOperations(depth, b, s) case None => None case Some(b') => Some(MergeOperations(a, b'))
  {
    forall a, b, f
      ensures OperationsStep(depth)(MergeOperations(a, b), f)
           == match OperationsStep(depth)(b, f) case None => None case Some(b') => Some(MergeOperations(a, b'))
    {
      OperationsStepMerges(depth, a, b, f);
    }
    RunMerge(OperationsStep(depth), MergeOperations, OPERATIONS_SUBS, depth, a, b, s);
  }

  lemma OperationsElementCanonical(depth: nat, m: OperationsMsg, data: Bytes)
    requires OperationsCanonical(depth, m) && OperationsStepAt(depth, m, LengthDelimited(2, data)).Some?
    ensures OperationsCanonical(depth, OperationsStepAt(depth, m, LengthDelimited(2, data)).value)
  {
    assert OperationCanonical(depth - 1, EMPTY_OPERATION);
    OperationParseCanonical(depth - 1, EMPTY_OPERATION, data);
  }

  lemma OperationsStepCanonical(depth: nat, m: OperationsMsg, f: UnknownField)
    requires OperationsCanonical(depth, m) && Readable(OPERATIONS_SUBS, depth, f)
    requires OperationsStepAt(depth, m, f).Some?
    ensures OperationsCanonical(depth, OperationsStepAt(depth, m, f).value)
  {
    if IsSubmessage(OPERATIONS_SUBS, f) {
      OperationsElementCanonical(depth, m, f.data);
    } else if f.VarintField? && f.number == 1 {
      SignExtendRoundTrip(ToInt32(f.varint % TWO_32));
    } else {
      assert OperationsKeeps(depth, f);
    }
  }

  lemma OperationsParseCanonical(depth: nat, m: OperationsMsg, s: Bytes)
    requires OperationsCanonical(depth, m) && ParseOperations(depth, m, s).Some?
    ensures OperationsCanonical(depth, ParseOperations(depth, m, s).value)
  {
    forall m, f | OperationsCanonical(depth, m) && Readable(OPERATIONS_SUBS, depth, f) && OperationsStep(depth)(m, f).Some?
      ensures OperationsCanonical(depth, OperationsStep(depth)(m, f).value)
    {
      OperationsStepCanonical(depth, m, f);
    }
    RunKeeps(OperationsStep(depth), m => OperationsCanonical(depth, m), OPERATIONS_SUBS, depth, m, s);
  }

  lemma {:induction false} OperationsFoldUnknown(depth: nat, m: OperationsMsg, fs: seq<UnknownField>)
    requires forall f | f in fs :: OperationsKeeps(depth, f)
    ensures Fold(OperationsStep(depth), m, fs) == Some(m.(unknown := m.unknown + fs))
    decreases fs
  {
    if fs == [] {
      assert m.unknown + fs == m.unknown;
    } else {
      assert fs[0] in fs;
      var m' := m.(unknown := m.unknown + [fs[0]]);
      assert OperationsStep(depth)(m, fs[0]) == Some(m');
      OperationsFoldUnknown(depth, m', fs[1..]);
      assert m.unknown + fs == m.unknown + [fs[0]] + fs[1..];
    }
  }

  lemma OperationElementReads(depth: nat, m: OperationsMsg, op: OperationMsg)
    requires depth > 0 && OperationCanonical(depth - 1, op) && |SerializeOperation(op)| < TWO_31
    ensures Fold(OperationsStep(depth), m, [LengthDelimited(2, SerializeOperation(op))])
         == Some(m.(operations := m.operations + [op]))
  {
    OperationRoundTrip(depth - 1, op);
    ElementAdded(depth, m, SerializeOperation(op), op);
  }

  lemma ElementAdded(depth: nat, m: OperationsMsg, data: Bytes, op: OperationMsg)
    requires depth > 0 && ParseOperation(depth - 1, EMPTY_OPERATION, data) == Some(op)
    ensures Fold(OperationsStep(depth), m, [LengthDelimited(2, data)]) == Some(AddOperation(m, op))
  {
    FoldOne(OperationsStep(depth), m, LengthDelimited(2, data));
  }

  lemma OperationsFoldLast(depth: nat, m: OperationsMsg, front: seq<OperationMsg>, op: OperationMsg)
    requires depth > 0 && OperationCanonical(depth - 1, op) && |SerializeOperation(op)| < TWO_31
    requires Fold(OperationsStep(depth), m, OperationFields(front)) == Some(m.(operations := front))
    ensures Fold(OperationsStep(depth), m, OperationFields(front + [op])) == Some(m.(operations := front + [op]))
  {
    var last := [ElementField(op)];
    assert (front + [op])[..|front|] == front;
    assert OperationFields(front + [op]) == OperationFields(front) + last;
    FoldConcat(OperationsStep(depth), m, OperationFields(front), last);
    OperationElementReads(depth, m.(operations := front), op);
  }

  /** A list whose elements are all read back as they were written. */
  predicate ElementsRead(depth: nat, ops: seq<OperationMsg>)
  {
    && (ops != [] ==> depth > 0)
    && forall op | op in ops :: OperationCanonical(depth - 1, op) && |SerializeOperation(op)| < TWO_31
  }

  lemma ElementReads(depth: nat, ops: seq<OperationMsg>, i: nat)
    requires ElementsRead(depth, ops) && i < |ops|
    ensures ops[..i + 1] == ops[..i] + [ops[i]]
    ensures depth > 0 && OperationCanonical(depth - 1, ops[i]) && |SerializeOperation(ops[i])| < TWO_31
  {
    assert ops[i] in ops;
  }

  /** Every element is read back in place. */
  lemma {:induction false} OperationsFoldElements(depth: nat, m: OperationsMsg, ops: seq<OperationMsg>, n: nat)
    requires ElementsRead(depth, ops) && m.operations == [] && n <= |ops|
    ensures Fold(OperationsStep(depth), m, OperationFields(ops[..n])) == Some(m.(operations := ops[..n]))
  {
    if n == 0 {
      assert m.(operations := ops[..0]) == m;
    } else {
      OperationsFoldElements(depth, m, ops, n - 1);
      ElementReads(depth, ops, n - 1);
      OperationsFoldLast(depth, m, ops[..n - 1], ops[n - 1]);
    }
  }

  lemma {:induction false} OperationFieldsMembers(ops: seq<OperationMsg>)
    ensures forall op | op in ops :: LengthDelimited(2, SerializeOperation(op)) in OperationFields(ops)
    ensures forall f | f in OperationFields(ops) ::
              exists op :: op in ops && f == LengthDelimited(2, SerializeOperation(op))
  {
    if ops != [] {
      OperationFieldsMembers(ops[..|ops| - 1]);
    }
  }

  lemma OperationsFoldKnown(depth: nat, m: OperationsMsg)
    requires OperationsCanonical(depth, m) && ElementsRead(depth, m.operations)
    ensures Fold(OperationsStep(depth), EMPTY_OPERATIONS, Int32Field(1, m.avaliable) + OperationFields(m.operations))
         == Some(m.(unknown := []))
  {
    var first := EMPTY_OPERATIONS.(avaliable := m.avaliable);
    FoldConcat(OperationsStep(depth), EMPTY_OPERATIONS, Int32Field(1, m.avaliable), OperationFields(m.operations));
    if m.avaliable.Some? {
      SignExtendRoundTrip(m.avaliable.value);
    }
    assert Fold(OperationsStep(depth), EMPTY_OPERATIONS, Int32Field(1, m.avaliable)) == Some(first);
    OperationsFoldElements(depth, first, m.operations, |m.operations|);
    assert m.operations[..|m.operations|] == m.operations;
  }

  lemma OperationsWritable(depth: nat, m: OperationsMsg)
    requires OperationsCanonical(depth, m) && |SerializeOperations(m)| < TWO_31
    ensures ElementsRead(depth, m.operations)
    ensures forall f | f in Int32Field(1, m.avaliable) + OperationFields(m.operations) + m.unknown ::
              Writable(OPERATIONS_SUBS, depth, f)
  {
    OperationFieldsMembers(m.operations);
    var all := Int32Field(1, m.avaliable) + OperationFields(m.operations) + m.unknown;
    forall op | op in m.operations
      ensures |SerializeOperation(op)| < TWO_31
    {
      EncodeFieldsBound(all, LengthDelimited(2, SerializeOperation(op)));
    }
  }

  lemma OperationsRoundTrip(depth: nat, m: OperationsMsg)
    requires OperationsCanonical(depth, m) && |SerializeOperations(m)| < TWO_31
    ensures ParseOperations(depth, EMPTY_OPERATIONS, SerializeOperations(m)) == Some(m)
  {
    var known := Int32Field(1, m.avaliable) + OperationFields(m.operations);
    OperationsWritable(depth, m);
    RunEncoded(OperationsStep(depth), OPERATIONS_SUBS, depth, EMPTY_OPERATIONS, known + m.unknown);
    FoldConcat(OperationsStep(depth), EMPTY_OPERATIONS, known, m.unknown);
    OperationsFoldKnown(depth, m);
    OperationsFoldUnknown(depth, m.(unknown := []), m.unknown);
    assert [] + m.unknown == m.unknown;
  }
}
