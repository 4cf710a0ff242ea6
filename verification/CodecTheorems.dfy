/** What the wire codec promises, for every message of the whiteboard protocol and
    every array. */
module CodecTheorems {
  import opened Prelude
  import opened WireFormat
  import Varint
  import opened MessageEngine
  import opened TotalLimit
  import opened ArrayParsing
  import opened PointCodec
  import opened OperationDataCodec
  import opened OperationCodec
  import opened OperationsCodec
  import opened DocumentCodec

  // ------------------------------------------ concatenation parses as merge

  /** The message that the probe alone parses as. */
  const OPERATIONS_PROBE := EMPTY_OPERATIONS.(unknown := [LengthDelimited(1, [])])

  lemma OperationsProbes(depth: nat)
    ensures StepMerges(OperationsStep(depth), MergeOperations)
    ensures forall a :: MergeOperations(a, EMPTY_OPERATIONS) == a
    ensures Probes(OperationsStep(depth), MergeOperations, EMPTY_OPERATIONS, OPERATIONS_PROBE,
                   (m: OperationsMsg) => |m.unknown|, OPERATIONS_SUBS)
  {
    forall a, b, f
      ensures OperationsStep(depth)(MergeOperations(a, b), f)
           == match OperationsStep(depth)(b, f) case None => None case Some(b') => Some(MergeOperations(a, b'))
    {
      OperationsStepMerges(depth, a, b, f);
    }
    forall a
      ensures MergeOperations(a, EMPTY_OPERATIONS) == a
    {
      OperationsMergeUnit(a);
    }
    forall m, f | IsSubmessage(OPERATIONS_SUBS, f) && OperationsStep(depth)(m, f).Some?
      ensures |OperationsStep(depth)(m, f).value.unknown| == |m.unknown|
    {
      assert OperationsStep(depth)(m, f) == OperationsStepAt(depth, m, f);
    }
    var f := LengthDelimited(1, []);
    assert EMPTY_OPERATIONS.unknown + [f] == [f];
    assert OperationsStep(depth)(EMPTY_OPERATIONS, f) == OperationsStepAt(depth, EMPTY_OPERATIONS, f);
  }

  /** Appending any accepted input to an accepted `s`, within the limit, parses as
      the merge of the two messages exactly when the last field of `s` is not a
      submessage that runs past the end of `s`; or when no room is left. */
  lemma OperationsConcatIff(depth: nat, s: Bytes)
    requires |s| <= TOTAL_BYTES_LIMIT && OperationsFromArray(depth, s).Accepted?
    ensures (!Overruns(OPERATIONS_SUBS, depth, s) || |s| + |PROBE| > TOTAL_BYTES_LIMIT) <==>
      forall t {:trigger s + t} | |s + t| <= TOTAL_BYTES_LIMIT && OperationsFromArray(depth, t).Accepted? ::
        OperationsFromArray(depth, s + t)
        == Accepted(MergeOperations(OperationsFromArray(depth, s).message, OperationsFromArray(depth, t).message))
  {
    OperationsProbes(depth);
    ConcatIff(OperationsStep(depth), MergeOperations, EMPTY_OPERATIONS, OPERATIONS_PROBE,
              (m: OperationsMsg) => |m.unknown|, OPERATIONS_SUBS, depth, s);
    forall t | |s + t| <= TOTAL_BYTES_LIMIT
      ensures OperationsFromArray(depth, t) == ToOutcome(ParseOperations(depth, EMPTY_OPERATIONS, t))
      ensures OperationsFromArray(depth, s + t) == ToOutcome(ParseOperations(depth, EMPTY_OPERATIONS, s + t))
    {
    }
  }

  /** The message that the probe alone parses as. */
  const OPERATION_PROBE := EMPTY_OPERATION.(unknown := [LengthDelimited(1, [])])

  lemma OperationProbes(depth: nat)
    ensures StepMerges(OperationStep(depth), MergeOperation)
    ensures forall a :: MergeOperation(a, EMPTY_OPERATION) == a
    ensures Probes(OperationStep(depth), MergeOperation, EMPTY_OPERATION, OPERATION_PROBE,
                   (m: OperationMsg) => |m.unknown|, OPERATION_SUBS)
  {
    forall a, b, f
      ensures OperationStep(depth)(MergeOperation(a, b), f)
           == match OperationStep(depth)(b, f) case None => None case Some(b') => Some(MergeOperation(a, b'))
    {
      OperationStepMerges(depth, a, b, f);
    }
    forall a
      ensures MergeOperation(a, EMPTY_OPERATION) == a
    {
      OperationMergeUnit(a);
    }
    forall m, f | IsSubmessage(OPERATION_SUBS, f) && OperationStep(depth)(m, f).Some?
      ensures |OperationStep(depth)(m, f).value.unknown| == |m.unknown|
    {
      assert OperationStep(depth)(m, f) == OperationStepAt(depth, m, f);
    }
    var f := LengthDelimited(1, []);
    assert EMPTY_OPERATION.unknown + [f] == [f];
    assert OperationStep(depth)(EMPTY_OPERATION, f) == OperationStepAt(depth, EMPTY_OPERATION, f);
  }

  lemma OperationConcatIff(depth: nat, s: Bytes)
    requires |s| <= TOTAL_BYTES_LIMIT && OperationFromArray(depth, s).Accepted?
    ensures (!Overruns(OPERATION_SUBS, depth, s) || |s| + |PROBE| > TOTAL_BYTES_LIMIT) <==>
      forall t {:trigger s + t} | |s + t| <= TOTAL_BYTES_LIMIT && OperationFromArray(depth, t).Accepted? ::
        OperationFromArray(depth, s + t)
        == Accepted(MergeOperation(OperationFromArray(depth, s).message, OperationFromArray(depth, t).message))
  {
    OperationProbes(depth);
    ConcatIff(OperationStep(depth), MergeOperation, EMPTY_OPERATION, OPERATION_PROBE,
              (m: OperationMsg) => |m.unknown|, OPERATION_SUBS, depth, s);
    forall t | |s + t| <= TOTAL_BYTES_LIMIT
      ensures OperationFromArray(depth, t) == ToOutcome(ParseOperation(depth, EMPTY_OPERATION, t))
      ensures OperationFromArray(depth, s + t) == ToOutcome(ParseOperation(depth, EMPTY_OPERATION, s + t))
    {
    }
  }

  /** The message that the probe alone parses as. */
  const DATA_PROBE := EMPTY_DATA.(unknown := [LengthDelimited(1, [])])

  lemma DataProbes(depth: nat)
    ensures StepMerges(DataStep(depth), MergeData)
    ensures forall a :: MergeData(a, EMPTY_DATA) == a
    ensures Probes(DataStep(depth), MergeData, EMPTY_DATA, DATA_PROBE,
                   (m: OperationDataMsg) => |m.unknown|, DATA_SUBS)
  {
    forall a, b, f
      ensures DataStep(depth)(MergeData(a, b), f)
           == match DataStep(depth)(b, f) case None => None case Some(b') => Some(MergeData(a, b'))
    {
      DataStepMerges(depth, a, b, f);
    }
    forall a
      ensures MergeData(a, EMPTY_DATA) == a
    {
      DataMergeUnit(a);
    }
    forall m, f | IsSubmessage(DATA_SUBS, f) && DataStep(depth)(m, f).Some?
      ensures |DataStep(depth)(m, f).value.unknown| == |m.unknown|
    {
      assert DataStep(depth)(m, f) == DataStepAt(depth, m, f);
    }
    var f := LengthDelimited(1, []);
    assert EMPTY_DATA.unknown + [f] == [f];
    assert DataStep(depth)(EMPTY_DATA, f) == DataStepAt(depth, EMPTY_DATA, f);
  }

  lemma DataConcatIff(depth: nat, s: Bytes)
    requires |s| <= TOTAL_BYTES_LIMIT && DataFromArray(depth, s).Accepted?
    ensures (!Overruns(DATA_SUBS, depth, s) || |s| + |PROBE| > TOTAL_BYTES_LIMIT) <==>
      forall t {:trigger s + t} | |s + t| <= TOTAL_BYTES_LIMIT && DataFromArray(depth, t).Accepted? ::
        DataFromArray(depth, s + t)
        == Accepted(MergeData(DataFromArray(depth, s).message, DataFromArray(depth, t).message))
  {
    DataProbes(depth);
    ConcatIff(DataStep(depth), MergeData, EMPTY_DATA, DATA_PROBE,
              (m: OperationDataMsg) => |m.unknown|, DATA_SUBS, depth, s);
    forall t | |s + t| <= TOTAL_BYTES_LIMIT
      ensures DataFromArray(depth, t) == ToOutcome(ParseData(depth, EMPTY_DATA, t))
      ensures DataFromArray(depth, s + t) == ToOutcome(ParseData(depth, EMPTY_DATA, s + t))
    {
    }
  }

  /** Without submessages nothing can overrun. */
  lemma {:induction false} NoSubmessageNoOverrun(depth: nat, s: Bytes)
    ensures !Overruns({}, depth, s)
    decreases |s|
  {
    if s != [] && NextField({}, depth, s).Found? {
      NoSubmessageNoOverrun(depth, NextField({}, depth, s).rest);
    }
  }

  lemma DocumentConcat(depth: nat, s: Bytes, t: Bytes)
    requires |s + t| <= TOTAL_BYTES_LIMIT && DocumentFromArray(depth, s).Accepted?
    ensures DocumentFromArray(depth, s + t)
         == match DocumentFromArray(depth, t)
            case Accepted(b) => Accepted(MergeDocument(DocumentFromArray(depth, s).message, b))
            case _ => Rejected
  {
    var a := ParseDocument(depth, EMPTY_DOCUMENT, s).value;
    NoSubmessageNoOverrun(depth, s);
    RunConcat(DocumentStep, {}, depth, EMPTY_DOCUMENT, s, t);
    DocumentParseMerges(depth, a, EMPTY_DOCUMENT, t);
    assert MergeDocument(a, EMPTY_DOCUMENT) == a;
  }

  /** Serialized fields never overrun. */
  lemma {:induction false} EncodedEnds(subs: set<nat>, depth: nat, fs: seq<UnknownField>)
    requires forall f | f in fs :: Writable(subs, depth, f)
    ensures !Overruns(subs, depth, EncodeFields(fs))
    decreases fs
  {
    if fs != [] {
      NextFieldEncoded(subs, depth, fs[0], EncodeFields(fs[1..]));
      EncodedEnds(subs, depth, fs[1..]);
    }
  }

  /** What a sender relies on: messages written one after the other are read as
      their merge. */
  lemma SentOneAfterAnother(depth: nat, a: OperationsMsg, b: OperationsMsg)
    requires OperationsCanonical(depth, a) && OperationsCanonical(depth, b)
    requires |SerializeOperations(a) + SerializeOperations(b)| <= TOTAL_BYTES_LIMIT
    ensures OperationsFromArray(depth, SerializeOperations(a) + SerializeOperations(b)) == Accepted(MergeOperations(a, b))
  {
    OperationsRoundTrip(depth, a);
    OperationsRoundTrip(depth, b);
    OperationsWritable(depth, a);
    EncodedEnds(OPERATIONS_SUBS, depth, Int32Field(1, a.avaliable) + OperationFields(a.operations) + a.unknown);
    OperationsProbes(depth);
    ConcatRuns(OperationsStep(depth), MergeOperations, EMPTY_OPERATIONS, OPERATIONS_SUBS, depth,
               SerializeOperations(a), SerializeOperations(b));
  }

  // ------------------------------------------------- inputs beyond the limit

  /** An array over the limit is accepted exactly if its first 64 MiB are an
      accepted input that ends in an element, complete or cut short there and
      itself closed; the rest of the array is dropped. */
  lemma OperationsOverLimit(depth: nat, s: Bytes)
    requires |s| > TOTAL_BYTES_LIMIT
    ensures var below, r := s[..TOTAL_BYTES_LIMIT], OperationsFromArray(depth, s);
      && (r.Accepted? <==> LastCloses(OperationsCloses(depth), OPERATIONS_SUBS, depth, below)
                           && ParseOperations(depth, EMPTY_OPERATIONS, below).Some?)
      && (r.Accepted? ==> ParseOperations(depth, EMPTY_OPERATIONS, below) == Some(r.message))
  {
    var below := s[..TOTAL_BYTES_LIMIT];
    assert BelowLimit(s, |s|) == below;
    OpenAccepts(OperationsStep(depth), OperationsCloses(depth), OPERATIONS_SUBS, depth, EMPTY_OPERATIONS, s, |s|);
    if LastCloses(OperationsCloses(depth), OPERATIONS_SUBS, depth, below) {
      ClosedHasSubmessage(OperationsCloses(depth), OPERATIONS_SUBS, depth, below);
    }
  }

  /** Two accepted inputs that are too long together, the first not overrunning: what
      is accepted is the merge of the first and the part of the second that fits, if
      that part is an accepted input that an element ends. */
  lemma OperationsConcatOverLimit(depth: nat, s: Bytes, t: Bytes)
    requires |s| < TOTAL_BYTES_LIMIT < |s + t| && OperationsFromArray(depth, s).Accepted?
    requires !Overruns(OPERATIONS_SUBS, depth, s)
    ensures var fits := t[..TOTAL_BYTES_LIMIT - |s|];
      var r, b := OperationsFromArray(depth, s + t), ParseOperations(depth, EMPTY_OPERATIONS, fits);
      && (r.Accepted? <==> LastCloses(OperationsCloses(depth), OPERATIONS_SUBS, depth, fits) && b.Some?)
      && (r.Accepted? ==> r.message == MergeOperations(OperationsFromArray(depth, s).message, b.value))
  {
    var fits := t[..TOTAL_BYTES_LIMIT - |s|];
    assert (s + t)[..TOTAL_BYTES_LIMIT] == s + fits;
    OperationsOverLimit(depth, s + t);
    OperationsProbes(depth);
    ConcatRuns(OperationsStep(depth), MergeOperations, EMPTY_OPERATIONS, OPERATIONS_SUBS, depth, s, fits);
    RunIsWhole(OperationsStep(depth), OPERATIONS_SUBS, depth, EMPTY_OPERATIONS, s);
    LastClosesConcat(OperationsCloses(depth), OPERATIONS_SUBS, depth, s, fits);
  }

  lemma OperationOverLimit(depth: nat, s: Bytes)
    requires |s| > TOTAL_BYTES_LIMIT
    ensures var below, r := s[..TOTAL_BYTES_LIMIT], OperationFromArray(depth, s);
      && (r.Accepted? <==> LastCloses(OperationCloses(depth), OPERATION_SUBS, depth, below)
                           && ParseOperation(depth, EMPTY_OPERATION, below).Some?)
      && (r.Accepted? ==> ParseOperation(depth, EMPTY_OPERATION, below) == Some(r.message))
  {
    var below := s[..TOTAL_BYTES_LIMIT];
    assert BelowLimit(s, |s|) == below;
    OpenAccepts(OperationStep(depth), OperationCloses(depth), OPERATION_SUBS, depth, EMPTY_OPERATION, s, |s|);
    if LastCloses(OperationCloses(depth), OPERATION_SUBS, depth, below) {
      ClosedHasSubmessage(OperationCloses(depth), OPERATION_SUBS, depth, below);
    }
  }

  /** Data end in a flag, not in a point: there must be a point before it. */
  lemma DataOverLimit(depth: nat, s: Bytes)
    requires |s| > TOTAL_BYTES_LIMIT
    ensures var below, r := s[..TOTAL_BYTES_LIMIT], DataFromArray(depth, s);
      && (r.Accepted? <==> LastCloses(DataCloses, DATA_SUBS, depth, below) && HasSubmessage(DATA_SUBS, depth, below)
                           && ParseData(depth, EMPTY_DATA, below).Some?)
      && (r.Accepted? ==> ParseData(depth, EMPTY_DATA, below) == Some(r.message))
  {
    assert BelowLimit(s, |s|) == s[..TOTAL_BYTES_LIMIT];
    OpenAccepts(DataStep(depth), DataCloses, DATA_SUBS, depth, EMPTY_DATA, s, |s|);
  }

  /** Without submessages no limit ever cuts the array. */
  lemma {:induction false} FlatRejected<M>(step: (M, UnknownField) -> Option<M>, closes: (UnknownField, bool) -> bool,
                                           depth: nat, m: M, s: Bytes, size: LongSize)
    ensures RunTo(step, closes, {}, depth, m, s, Open(size)) == Rejected
    decreases |s|
  {
    if s != [] && NextField({}, depth, s).Found? {
      var Found(f, rest, _) := NextField({}, depth, s);
      if step(m, f).Some? {
        FlatRejected(step, closes, depth, step(m, f).value, rest, size);
      }
    }
  }

  /** A document over the limit is rejected, whatever is in it. */
  lemma DocumentOverLimit(depth: nat, s: Bytes)
    requires |s| > TOTAL_BYTES_LIMIT
    ensures DocumentFromArray(depth, s) == Rejected
  {
    FlatRejected(DocumentStep, DocumentCloses, depth, EMPTY_DOCUMENT, s, |s|);
  }

  /** Without elements there is nothing to cut the array either, and its own end is
      not a legitimate one: a message over the limit is rejected all the same. */
  lemma ElementFreeOverLimit(depth: nat, m: OperationsMsg)
    requires OperationsCanonical(depth, m) && m.operations == []
    requires TOTAL_BYTES_LIMIT < |SerializeOperations(m)| < TWO_31
    ensures OperationsFromArray(depth, SerializeOperations(m)) == Rejected
  {
    var fs := Int32Field(1, m.avaliable) + OperationFields(m.operations) + m.unknown;
    OperationsWritable(depth, m);
    FlatOverLimit(OperationsStep(depth), OperationsCloses(depth), OPERATIONS_SUBS, depth, EMPTY_OPERATIONS, fs,
                  |SerializeOperations(m)|);
  }

  /** The parser with its jumps has the outcome of the plain loop on every array but
      those over the limit whose first 64 MiB are an accepted input that an element
      ends: these it accepts and the plain loop rejects. */
  lemma OperationsJumpsAgree(depth: nat, s: Bytes)
    ensures var jumps := OperationsFromArray(depth, s);
      var plain := FromArray(OperationsStep(depth), Never, OPERATIONS_SUBS, depth, EMPTY_OPERATIONS, s);
      && (jumps != plain <==>
            |s| > TOTAL_BYTES_LIMIT
            && var below := s[..TOTAL_BYTES_LIMIT];
               LastCloses(OperationsCloses(depth), OPERATIONS_SUBS, depth, below)
               && ParseOperations(depth, EMPTY_OPERATIONS, below).Some?)
      && (jumps != plain ==> jumps.Accepted? && plain.Rejected?)
  {
    ArrayJumpsAgree(OperationsStep(depth), OperationsCloses(depth), OPERATIONS_SUBS, depth, EMPTY_OPERATIONS, s);
    if |s| > TOTAL_BYTES_LIMIT && LastCloses(OperationsCloses(depth), OPERATIONS_SUBS, depth, s[..TOTAL_BYTES_LIMIT]) {
      ClosedHasSubmessage(OperationsCloses(depth), OPERATIONS_SUBS, depth, s[..TOTAL_BYTES_LIMIT]);
    }
  }

  lemma OperationsEndInElement(depth: nat, m: OperationsMsg)
    requires OperationsCanonical(depth, m) && |SerializeOperations(m)| < TWO_31
    requires m.operations != [] && m.unknown == []
    ensures LastCloses(OperationsCloses(depth), OPERATIONS_SUBS, depth, SerializeOperations(m))
  {
    OperationsWritable(depth, m);
    EncodedCloses(OperationsCloses(depth), OPERATIONS_SUBS, depth,
                  Int32Field(1, m.avaliable) + OperationFields(m.operations) + m.unknown);
  }

  /** A message of exactly 64 MiB that ends in an element, and any more bytes after
      it: the parser takes the message and drops the bytes, the plain loop rejects
      them all. */
  lemma OperationsJumpsDiffer(depth: nat, m: OperationsMsg, t: Bytes)
    requires OperationsCanonical(depth, m) && m.operations != [] && m.unknown == []
    requires |SerializeOperations(m)| == TOTAL_BYTES_LIMIT && t != []
    ensures OperationsFromArray(depth, SerializeOperations(m) + t) == Accepted(m)
    ensures FromArray(OperationsStep(depth), Never, OPERATIONS_SUBS, depth, EMPTY_OPERATIONS, SerializeOperations(m) + t)
         == Rejected
  {
    var s := SerializeOperations(m);
    assert (s + t)[..TOTAL_BYTES_LIMIT] == s;
    OperationsRoundTrip(depth, m);
    OperationsEndInElement(depth, m);
    OperationsOverLimit(depth, s + t);
    OperationsJumpsAgree(depth, s + t);
  }

  // ---------------------------------------------- messages that are cut short

  function Set<T>(v: Option<T>): nat
  {
    if v.Some? then 1 else 0
  }

  /** How many fields the serializers write. */
  function DataCount(m: OperationDataMsg): nat
  {
    ScalarCount(m) + PointCount(m) + |m.unknown|
  }

  function ScalarCount(m: OperationDataMsg): nat
  {
    Set(m.dataType) + Set(m.thinkness) + Set(m.color) + Set(m.angle) + Set(m.a) + Set(m.b) + Set(m.fill) + Set(m.alpha)
    + Set(m.isStart)
  }

  function PointCount(m: OperationDataMsg): nat
  {
    Set(m.startPoint) + Set(m.endPoint) + Set(m.center) + Set(m.topLeftCorner) + Set(m.bottomRightCorner) + Set(m.position)
  }

  lemma DataCounts(m: OperationDataMsg)
    ensures |DataFieldsTo(m, LAST_DATA_FIELD) + m.unknown| == DataCount(m)
  {
    DataCountFive(m, 5);
    DataCountFive(m, 10);
    DataCountFive(m, 15);
    VarintLengths(m);
    FloatLengths(m);
    PointLengths(m, 4);
    PointLengths(m, 5);
    PointLengths(m, 6);
    PointLengths(m, 10);
    PointLengths(m, 11);
    PointLengths(m, 12);
  }

  lemma VarintLengths(m: OperationDataMsg)
    ensures |DataFieldAt(m, 1)| == Set(m.dataType) && |DataFieldAt(m, 2)| == Set(m.thinkness)
    ensures |DataFieldAt(m, 3)| == Set(m.color) && |DataFieldAt(m, 13)| == Set(m.fill)
    ensures |DataFieldAt(m, 15)| == Set(m.isStart)
  {
  }

  lemma FloatLengths(m: OperationDataMsg)
    ensures |DataFieldAt(m, 7)| == Set(m.angle) && |DataFieldAt(m, 8)| == Set(m.a)
    ensures |DataFieldAt(m, 9)| == Set(m.b) && |DataFieldAt(m, 14)| == Set(m.alpha)
  {
  }

  lemma PointLengths(m: OperationDataMsg, n: nat)
    requires n in DATA_SUBS
    ensures |DataFieldAt(m, n)| == Set(DataPoint(m, n))
  {
    DataPointFieldAt(m, n);
  }

  lemma DataCountFive(m: OperationDataMsg, n: nat)
    requires 5 <= n <= LAST_DATA_FIELD
    ensures |DataFieldsTo(m, n)| == |DataFieldsTo(m, n - 5)| + |DataFieldAt(m, n - 4)| + |DataFieldAt(m, n - 3)|
                                  + |DataFieldAt(m, n - 2)| + |DataFieldAt(m, n - 1)| + |DataFieldAt(m, n)|
  {
    DataCountOne(m, n);
    DataCountOne(m, n - 1);
    DataCountOne(m, n - 2);
    DataCountOne(m, n - 3);
    DataCountOne(m, n - 4);
  }

  lemma DataCountOne(m: OperationDataMsg, n: nat)
    requires n > 0
    ensures |DataFieldsTo(m, n)| == |DataFieldsTo(m, n - 1)| + |DataFieldAt(m, n)|
  {
  }

  lemma SetPointCounts(m: OperationDataMsg, n: nat, p: PointMsg)
    requires n in DATA_SUBS
    ensures DataCount(SetDataPoint(m, n, Some(p))) <= DataCount(m) + 1
  {
    if n == 4 {} else if n == 5 {} else if n == 6 {} else if n == 10 {} else if n == 11 {} else {}
  }

  lemma VarintCounts(depth: nat, m: OperationDataMsg, n: FieldNumber, v: uint64)
    ensures DataStepAt(depth, m, VarintField(n, v)).Some?
    ensures DataCount(DataStepAt(depth, m, VarintField(n, v)).value) <= DataCount(m) + 1
  {
    if n == 1 {
      TypeCounts(m, ToInt32(v % TWO_32));
    } else if n == 2 {} else if n == 3 {} else if n == 13 {} else if n == 15 {} else {
      UnknownCounts(m, VarintField(n, v));
    }
  }

  lemma TypeCounts(m: OperationDataMsg, v: int32)
    ensures DataCount(DataTypeStep(m, v)) <= DataCount(m) + 1
  {
    UnknownCounts(m, VarintField(1, SignExtend(v)));
  }

  lemma UnknownCounts(m: OperationDataMsg, f: UnknownField)
    ensures DataCount(DataAddUnknown(m, f)) == DataCount(m) + 1
  {
  }

  lemma FloatCounts(depth: nat, m: OperationDataMsg, n: FieldNumber, v: uint32)
    ensures DataStepAt(depth, m, Fixed32Field(n, v)).Some?
    ensures DataCount(DataStepAt(depth, m, Fixed32Field(n, v)).value) <= DataCount(m) + 1
  {
    if n == 7 {} else if n == 8 {} else if n == 9 {} else if n == 14 {} else {}
  }

  lemma DataStepCounts(depth: nat, m: OperationDataMsg, f: UnknownField)
    requires DataStepAt(depth, m, f).Some?
    ensures DataCount(DataStepAt(depth, m, f).value) <= DataCount(m) + 1
  {
    match f
    case LengthDelimited(n, data) =>
      if n in DATA_SUBS {
        SetPointCounts(m, n, PointInto(depth, DataPoint(m, n), data).value);
      }
    case VarintField(n, v) => VarintCounts(depth, m, n, v);
    case Fixed32Field(n, v) => FloatCounts(depth, m, n, v);
    case _ =>
  }

  /** Data cut short are never parsed as they were where the parser takes the cut
      for their end: their last field is then a flag, so another one is missing. */
  lemma DataCutDiffers(depth: nat, m: OperationDataMsg, s: Bytes)
    requires DataCanonical(depth, m) && |SerializeData(m)| < TWO_31
    requires s < SerializeData(m) && LastCloses(DataCloses, DATA_SUBS, depth, s)
    ensures ParseData(depth, EMPTY_DATA, s) != Some(m)
  {
    if ParseData(depth, EMPTY_DATA, s) == Some(m) {
      var known := DataFieldsTo(m, LAST_DATA_FIELD);
      EncodeFieldsConcat(known, m.unknown);
      DataFieldsWritable(depth, m, LAST_DATA_FIELD);
      forall m, f | DataStep(depth)(m, f).Some?
        ensures DataCount(DataStep(depth)(m, f).value) <= DataCount(m) + 1
      {
        DataStepCounts(depth, m, f);
      }
      DataCounts(m);
      var front, g := CutRun(DataStep(depth), DataCloses, DATA_SUBS, depth, EMPTY_DATA, DataCount, known + m.unknown, s, m);
    }
  }

  function OperationCount(m: OperationMsg): nat
  {
    Set(m.serialNumber) + Set(m.data) + |m.unknown|
  }

  lemma OperationStepCounts(depth: nat, m: OperationMsg, f: UnknownField)
    requires OperationStepAt(depth, m, f).Some?
    ensures OperationCount(OperationStepAt(depth, m, f).value) <= OperationCount(m) + 1
  {
  }

  lemma OperationStepsCount(depth: nat)
    ensures forall m, f {:trigger OperationStep(depth)(m, f)} | OperationStep(depth)(m, f).Some? ::
              OperationCount(OperationStep(depth)(m, f).value) <= OperationCount(m) + 1
  {
    forall m, f | OperationStep(depth)(m, f).Some?
      ensures OperationCount(OperationStep(depth)(m, f).value) <= OperationCount(m) + 1
    {
      OperationStepCounts(depth, m, f);
    }
  }

  /** The data that end a message are those that its last step has read. */
  lemma OperationLast(depth: nat, front: OperationMsg, g: UnknownField, m: OperationMsg)
    requires OperationCanonical(depth, m) && IsSubmessage(OPERATION_SUBS, g)
    requires OperationStepAt(depth, front, g) == Some(m) && OperationCount(front) < OperationCount(m)
    ensures depth > 0 && m.data.Some? && ParseData(depth - 1, EMPTY_DATA, g.data) == Some(m.data.value)
  {
  }

  lemma OperationLastField(depth: nat, m: OperationMsg)
    requires OperationCanonical(depth, m)
    ensures var fs := UInt32Field(1, m.serialNumber) + DataField(m.data) + m.unknown;
      && |fs| == OperationCount(m)
      && (fs != [] && IsSubmessage(OPERATION_SUBS, fs[|fs| - 1]) && m.data.Some? ==>
            fs[|fs| - 1] == LengthDelimited(2, SerializeData(m.data.value)))
  {
    if m.unknown != [] {
      assert OperationKeeps(depth, m.unknown[|m.unknown| - 1]);
    }
  }

  lemma OperationEndsOtherwise(depth: nat, m: OperationMsg, front: OperationMsg, f: UnknownField, g: UnknownField)
    requires OperationCanonical(depth, m) && OperationCount(front) < OperationCount(m)
    requires m.data.Some? ==> f == LengthDelimited(2, SerializeData(m.data.value)) && |f.data| < TWO_31
    requires f.LengthDelimited? && CutShort(OperationCloses(depth), OPERATION_SUBS, f, g)
    ensures OperationStepAt(depth, front, g) != Some(m)
  {
    if OperationStepAt(depth, front, g) == Some(m) {
      OperationLast(depth, front, g, m);
      DataCutDiffers(depth - 1, m.data.value, g.data);
      assert false;
    }
  }

  lemma OperationCutDiffers(depth: nat, m: OperationMsg, s: Bytes)
    requires OperationCanonical(depth, m) && |SerializeOperation(m)| < TWO_31
    requires s < SerializeOperation(m) && LastCloses(OperationCloses(depth), OPERATION_SUBS, depth, s)
    ensures ParseOperation(depth, EMPTY_OPERATION, s) != Some(m)
  {
    var fs := UInt32Field(1, m.serialNumber) + DataField(m.data) + m.unknown;
    OperationWritable(depth, m);
    OperationLastField(depth, m);
    OperationStepsCount(depth);
    forall front, g | fs != [] && IsSubmessage(OPERATION_SUBS, fs[|fs| - 1]) && OperationCount(front) < |fs|
                      && CutShort(OperationCloses(depth), OPERATION_SUBS, fs[|fs| - 1], g)
      ensures OperationStep(depth)(front, g) != Some(m)
    {
      OperationEndsOtherwise(depth, m, front, fs[|fs| - 1], g);
    }
    CutDiffers(OperationStep(depth), OperationCloses(depth), OPERATION_SUBS, depth, EMPTY_OPERATION, OperationCount,
               fs, s, m);
  }

  function OperationsCount(m: OperationsMsg): nat
  {
    Set(m.avaliable) + |m.operations| + |m.unknown|
  }

  lemma OperationsStepCounts(depth: nat, m: OperationsMsg, f: UnknownField)
    requires OperationsStepAt(depth, m, f).Some?
    ensures OperationsCount(OperationsStepAt(depth, m, f).value) <= OperationsCount(m) + 1
  {
  }

  /** The element that ends a message is the one that its last step has read. */
  lemma OperationsLast(depth: nat, front: OperationsMsg, g: UnknownField, m: OperationsMsg)
    requires IsSubmessage(OPERATIONS_SUBS, g) && OperationsStepAt(depth, front, g) == Some(m)
    ensures depth > 0 && m.operations != []
    ensures ParseOperation(depth - 1, EMPTY_OPERATION, g.data) == Some(m.operations[|m.operations| - 1])
  {
  }

  lemma OperationsLastField(depth: nat, m: OperationsMsg)
    requires OperationsCanonical(depth, m)
    ensures var fs := Int32Field(1, m.avaliable) + OperationFields(m.operations) + m.unknown;
      && |fs| == OperationsCount(m)
      && (fs != [] && IsSubmessage(OPERATIONS_SUBS, fs[|fs| - 1]) && m.operations != [] ==>
            fs[|fs| - 1] == ElementField(m.operations[|m.operations| - 1]))
  {
    OperationFieldsLength(m.operations);
    if m.unknown != [] {
      assert OperationsKeeps(depth, m.unknown[|m.unknown| - 1]);
    }
  }

  lemma OperationsEndOtherwise(depth: nat, m: OperationsMsg, front: OperationsMsg, f: UnknownField, g: UnknownField)
    requires OperationsCanonical(depth, m)
    requires m.operations != [] ==> f == ElementField(m.operations[|m.operations| - 1]) && |f.data| < TWO_31
    requires f.LengthDelimited? && CutShort(OperationsCloses(depth), OPERATIONS_SUBS, f, g)
    ensures OperationsStepAt(depth, front, g) != Some(m)
  {
    if OperationsStepAt(depth, front, g) == Some(m) {
      OperationsLast(depth, front, g, m);
      var op := m.operations[|m.operations| - 1];
      assert op in m.operations && f.data == SerializeOperation(op);
      assert OperationsClosesAt(depth, g, true);
      OperationCutDiffers(depth - 1, op, g.data);
      assert false;
    }
  }

  lemma OperationsCutDiffers(depth: nat, m: OperationsMsg, s: Bytes)
    requires OperationsCanonical(depth, m) && |SerializeOperations(m)| < TWO_31
    requires s < SerializeOperations(m) && LastCloses(OperationsCloses(depth), OPERATIONS_SUBS, depth, s)
    ensures ParseOperations(depth, EMPTY_OPERATIONS, s) != Some(m)
  {
    var fs := Int32Field(1, m.avaliable) + OperationFields(m.operations) + m.unknown;
    OperationsWritable(depth, m);
    OperationsLastField(depth, m);
    forall m, f | OperationsStep(depth)(m, f).Some?
      ensures OperationsCount(OperationsStep(depth)(m, f).value) <= OperationsCount(m) + 1
    {
      OperationsStepCounts(depth, m, f);
    }
    forall front, g | fs != [] && IsSubmessage(OPERATIONS_SUBS, fs[|fs| - 1])
                      && CutShort(OperationsCloses(depth), OPERATIONS_SUBS, fs[|fs| - 1], g)
      ensures OperationsStep(depth)(front, g) != Some(m)
    {
      OperationsEndOtherwise(depth, m, front, fs[|fs| - 1], g);
    }
    CutDiffers(OperationsStep(depth), OperationsCloses(depth), OPERATIONS_SUBS, depth, EMPTY_OPERATIONS, OperationsCount,
               fs, s, m);
  }

  lemma {:induction false} OperationFieldsLength(ops: seq<OperationMsg>)
    ensures |OperationFields(ops)| == |ops|
  {
    if ops != [] {
      OperationFieldsLength(ops[..|ops| - 1]);
    }
  }

  // ------------------------------------------------------------- round trips

  /** Serializing and parsing gives back exactly the messages that fit the limit and
      whose unknown fields are ones the parser itself would keep. */
  lemma OperationsRoundTripIff(depth: nat, m: OperationsMsg)
    requires |SerializeOperations(m)| < TWO_31
    ensures OperationsFromArray(depth, SerializeOperations(m)) == Accepted(m)
       <==> OperationsCanonical(depth, m) && |SerializeOperations(m)| <= TOTAL_BYTES_LIMIT
  {
    var s := SerializeOperations(m);
    if |s| > TOTAL_BYTES_LIMIT {
      OperationsOverLimit(depth, s);
      if OperationsFromArray(depth, s) == Accepted(m) {
        OperationsParseCanonical(depth, EMPTY_OPERATIONS, s[..TOTAL_BYTES_LIMIT]);
        OperationsCutDiffers(depth, m, s[..TOTAL_BYTES_LIMIT]);
      }
    } else if OperationsCanonical(depth, m) {
      OperationsRoundTrip(depth, m);
    } else if ParseOperations(depth, EMPTY_OPERATIONS, s).Some? {
      OperationsParseCanonical(depth, EMPTY_OPERATIONS, s);
    }
  }

  lemma OperationRoundTripIff(depth: nat, m: OperationMsg)
    requires |SerializeOperation(m)| < TWO_31
    ensures OperationFromArray(depth, SerializeOperation(m)) == Accepted(m)
       <==> OperationCanonical(depth, m) && |SerializeOperation(m)| <= TOTAL_BYTES_LIMIT
  {
    var s := SerializeOperation(m);
    if |s| > TOTAL_BYTES_LIMIT {
      OperationOverLimit(depth, s);
      if OperationFromArray(depth, s) == Accepted(m) {
        OperationParseCanonical(depth, EMPTY_OPERATION, s[..TOTAL_BYTES_LIMIT]);
        OperationCutDiffers(depth, m, s[..TOTAL_BYTES_LIMIT]);
      }
    } else if OperationCanonical(depth, m) {
      OperationRoundTrip(depth, m);
    } else if ParseOperation(depth, EMPTY_OPERATION, s).Some? {
      OperationParseCanonical(depth, EMPTY_OPERATION, s);
    }
  }

  lemma EmptyDataCanonical(depth: nat)
    ensures DataCanonical(depth, EMPTY_DATA)
  {
  }

  lemma DataRoundTripIff(depth: nat, m: OperationDataMsg)
    requires |SerializeData(m)| < TWO_31
    ensures DataFromArray(depth, SerializeData(m)) == Accepted(m)
       <==> DataCanonical(depth, m) && |SerializeData(m)| <= TOTAL_BYTES_LIMIT
  {
    var s := SerializeData(m);
    if |s| > TOTAL_BYTES_LIMIT {
      DataOverLimit(depth, s);
      if DataFromArray(depth, s) == Accepted(m) {
        EmptyDataCanonical(depth);
        DataParseCanonical(depth, EMPTY_DATA, s[..TOTAL_BYTES_LIMIT]);
        DataCutDiffers(depth, m, s[..TOTAL_BYTES_LIMIT]);
      }
    } else if DataCanonical(depth, m) {
      DataRoundTrip(depth, m);
    } else if ParseData(depth, EMPTY_DATA, s).Some? {
      EmptyDataCanonical(depth);
      DataParseCanonical(depth, EMPTY_DATA, s);
    }
  }

  lemma DocumentRoundTripIff(depth: nat, m: DocumentMsg)
    requires |SerializeDocument(m)| < TWO_31
    ensures DocumentFromArray(depth, SerializeDocument(m)) == Accepted(m)
       <==> DocumentCanonical(depth, m) && |SerializeDocument(m)| <= TOTAL_BYTES_LIMIT
  {
    var s := SerializeDocument(m);
    if |s| > TOTAL_BYTES_LIMIT {
      DocumentOverLimit(depth, s);
    } else if DocumentCanonical(depth, m) {
      DocumentRoundTrip(depth, m);
    } else if ParseDocument(depth, EMPTY_DOCUMENT, s).Some? {
      DocumentParseCanonical(depth, EMPTY_DOCUMENT, s);
    }
  }

  /** What merging keeps, so that every message built by parsing, setting and
      merging makes the round trip. */
  lemma OperationsMergeCanonical(depth: nat, a: OperationsMsg, b: OperationsMsg)
    requires OperationsCanonical(depth, a) && OperationsCanonical(depth, b)
    ensures OperationsCanonical(depth, MergeOperations(a, b))
  {
  }

  // ---------------------------------------------------------- initialization

  lemma DataMergeInitialized(a: OperationDataMsg, b: OperationDataMsg)
    requires DataInitialized(a) && DataInitialized(b)
    ensures DataInitialized(MergeData(a, b))
  {
    forall n | n in DATA_SUBS && DataPoint(MergeData(a, b), n).Some?
      ensures PointInitialized(DataPoint(MergeData(a, b), n).value)
    {
      MergeDataPoint(a, b, n);
    }
  }

  /** Merging two initialized messages gives an initialized one. */
  lemma OperationsMergeInitialized(a: OperationsMsg, b: OperationsMsg)
    requires OperationsInitialized(a) && OperationsInitialized(b)
    ensures OperationsInitialized(MergeOperations(a, b))
  {
  }

  lemma OperationMergeInitialized(a: OperationMsg, b: OperationMsg)
    requires OperationInitialized(a) && OperationInitialized(b)
    ensures OperationInitialized(MergeOperation(a, b))
  {
    DataMergeInitialized(a.data.value, b.data.value);
  }

  predicate ValidAvaliable(f: UnknownField)
  {
    f.VarintField? && f.number == 1 && AvaliableIsValid(ToInt32(f.varint % TWO_32))
  }

  lemma {:induction false} FoldAvaliable(depth: nat, m: OperationsMsg, fs: seq<UnknownField>)
    requires Fold(OperationsStep(depth), m, fs).Some?
    ensures var r := Fold(OperationsStep(depth), m, fs).value;
      && (r.avaliable.Some? <==> m.avaliable.Some? || exists f :: f in fs && ValidAvaliable(f))
      && (forall g | g in m.unknown :: g in r.unknown)
      && (forall f | f in fs && f.VarintField? && f.number == 1 && !ValidAvaliable(f) ::
            VarintField(1, SignExtend(ToInt32(f.varint % TWO_32))) in r.unknown)
    decreases fs
  {
    if fs != [] {
      var m' := OperationsStep(depth)(m, fs[0]).value;
      assert forall g | g in m.unknown :: g in m'.unknown;
      assert forall f :: f in fs <==> f == fs[0] || f in fs[1..];
      FoldAvaliable(depth, m', fs[1..]);
    }
  }

  /** An accepted input is initialized only if some `operation_avaliable` in it
      is a declared value; undeclared values all end up unknown, sign-extended. */
  lemma InvalidEnumsStayUnknown(depth: nat, s: Bytes)
    requires ParseOperations(depth, EMPTY_OPERATIONS, s).Some?
    ensures var m, fs := ParseOperations(depth, EMPTY_OPERATIONS, s).value, FieldsOf(OPERATIONS_SUBS, depth, s);
      && (m.avaliable.Some? <==> exists f :: f in fs && ValidAvaliable(f))
      && ((forall f | f in fs :: !ValidAvaliable(f)) ==> !OperationsInitialized(m))
      && (forall f | f in fs && f.VarintField? && f.number == 1 && !ValidAvaliable(f) ::
            VarintField(1, SignExtend(ToInt32(f.varint % TWO_32))) in m.unknown)
  {
    RunFolds(OperationsStep(depth), OPERATIONS_SUBS, depth, EMPTY_OPERATIONS, s);
    FoldAvaliable(depth, EMPTY_OPERATIONS, FieldsOf(OPERATIONS_SUBS, depth, s));
  }
}
