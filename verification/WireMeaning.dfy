/** What the bytes of a message mean, said without a parser loop: which inputs are
    accepted, and for each member which field of the input decides it. The last one
    does for a scalar; the fields of a nested message are those of all its pieces
    together; what no case takes is left among the unknown fields, in order. */
module WireMeaning {
  import opened Prelude
  import opened WireFormat
  import opened MessageEngine
  import opened PointCodec
  import opened OperationDataCodec
  import opened OperationCodec
  import opened OperationsCodec
  import opened DocumentCodec

  // ------------------------------------------------- selecting among fields

  /** The value of the last field that has one. */
  function LastOf<T>(pick: UnknownField -> Option<T>, fs: seq<UnknownField>): Option<T>
  {
    if fs == [] then None else Later(pick(fs[0]), LastOf(pick, fs[1..]))
  }

  /** What every field contributes, one after the other. */
  function FlatMap<T>(g: UnknownField -> seq<T>, fs: seq<UnknownField>): seq<T>
  {
    if fs == [] then [] else g(fs[0]) + FlatMap(g, fs[1..])
  }

  lemma {:induction false} LastOfConcat<T>(pick: UnknownField -> Option<T>, fs: seq<UnknownField>, gs: seq<UnknownField>)
    ensures LastOf(pick, fs + gs) == Later(LastOf(pick, fs), LastOf(pick, gs))
    decreases fs
  {
    if fs == [] {
      assert fs + gs == gs;
    } else {
      assert (fs + gs)[1..] == fs[1..] + gs;
      LastOfConcat(pick, fs[1..], gs);
    }
  }

  lemma {:induction false} FlatMapConcat<T>(g: UnknownField -> seq<T>, fs: seq<UnknownField>, gs: seq<UnknownField>)
    ensures FlatMap(g, fs + gs) == FlatMap(g, fs) + FlatMap(g, gs)
    decreases fs
  {
    if fs == [] {
      assert fs + gs == gs;
    } else {
      assert (fs + gs)[1..] == fs[1..] + gs;
      FlatMapConcat(g, fs[1..], gs);
    }
  }

  lemma LastOfOne<T>(pick: UnknownField -> Option<T>, f: UnknownField)
    ensures LastOf(pick, [f]) == pick(f)
  {
    assert LastOf(pick, [f]) == Later(pick(f), LastOf(pick, []));
  }

  lemma FlatMapOne<T>(g: UnknownField -> seq<T>, f: UnknownField)
    ensures FlatMap(g, [f]) == g(f)
  {
    assert FlatMap(g, [f]) == g(f) + FlatMap(g, []);
  }

  lemma {:induction false} LastOfSome<T>(pick: UnknownField -> Option<T>, fs: seq<UnknownField>)
    ensures LastOf(pick, fs).Some? <==> exists f :: f in fs && pick(f).Some?
    decreases fs
  {
    if fs != [] {
      LastOfSome(pick, fs[1..]);
      assert forall f :: f in fs <==> f == fs[0] || f in fs[1..];
    }
  }

  function Float(n: nat): UnknownField -> Option<uint32>
  {
    (f: UnknownField) => if f.Fixed32Field? && f.number == n then Some(f.fixed32) else None
  }

  function Delimited(n: nat): UnknownField -> Option<Bytes>
  {
    (f: UnknownField) => if f.LengthDelimited? && f.number == n then Some(f.data) else None
  }

  /** A varint as an int32: its low 32 bits, negative from 2^31 on. */
  function Signed(v: uint64): int32
  {
    var low := v % 0x1_0000_0000;
    if low < 0x8000_0000 then low else low - 0x1_0000_0000
  }

  /** An int32 as a varint holds it, its sign extended to 64 bits. */
  function Widened(v: int32): uint64
  {
    if v >= 0 then v else v + 0x1_0000_0000_0000_0000
  }

  function Int32(n: nat): UnknownField -> Option<int32>
  {
    (f: UnknownField) => if f.VarintField? && f.number == n then Some(Signed(f.varint)) else None
  }

  function UInt32(n: nat): UnknownField -> Option<uint32>
  {
    (f: UnknownField) => if f.VarintField? && f.number == n then Some(f.varint % 0x1_0000_0000) else None
  }

  function Bool(n: nat): UnknownField -> Option<bool>
  {
    (f: UnknownField) => if f.VarintField? && f.number == n then Some(f.varint % 0x1_0000_0000 != 0) else None
  }

  /** The fields of submessage `n`, all its pieces together. */
  function Pieces(subs: set<nat>, depth: nat, n: nat): UnknownField -> seq<UnknownField>
  {
    (f: UnknownField) => if f.LengthDelimited? && f.number == n then FieldsOf(subs, depth, f.data) else []
  }

  // ----------------------------------------------------- folds and their meaning

  /** `of` gives the meaning of a list of fields: merging the meanings of two lists
      is the meaning of both, and a step gives that of one field. */
  ghost predicate Meaning<M(!new)>(step: (M, UnknownField) -> Option<M>, merge: (M, M) -> M, unit: M,
                                   of: seq<UnknownField> -> M)
  {
    && StepMerges(step, merge) && (forall a :: merge(a, unit) == a) && of([]) == unit
    && (forall f | step(unit, f).Some? :: step(unit, f) == Some(of([f])))
    && (forall fs, gs {:trigger fs + gs} :: of(fs + gs) == merge(of(fs), of(gs)))
  }

  lemma {:induction false} FoldMeans<M(!new)>(step: (M, UnknownField) -> Option<M>, merge: (M, M) -> M, unit: M,
                                              of: seq<UnknownField> -> M, fs: seq<UnknownField>)
    requires Meaning(step, merge, unit, of) && Fold(step, unit, fs).Some?
    ensures Fold(step, unit, fs) == Some(of(fs))
    decreases |fs|
  {
    if fs != [] {
      var front, f := fs[..|fs| - 1], fs[|fs| - 1];
      assert fs == front + [f];
      FoldConcat(step, unit, front, [f]);
      FoldMeans(step, merge, unit, of, front);
      FoldOne(step, of(front), f);
      assert step(merge(of(front), unit), f)
          == match step(unit, f) case None => None case Some(b) => Some(merge(of(front), b));
    }
  }

  predicate AllTaken(taken: UnknownField -> bool, fs: seq<UnknownField>)
  {
    forall f | f in fs :: taken(f)
  }

  /** Whether a step fails depends on the field alone: then an input is accepted
      exactly if every field can be read and none fails. */
  lemma {:induction false} RunAccepts<M(!new)>(step: (M, UnknownField) -> Option<M>, taken: UnknownField -> bool,
                                               subs: set<nat>, depth: nat, m: M, s: Bytes)
    requires forall m, f :: step(m, f).Some? <==> taken(f)
    ensures Run(step, subs, depth, m, s).Some?
       <==> Whole(subs, depth, s) && AllTaken(taken, FieldsOf(subs, depth, s))
    decreases |s|
  {
    if s != [] && NextField(subs, depth, s).Found? {
      var Found(f, rest, _) := NextField(subs, depth, s);
      if step(m, f).Some? {
        RunAccepts(step, taken, subs, depth, step(m, f).value, rest);
      }
    }
  }

  lemma RunMeans<M(!new)>(step: (M, UnknownField) -> Option<M>, merge: (M, M) -> M, unit: M,
                          of: seq<UnknownField> -> M, subs: set<nat>, depth: nat, s: Bytes)
    requires Meaning(step, merge, unit, of) && Run(step, subs, depth, unit, s).Some?
    ensures Run(step, subs, depth, unit, s) == Some(of(FieldsOf(subs, depth, s)))
  {
    RunFolds(step, subs, depth, unit, s);
    FoldMeans(step, merge, unit, of, FieldsOf(subs, depth, s));
  }

  // ------------------------------------------------------------------ points

  /** What a point leaves among its unknown fields. */
  function PointRest(f: UnknownField): seq<UnknownField>
  {
    if f.VarintField? && f.number in {1, 2} then [] else [f]
  }

  function PointOf(fs: seq<UnknownField>): PointMsg
  {
    PointMsg(LastOf(Int32(1), fs), LastOf(Int32(2), fs), FlatMap(PointRest, fs))
  }

  lemma PointOfConcat(fs: seq<UnknownField>, gs: seq<UnknownField>)
    ensures PointOf(fs + gs) == MergePoint(PointOf(fs), PointOf(gs))
  {
    LastOfConcat(Int32(1), fs, gs);
    LastOfConcat(Int32(2), fs, gs);
    FlatMapConcat(PointRest, fs, gs);
  }

  lemma PointOfOne(f: UnknownField)
    ensures PointStep(EMPTY_POINT, f) == Some(PointOf([f]))
  {
    LastOfOne(Int32(1), f);
    LastOfOne(Int32(2), f);
    FlatMapOne(PointRest, f);
    assert [] + [f] == [f];
  }

  lemma PointStepsMerge()
    ensures StepMerges(PointStep, MergePoint)
  {
    forall a, b, f
      ensures PointStep(MergePoint(a, b), f)
           == match PointStep(b, f) case None => None case Some(b') => Some(MergePoint(a, b'))
    {
      assert a.unknown + (b.unknown + [f]) == a.unknown + b.unknown + [f];
    }
  }

  lemma PointListsMerge()
    ensures forall fs, gs {:trigger fs + gs} :: PointOf(fs + gs) == MergePoint(PointOf(fs), PointOf(gs))
  {
    forall fs, gs ensures PointOf(fs + gs) == MergePoint(PointOf(fs), PointOf(gs)) {
      PointOfConcat(fs, gs);
    }
  }

  lemma PointMeaning()
    ensures Meaning(PointStep, MergePoint, EMPTY_POINT, PointOf)
  {
    PointStepsMerge();
    PointListsMerge();
    forall a ensures MergePoint(a, EMPTY_POINT) == a {
      PointMergeUnit(a);
    }
    forall f ensures PointStep(EMPTY_POINT, f) == Some(PointOf([f])) {
      PointOfOne(f);
    }
  }

  /** An input is an accepted point exactly if all its fields can be read. */
  lemma PointMeans(depth: nat, s: Bytes)
    ensures ParsePoint(depth, EMPTY_POINT, s)
         == if Whole({}, depth, s) then Some(PointOf(FieldsOf({}, depth, s))) else None
  {
    RunAccepts(PointStep, f => true, {}, depth, EMPTY_POINT, s);
    if Whole({}, depth, s) {
      PointMeaning();
      RunMeans(PointStep, MergePoint, EMPTY_POINT, PointOf, {}, depth, s);
    }
  }

  // ---------------------------------------------------------- operation data

  function Below(depth: nat): nat
  {
    if depth == 0 then 0 else depth - 1
  }

  /** Point `n`, if some field holds it or a piece of it. */
  function PointAt(depth: nat, fs: seq<UnknownField>, n: nat): Option<PointMsg>
  {
    if LastOf(Delimited(n), fs).None? then None else Some(PointOf(FlatMap(Pieces({}, Below(depth), n), fs)))
  }

  /** What the data leave: fields of no case, and undeclared types as int32. */
  function DataRest(f: UnknownField): seq<UnknownField>
  {
    match f
    case VarintField(n, v) =>
      if n == 1 && !(0 <= Signed(v) <= 4) then [VarintField(1, Widened(Signed(v)))]
      else if n in {1, 2, 3, 13, 15} then [] else [f]
    case Fixed32Field(n, _) => if n in {7, 8, 9, 14} then [] else [f]
    case LengthDelimited(n, _) => if n in {4, 5, 6, 10, 11, 12} then [] else [f]
    case _ => [f]
  }

  function DataOf(depth: nat, fs: seq<UnknownField>): OperationDataMsg
  {
    OperationDataMsg(
      LastOf(Type(), fs), LastOf(Int32(2), fs), LastOf(Int32(3), fs),
      PointAt(depth, fs, 4), PointAt(depth, fs, 5), PointAt(depth, fs, 6),
      LastOf(Float(7), fs), LastOf(Float(8), fs), LastOf(Float(9), fs),
      PointAt(depth, fs, 10), PointAt(depth, fs, 11), PointAt(depth, fs, 12),
      LastOf(Bool(13), fs), LastOf(Float(14), fs), LastOf(Bool(15), fs), FlatMap(DataRest, fs))
  }

  function Type(): UnknownField -> Option<DataType>
  {
    (f: UnknownField) =>
      if f.VarintField? && f.number == 1 && 0 <= Signed(f.varint) <= 4 then Some(Signed(f.varint)) else None
  }

  lemma PointAtConcat(depth: nat, fs: seq<UnknownField>, gs: seq<UnknownField>, n: nat)
    ensures PointAt(depth, fs + gs, n) == MergePoints(PointAt(depth, fs, n), PointAt(depth, gs, n))
  {
    var pieces := Pieces({}, Below(depth), n);
    LastOfConcat(Delimited(n), fs, gs);
    FlatMapConcat(pieces, fs, gs);
    PointOfConcat(FlatMap(pieces, fs), FlatMap(pieces, gs));
    NoPieces({}, Below(depth), n, fs);
    NoPieces({}, Below(depth), n, gs);
    PointMergeUnit(PointOf(FlatMap(pieces, fs)));
    PointMergeUnit(PointOf(FlatMap(pieces, gs)));
  }

  lemma {:induction false} NoPieces(subs: set<nat>, depth: nat, n: nat, fs: seq<UnknownField>)
    ensures LastOf(Delimited(n), fs).None? ==> FlatMap(Pieces(subs, depth, n), fs) == []
    decreases fs
  {
    if fs != [] {
      NoPieces(subs, depth, n, fs[1..]);
    }
  }

  function DataReading(depth: nat): seq<UnknownField> -> OperationDataMsg
  {
    (fs: seq<UnknownField>) => DataOf(depth, fs)
  }

  lemma DataOfConcat(depth: nat, fs: seq<UnknownField>, gs: seq<UnknownField>)
    ensures DataOf(depth, fs + gs) == MergeData(DataOf(depth, fs), DataOf(depth, gs))
  {
    LastOfConcat(Type(), fs, gs);
    LastOfConcat(Int32(2), fs, gs);
    LastOfConcat(Int32(3), fs, gs);
    PointAtConcat(depth, fs, gs, 4);
    PointAtConcat(depth, fs, gs, 5);
    PointAtConcat(depth, fs, gs, 6);
    LastOfConcat(Float(7), fs, gs);
    LastOfConcat(Float(8), fs, gs);
    LastOfConcat(Float(9), fs, gs);
    PointAtConcat(depth, fs, gs, 10);
    PointAtConcat(depth, fs, gs, 11);
    PointAtConcat(depth, fs, gs, 12);
    LastOfConcat(Bool(13), fs, gs);
    LastOfConcat(Float(14), fs, gs);
    LastOfConcat(Bool(15), fs, gs);
    FlatMapConcat(DataRest, fs, gs);
  }

  /** The meaning of a single field. */
  lemma DataOfOne(depth: nat, f: UnknownField)
    ensures DataOf(depth, [f])
         == OperationDataMsg(
              Type()(f), Int32(2)(f), Int32(3)(f), PointOne(depth, f, 4), PointOne(depth, f, 5), PointOne(depth, f, 6),
              Float(7)(f), Float(8)(f), Float(9)(f),
              PointOne(depth, f, 10), PointOne(depth, f, 11), PointOne(depth, f, 12),
              Bool(13)(f), Float(14)(f), Bool(15)(f), DataRest(f))
  {
    LastOfOne(Type(), f);
    LastOfOne(Int32(2), f);
    LastOfOne(Int32(3), f);
    PointAtOne(depth, f, 4);
    PointAtOne(depth, f, 5);
    PointAtOne(depth, f, 6);
    LastOfOne(Float(7), f);
    LastOfOne(Float(8), f);
    LastOfOne(Float(9), f);
    PointAtOne(depth, f, 10);
    PointAtOne(depth, f, 11);
    PointAtOne(depth, f, 12);
    LastOfOne(Bool(13), f);
    LastOfOne(Float(14), f);
    LastOfOne(Bool(15), f);
    FlatMapOne(DataRest, f);
  }

  function PointOne(depth: nat, f: UnknownField, n: nat): Option<PointMsg>
  {
    if f.LengthDelimited? && f.number == n then Some(PointOf(FieldsOf({}, Below(depth), f.data))) else None
  }

  lemma PointAtOne(depth: nat, f: UnknownField, n: nat)
    ensures PointAt(depth, [f], n) == PointOne(depth, f, n)
  {
    LastOfOne(Delimited(n), f);
    FlatMapOne(Pieces({}, Below(depth), n), f);
  }

  lemma DataStepMeans(depth: nat, f: UnknownField)
    requires DataStepAt(depth, EMPTY_DATA, f).Some?
    ensures DataStepAt(depth, EMPTY_DATA, f) == Some(DataOf(depth, [f]))
  {
    DataOfOne(depth, f);
    if IsSubmessage(DATA_SUBS, f) {
      DataPointMeans(depth, f.number, f.data);
    } else {
      DataScalarMeans(depth, f);
    }
  }

  lemma DataPointMeans(depth: nat, n: FieldNumber, data: Bytes)
    requires n in DATA_SUBS && DataStepAt(depth, EMPTY_DATA, LengthDelimited(n, data)).Some?
    ensures depth > 0 && DataStepAt(depth, EMPTY_DATA, LengthDelimited(n, data))
         == Some(SetDataPoint(EMPTY_DATA, n, Some(PointOf(FieldsOf({}, depth - 1, data)))))
  {
    PointMeans(depth - 1, data);
    if n == 4 {} else if n == 5 {} else if n == 6 {} else if n == 10 {} else if n == 11 {} else {}
  }

  lemma DataScalarMeans(depth: nat, f: UnknownField)
    requires !IsSubmessage(DATA_SUBS, f)
    ensures DataStepAt(depth, EMPTY_DATA, f)
         == Some(OperationDataMsg(Type()(f), Int32(2)(f), Int32(3)(f), None, None, None, Float(7)(f), Float(8)(f), Float(9)(f),
                                  None, None, None, Bool(13)(f), Float(14)(f), Bool(15)(f), DataRest(f)))
  {
    assert EMPTY_DATA.unknown + [f] == [f];
    match f
    case VarintField(n, v) =>
      assert EMPTY_DATA.unknown + [VarintField(1, Widened(Signed(v)))] == [VarintField(1, Widened(Signed(v)))];
      if n == 1 {} else if n == 2 {} else if n == 3 {} else if n == 13 {} else if n == 15 {} else {}
    case Fixed32Field(n, v) =>
      if n == 7 {} else if n == 8 {} else if n == 9 {} else if n == 14 {} else {}
    case _ =>
  }

  lemma DataStepsMerge(depth: nat)
    ensures StepMerges(DataStep(depth), MergeData)
  {
    forall a, b, f
      ensures DataStep(depth)(MergeData(a, b), f)
           == match DataStep(depth)(b, f) case None => None case Some(b') => Some(MergeData(a, b'))
    {
      DataStepMerges(depth, a, b, f);
    }
  }

  lemma DataListsMerge(depth: nat)
    ensures forall fs, gs {:trigger fs + gs} ::
              DataReading(depth)(fs + gs) == MergeData(DataReading(depth)(fs), DataReading(depth)(gs))
  {
    forall fs, gs
      ensures DataReading(depth)(fs + gs) == MergeData(DataReading(depth)(fs), DataReading(depth)(gs))
    {
      DataOfConcat(depth, fs, gs);
    }
  }

  lemma DataFieldsMean(depth: nat)
    ensures forall f | DataStep(depth)(EMPTY_DATA, f).Some? ::
              DataStep(depth)(EMPTY_DATA, f) == Some(DataReading(depth)([f]))
  {
    forall f | DataStep(depth)(EMPTY_DATA, f).Some?
      ensures DataStep(depth)(EMPTY_DATA, f) == Some(DataReading(depth)([f]))
    {
      DataStepMeans(depth, f);
    }
  }

  lemma NoData(depth: nat)
    ensures DataReading(depth)([]) == EMPTY_DATA
  {
  }

  lemma DataMeaning(depth: nat)
    ensures Meaning(DataStep(depth), MergeData, EMPTY_DATA, DataReading(depth))
  {
    DataStepsMerge(depth);
    DataListsMerge(depth);
    DataFieldsMean(depth);
    NoData(depth);
    forall a ensures MergeData(a, EMPTY_DATA) == a {
      DataMergeUnit(a);
    }
  }

  /** Every field can be read, and so can those of every point. */
  predicate DataWhole(depth: nat, s: Bytes)
  {
    Whole(DATA_SUBS, depth, s) && AllTaken(DataTakes(depth), FieldsOf(DATA_SUBS, depth, s))
  }

  function DataTakes(depth: nat): UnknownField -> bool
  {
    (f: UnknownField) => f.LengthDelimited? && f.number in {4, 5, 6, 10, 11, 12} ==> depth > 0 && Whole({}, depth - 1, f.data)
  }

  lemma DataFieldTaken(depth: nat, m: OperationDataMsg, f: UnknownField)
    ensures DataStepAt(depth, m, f).Some? <==> DataTakes(depth)(f)
  {
    if IsSubmessage(DATA_SUBS, f) && depth > 0 {
      RunAccepts(PointStep, g => true, {}, depth - 1, DataPoint(m, f.number).GetOr(EMPTY_POINT), f.data);
    }
  }

  lemma DataTaken(depth: nat, m: OperationDataMsg, s: Bytes)
    ensures ParseData(depth, m, s).Some? <==> DataWhole(depth, s)
  {
    forall m, f ensures DataStep(depth)(m, f).Some? <==> DataTakes(depth)(f) {
      DataFieldTaken(depth, m, f);
    }
    RunAccepts(DataStep(depth), DataTakes(depth), DATA_SUBS, depth, m, s);
  }

  lemma DataMeans(depth: nat, s: Bytes)
    ensures ParseData(depth, EMPTY_DATA, s)
         == if DataWhole(depth, s) then Some(DataOf(depth, FieldsOf(DATA_SUBS, depth, s))) else None
  {
    DataTaken(depth, EMPTY_DATA, s);
    if DataWhole(depth, s) {
      DataMeaning(depth);
      RunMeans(DataStep(depth), MergeData, EMPTY_DATA, DataReading(depth), DATA_SUBS, depth, s);
    }
  }

  // -------------------------------------------------------------- operations

  function OperationRest(f: UnknownField): seq<UnknownField>
  {
    if (f.VarintField? && f.number == 1) || (f.LengthDelimited? && f.number == 2) then [] else [f]
  }

  function DataIn(depth: nat, fs: seq<UnknownField>): Option<OperationDataMsg>
  {
    if LastOf(Delimited(2), fs).None? then None
    else Some(DataOf(Below(depth), FlatMap(Pieces(DATA_SUBS, Below(depth), 2), fs)))
  }

  function OperationOf(depth: nat, fs: seq<UnknownField>): OperationMsg
  {
    OperationMsg(LastOf(UInt32(1), fs), DataIn(depth, fs), FlatMap(OperationRest, fs))
  }

  lemma DataInConcat(depth: nat, fs: seq<UnknownField>, gs: seq<UnknownField>)
    ensures DataIn(depth, fs + gs) == MergeDatas(DataIn(depth, fs), DataIn(depth, gs))
  {
    var pieces := Pieces(DATA_SUBS, Below(depth), 2);
    LastOfConcat(Delimited(2), fs, gs);
    FlatMapConcat(pieces, fs, gs);
    DataOfConcat(Below(depth), FlatMap(pieces, fs), FlatMap(pieces, gs));
    NoPieces(DATA_SUBS, Below(depth), 2, fs);
    NoPieces(DATA_SUBS, Below(depth), 2, gs);
    DataMergeUnit(DataOf(Below(depth), FlatMap(pieces, fs)));
    DataMergeUnit(DataOf(Below(depth), FlatMap(pieces, gs)));
  }

  function OperationReading(depth: nat): seq<UnknownField> -> OperationMsg
  {
    (fs: seq<UnknownField>) => OperationOf(depth, fs)
  }

  lemma OperationOfConcat(depth: nat, fs: seq<UnknownField>, gs: seq<UnknownField>)
    ensures OperationOf(depth, fs + gs) == MergeOperation(OperationOf(depth, fs), OperationOf(depth, gs))
  {
    LastOfConcat(UInt32(1), fs, gs);
    DataInConcat(depth, fs, gs);
    FlatMapConcat(OperationRest, fs, gs);
  }

  lemma OperationStepMeans(depth: nat, f: UnknownField)
    requires OperationStepAt(depth, EMPTY_OPERATION, f).Some?
    ensures OperationStepAt(depth, EMPTY_OPERATION, f) == Some(OperationOf(depth, [f]))
  {
    LastOfOne(UInt32(1), f);
    LastOfOne(Delimited(2), f);
    FlatMapOne(Pieces(DATA_SUBS, Below(depth), 2), f);
    FlatMapOne(OperationRest, f);
    if IsSubmessage(OPERATION_SUBS, f) {
      DataMeans(depth - 1, f.data);
    } else {
      assert EMPTY_OPERATION.unknown + [f] == [f];
    }
  }

  lemma OperationMeaning(depth: nat)
    ensures Meaning(OperationStep(depth), MergeOperation, EMPTY_OPERATION, OperationReading(depth))
  {
    forall a, b, f
      ensures OperationStep(depth)(MergeOperation(a, b), f)
           == match OperationStep(depth)(b, f) case None => None case Some(b') => Some(MergeOperation(a, b'))
    {
      OperationStepMerges(depth, a, b, f);
    }
    forall a ensures MergeOperation(a, EMPTY_OPERATION) == a {
      OperationMergeUnit(a);
    }
    forall f | OperationStep(depth)(EMPTY_OPERATION, f).Some?
      ensures OperationStep(depth)(EMPTY_OPERATION, f) == Some(OperationOf(depth, [f]))
    {
      OperationStepMeans(depth, f);
    }
    forall fs, gs ensures OperationOf(depth, fs + gs) == MergeOperation(OperationOf(depth, fs), OperationOf(depth, gs)) {
      OperationOfConcat(depth, fs, gs);
    }
  }

  /** Every field can be read, and so can those of the data and their points. */
  predicate OperationWhole(depth: nat, s: Bytes)
  {
    Whole(OPERATION_SUBS, depth, s) && AllTaken(OperationTakes(depth), FieldsOf(OPERATION_SUBS, depth, s))
  }

  function OperationTakes(depth: nat): UnknownField -> bool
  {
    (f: UnknownField) => f.LengthDelimited? && f.number == 2 ==> depth > 0 && DataWhole(depth - 1, f.data)
  }

  lemma OperationFieldTaken(depth: nat, m: OperationMsg, f: UnknownField)
    ensures OperationStepAt(depth, m, f).Some? <==> OperationTakes(depth)(f)
  {
    if IsSubmessage(OPERATION_SUBS, f) && depth > 0 {
      DataTaken(depth - 1, m.data.GetOr(EMPTY_DATA), f.data);
    }
  }

  lemma OperationTaken(depth: nat, m: OperationMsg, s: Bytes)
    ensures ParseOperation(depth, m, s).Some? <==> OperationWhole(depth, s)
  {
    forall m, f ensures OperationStep(depth)(m, f).Some? <==> OperationTakes(depth)(f) {
      OperationFieldTaken(depth, m, f);
    }
    RunAccepts(OperationStep(depth), OperationTakes(depth), OPERATION_SUBS, depth, m, s);
  }

  lemma OperationMeans(depth: nat, s: Bytes)
    ensures ParseOperation(depth, EMPTY_OPERATION, s)
         == if OperationWhole(depth, s) then Some(OperationOf(depth, FieldsOf(OPERATION_SUBS, depth, s))) else None
  {
    OperationTaken(depth, EMPTY_OPERATION, s);
    if OperationWhole(depth, s) {
      OperationMeaning(depth);
      RunMeans(OperationStep(depth), MergeOperation, EMPTY_OPERATION, OperationReading(depth), OPERATION_SUBS, depth, s);
    }
  }

  // ------------------------------------------------------ lists of operations

  /** The last declared state. */
  function State(): UnknownField -> Option<Avaliable>
  {
    (f: UnknownField) =>
      if f.VarintField? && f.number == 1 && 1 <= Signed(f.varint) <= 3 then Some(Signed(f.varint)) else None
  }

  /** An element for every field 2, in order. */
  function Element(depth: nat): UnknownField -> seq<OperationMsg>
  {
    (f: UnknownField) =>
      if f.LengthDelimited? && f.number == 2
      then [OperationOf(Below(depth), FieldsOf(OPERATION_SUBS, Below(depth), f.data))] else []
  }

  function OperationsRest(f: UnknownField): seq<UnknownField>
  {
    match f
    case VarintField(1, v) => if 1 <= Signed(v) <= 3 then [] else [VarintField(1, Widened(Signed(v)))]
    case LengthDelimited(2, _) => []
    case _ => [f]
  }

  function OperationsOf(depth: nat, fs: seq<UnknownField>): OperationsMsg
  {
    OperationsMsg(LastOf(State(), fs), FlatMap(Element(depth), fs), FlatMap(OperationsRest, fs))
  }

  function OperationsReading(depth: nat): seq<UnknownField> -> OperationsMsg
  {
    (fs: seq<UnknownField>) => OperationsOf(depth, fs)
  }

  lemma OperationsOfConcat(depth: nat, fs: seq<UnknownField>, gs: seq<UnknownField>)
    ensures OperationsOf(depth, fs + gs) == MergeOperations(OperationsOf(depth, fs), OperationsOf(depth, gs))
  {
    LastOfConcat(State(), fs, gs);
    FlatMapConcat(Element(depth), fs, gs);
    FlatMapConcat(OperationsRest, fs, gs);
  }

  lemma OperationsStepMeans(depth: nat, f: UnknownField)
    requires OperationsStepAt(depth, EMPTY_OPERATIONS, f).Some?
    ensures OperationsStepAt(depth, EMPTY_OPERATIONS, f) == Some(OperationsOf(depth, [f]))
  {
    LastOfOne(State(), f);
    FlatMapOne(Element(depth), f);
    FlatMapOne(OperationsRest, f);
    if IsSubmessage(OPERATIONS_SUBS, f) {
      OperationMeans(depth - 1, f.data);
      var op := ParseOperation(depth - 1, EMPTY_OPERATION, f.data).value;
      assert EMPTY_OPERATIONS.operations + [op] == [op];
    } else if f.VarintField? && f.number == 1 {
      var g := VarintField(1, Widened(Signed(f.varint)));
      assert EMPTY_OPERATIONS.unknown + [g] == [g];
    } else {
      assert EMPTY_OPERATIONS.unknown + [f] == [f];
    }
  }

  lemma OperationsMeaning(depth: nat)
    ensures Meaning(OperationsStep(depth), MergeOperations, EMPTY_OPERATIONS, OperationsReading(depth))
  {
    forall a, b, f
      ensures OperationsStep(depth)(MergeOperations(a, b), f)
           == match OperationsStep(depth)(b, f) case None => None case Some(b') => Some(MergeOperations(a, b'))
    {
      OperationsStepMerges(depth, a, b, f);
    }
    forall a ensures MergeOperations(a, EMPTY_OPERATIONS) == a {
      OperationsMergeUnit(a);
    }
    forall f | OperationsStep(depth)(EMPTY_OPERATIONS, f).Some?
      ensures OperationsStep(depth)(EMPTY_OPERATIONS, f) == Some(OperationsOf(depth, [f]))
    {
      OperationsStepMeans(depth, f);
    }
    forall fs, gs ensures OperationsOf(depth, fs + gs) == MergeOperations(OperationsOf(depth, fs), OperationsOf(depth, gs)) {
      OperationsOfConcat(depth, fs, gs);
    }
  }

  /** Every field of the whole tree can be read. */
  predicate OperationsWhole(depth: nat, s: Bytes)
  {
    Whole(OPERATIONS_SUBS, depth, s) && AllTaken(OperationsTakes(depth), FieldsOf(OPERATIONS_SUBS, depth, s))
  }

  function OperationsTakes(depth: nat): UnknownField -> bool
  {
    (f: UnknownField) => f.LengthDelimited? && f.number == 2 ==> depth > 0 && OperationWhole(depth - 1, f.data)
  }

  lemma OperationsFieldTaken(depth: nat, m: OperationsMsg, f: UnknownField)
    ensures OperationsStepAt(depth, m, f).Some? <==> OperationsTakes(depth)(f)
  {
    if IsSubmessage(OPERATIONS_SUBS, f) && depth > 0 {
      OperationTaken(depth - 1, EMPTY_OPERATION, f.data);
    }
  }

  lemma OperationsTaken(depth: nat, m: OperationsMsg, s: Bytes)
    ensures ParseOperations(depth, m, s).Some? <==> OperationsWhole(depth, s)
  {
    forall m, f ensures OperationsStep(depth)(m, f).Some? <==> OperationsTakes(depth)(f) {
      OperationsFieldTaken(depth, m, f);
    }
    RunAccepts(OperationsStep(depth), OperationsTakes(depth), OPERATIONS_SUBS, depth, m, s);
  }

  /** What is an accepted list of operations, and what it holds: the last declared
      state, and an element for every field 2. */
  lemma OperationsMeans(depth: nat, s: Bytes)
    ensures ParseOperations(depth, EMPTY_OPERATIONS, s)
         == if OperationsWhole(depth, s) then Some(OperationsOf(depth, FieldsOf(OPERATIONS_SUBS, depth, s))) else None
  {
    OperationsTaken(depth, EMPTY_OPERATIONS, s);
    if OperationsWhole(depth, s) {
      OperationsMeaning(depth);
      RunMeans(OperationsStep(depth), MergeOperations, EMPTY_OPERATIONS, OperationsReading(depth), OPERATIONS_SUBS,
               depth, s);
    }
  }

  // --------------------------------------------------------------- documents

  function DocumentRest(f: UnknownField): seq<UnknownField>
  {
    if (f.VarintField? && f.number == 1) || (f.LengthDelimited? && f.number in {2, 3}) then [] else [f]
  }

  function DocumentOf(fs: seq<UnknownField>): DocumentMsg
  {
    DocumentMsg(LastOf(UInt32(1), fs), LastOf(Delimited(2), fs), LastOf(Delimited(3), fs), FlatMap(DocumentRest, fs))
  }

  lemma DocumentOfConcat(fs: seq<UnknownField>, gs: seq<UnknownField>)
    ensures DocumentOf(fs + gs) == MergeDocument(DocumentOf(fs), DocumentOf(gs))
  {
    LastOfConcat(UInt32(1), fs, gs);
    LastOfConcat(Delimited(2), fs, gs);
    LastOfConcat(Delimited(3), fs, gs);
    FlatMapConcat(DocumentRest, fs, gs);
  }

  lemma DocumentOfOne(f: UnknownField)
    ensures DocumentStep(EMPTY_DOCUMENT, f) == Some(DocumentOf([f]))
  {
    LastOfOne(UInt32(1), f);
    LastOfOne(Delimited(2), f);
    LastOfOne(Delimited(3), f);
    FlatMapOne(DocumentRest, f);
    assert [] + [f] == [f];
  }

  lemma DocumentMeaning()
    ensures Meaning(DocumentStep, MergeDocument, EMPTY_DOCUMENT, DocumentOf)
  {
    forall a, b, f
      ensures DocumentStep(MergeDocument(a, b), f)
           == match DocumentStep(b, f) case None => None case Some(b') => Some(MergeDocument(a, b'))
    {
      assert a.unknown + (b.unknown + [f]) == a.unknown + b.unknown + [f];
    }
    forall a ensures MergeDocument(a, EMPTY_DOCUMENT) == a {
      assert a.unknown + [] == a.unknown;
    }
    forall f ensures DocumentStep(EMPTY_DOCUMENT, f) == Some(DocumentOf([f])) {
      DocumentOfOne(f);
    }
    forall fs, gs ensures DocumentOf(fs + gs) == MergeDocument(DocumentOf(fs), DocumentOf(gs)) {
      DocumentOfConcat(fs, gs);
    }
  }

  lemma DocumentMeans(depth: nat, s: Bytes)
    ensures ParseDocument(depth, EMPTY_DOCUMENT, s)
         == if Whole({}, depth, s) then Some(DocumentOf(FieldsOf({}, depth, s))) else None
  {
    RunAccepts(DocumentStep, f => true, {}, depth, EMPTY_DOCUMENT, s);
    if Whole({}, depth, s) {
      DocumentMeaning();
      RunMeans(DocumentStep, MergeDocument, EMPTY_DOCUMENT, DocumentOf, {}, depth, s);
    }
  }

  // ---------------------------------------------------------- initialization

  /** Some field `n` is a varint. */
  predicate HasVarint(fs: seq<UnknownField>, n: nat)
  {
    exists f :: f in fs && f.VarintField? && f.number == n
  }

  /** Some field `n` is a varint that is one of the declared values of an enum. */
  predicate HasEnum(fs: seq<UnknownField>, n: nat, least: int, greatest: int)
  {
    exists f :: f in fs && f.VarintField? && f.number == n && least <= Signed(f.varint) <= greatest
  }

  predicate HasDelimited(fs: seq<UnknownField>, n: nat)
  {
    exists f :: f in fs && f.LengthDelimited? && f.number == n
  }

  // Every number that a message requires is among its fields, and so it is in every
  // message nested in it.

  predicate PointComplete(fs: seq<UnknownField>)
  {
    HasVarint(fs, 1) && HasVarint(fs, 2)
  }

  predicate PointComesComplete(depth: nat, fs: seq<UnknownField>, n: nat)
  {
    HasDelimited(fs, n) ==> PointComplete(FlatMap(Pieces({}, Below(depth), n), fs))
  }

  predicate DataComplete(depth: nat, fs: seq<UnknownField>)
  {
    && HasEnum(fs, 1, 0, 4) && HasVarint(fs, 2)
    && forall n | n in {4, 5, 6, 10, 11, 12} :: PointComesComplete(depth, fs, n)
  }

  predicate OperationComplete(depth: nat, fs: seq<UnknownField>)
  {
    && HasVarint(fs, 1) && HasDelimited(fs, 2)
    && DataComplete(Below(depth), FlatMap(Pieces(DATA_SUBS, Below(depth), 2), fs))
  }

  predicate OperationsComplete(depth: nat, fs: seq<UnknownField>)
  {
    && HasEnum(fs, 1, 1, 3)
    && forall f | f in fs && f.LengthDelimited? && f.number == 2 ::
         OperationComplete(Below(depth), FieldsOf(OPERATION_SUBS, Below(depth), f.data))
  }

  predicate DocumentComplete(fs: seq<UnknownField>)
  {
    HasVarint(fs, 1) && HasDelimited(fs, 2)
  }

  lemma PointInitializedIff(fs: seq<UnknownField>)
    ensures PointInitialized(PointOf(fs)) <==> PointComplete(fs)
  {
    LastOfSome(Int32(1), fs);
    LastOfSome(Int32(2), fs);
  }

  /** If point `n` is there, it has both coordinates. */
  predicate PointReady(m: OperationDataMsg, n: nat)
    requires n in DATA_SUBS
  {
    DataPoint(m, n).Some? ==> PointInitialized(DataPoint(m, n).value)
  }

  lemma DataPointOf(depth: nat, fs: seq<UnknownField>, n: nat)
    requires n in DATA_SUBS
    ensures DataPoint(DataOf(depth, fs), n) == PointAt(depth, fs, n)
  {
    var m := DataOf(depth, fs);
    if n == 4 {
      assert m.startPoint == PointAt(depth, fs, 4);
    } else if n == 5 {
      assert m.endPoint == PointAt(depth, fs, 5);
    } else if n == 6 {
      assert m.center == PointAt(depth, fs, 6);
    } else if n == 10 {
      assert m.topLeftCorner == PointAt(depth, fs, 10);
    } else if n == 11 {
      assert m.bottomRightCorner == PointAt(depth, fs, 11);
    } else {
      assert m.position == PointAt(depth, fs, 12);
    }
  }

  lemma PointReadyIff(depth: nat, fs: seq<UnknownField>, n: nat)
    requires n in DATA_SUBS
    ensures PointReady(DataOf(depth, fs), n) <==> PointComesComplete(depth, fs, n)
  {
    DataPointOf(depth, fs, n);
    LastOfSome(Delimited(n), fs);
    PointInitializedIff(FlatMap(Pieces({}, Below(depth), n), fs));
  }

  lemma PointsReady(m: OperationDataMsg)
    ensures DataInitialized(m) <==>
              m.dataType.Some? && m.thinkness.Some? && forall n | n in DATA_SUBS :: PointReady(m, n)
  {
  }

  lemma EachPointReady(depth: nat, fs: seq<UnknownField>, m: OperationDataMsg, n: nat)
    requires m == DataOf(depth, fs) && n in DATA_SUBS
    ensures PointReady(m, n) <==> PointComesComplete(depth, fs, n)
  {
    PointReadyIff(depth, fs, n);
  }

  lemma AllPointsReady(depth: nat, fs: seq<UnknownField>, m: OperationDataMsg)
    requires forall n | n in DATA_SUBS :: PointReady(m, n) <==> PointComesComplete(depth, fs, n)
    ensures (forall n | n in DATA_SUBS :: PointReady(m, n)) <==>
              forall n | n in {4, 5, 6, 10, 11, 12} :: PointComesComplete(depth, fs, n)
  {
  }

  lemma DataScalarsOf(depth: nat, fs: seq<UnknownField>, m: OperationDataMsg)
    requires m == DataOf(depth, fs)
    ensures m.dataType.Some? <==> HasEnum(fs, 1, 0, 4)
    ensures m.thinkness.Some? <==> HasVarint(fs, 2)
  {
    LastOfSome(Type(), fs);
    LastOfSome(Int32(2), fs);
  }

  lemma DataInitializedIff(depth: nat, fs: seq<UnknownField>)
    ensures DataInitialized(DataOf(depth, fs)) <==> DataComplete(depth, fs)
  {
    var m := DataOf(depth, fs);
    DataScalarsOf(depth, fs, m);
    forall n | n in DATA_SUBS
      ensures PointReady(m, n) <==> PointComesComplete(depth, fs, n)
    {
      EachPointReady(depth, fs, m, n);
    }
    AllPointsReady(depth, fs, m);
    PointsReady(m);
  }

  lemma OperationInitializedIff(depth: nat, fs: seq<UnknownField>)
    ensures OperationInitialized(OperationOf(depth, fs)) <==> OperationComplete(depth, fs)
  {
    LastOfSome(UInt32(1), fs);
    LastOfSome(Delimited(2), fs);
    DataInitializedIff(Below(depth), FlatMap(Pieces(DATA_SUBS, Below(depth), 2), fs));
  }

  lemma {:induction false} ElementsOf(depth: nat, fs: seq<UnknownField>)
    ensures forall op :: op in FlatMap(Element(depth), fs) <==>
              exists f :: f in fs && f.LengthDelimited? && f.number == 2
                          && op == OperationOf(Below(depth), FieldsOf(OPERATION_SUBS, Below(depth), f.data))
    decreases fs
  {
    if fs != [] {
      ElementsOf(depth, fs[1..]);
      assert forall f :: f in fs <==> f == fs[0] || f in fs[1..];
    }
  }

  lemma OperationsInitializedIff(depth: nat, fs: seq<UnknownField>)
    ensures OperationsInitialized(OperationsOf(depth, fs)) <==> OperationsComplete(depth, fs)
  {
    LastOfSome(State(), fs);
    ElementsOf(depth, fs);
    forall f | f in fs && f.LengthDelimited? && f.number == 2
      ensures OperationInitialized(OperationOf(Below(depth), FieldsOf(OPERATION_SUBS, Below(depth), f.data)))
         <==> OperationComplete(Below(depth), FieldsOf(OPERATION_SUBS, Below(depth), f.data))
    {
      OperationInitializedIff(Below(depth), FieldsOf(OPERATION_SUBS, Below(depth), f.data));
    }
  }

  lemma DocumentInitializedIff(fs: seq<UnknownField>)
    ensures DocumentInitialized(DocumentOf(fs)) <==> DocumentComplete(fs)
  {
    LastOfSome(UInt32(1), fs);
    LastOfSome(Delimited(2), fs);
  }

  // So it is for what a message is written as: it is initialized exactly if its own
  // serialized fields, and those of every message in it, hold the required numbers.

  lemma PointWritten(depth: nat, m: PointMsg)
    requires PointCanonical(depth, m) && |SerializePoint(m)| < 0x8000_0000
    ensures PointInitialized(m) <==> PointComplete(FieldsOf({}, depth, SerializePoint(m)))
  {
    PointRoundTrip(depth, m);
    PointMeans(depth, SerializePoint(m));
    PointInitializedIff(FieldsOf({}, depth, SerializePoint(m)));
  }

  lemma DataWritten(depth: nat, m: OperationDataMsg)
    requires DataCanonical(depth, m) && |SerializeData(m)| < 0x8000_0000
    ensures DataInitialized(m) <==> DataComplete(depth, FieldsOf(DATA_SUBS, depth, SerializeData(m)))
  {
    DataRoundTrip(depth, m);
    DataMeans(depth, SerializeData(m));
    DataInitializedIff(depth, FieldsOf(DATA_SUBS, depth, SerializeData(m)));
  }

  lemma OperationWritten(depth: nat, m: OperationMsg)
    requires OperationCanonical(depth, m) && |SerializeOperation(m)| < 0x8000_0000
    ensures OperationInitialized(m) <==> OperationComplete(depth, FieldsOf(OPERATION_SUBS, depth, SerializeOperation(m)))
  {
    OperationRoundTrip(depth, m);
    OperationMeans(depth, SerializeOperation(m));
    OperationInitializedIff(depth, FieldsOf(OPERATION_SUBS, depth, SerializeOperation(m)));
  }

  lemma OperationsWritten(depth: nat, m: OperationsMsg)
    requires OperationsCanonical(depth, m) && |SerializeOperations(m)| < 0x8000_0000
    ensures OperationsInitialized(m)
       <==> OperationsComplete(depth, FieldsOf(OPERATIONS_SUBS, depth, SerializeOperations(m)))
  {
    OperationsRoundTrip(depth, m);
    OperationsMeans(depth, SerializeOperations(m));
    OperationsInitializedIff(depth, FieldsOf(OPERATIONS_SUBS, depth, SerializeOperations(m)));
  }

  lemma DocumentWritten(depth: nat, m: DocumentMsg)
    requires DocumentCanonical(depth, m)
    ensures DocumentInitialized(m) <==> DocumentComplete(FieldsOf({}, depth, SerializeDocument(m)))
  {
    DocumentRoundTrip(depth, m);
    DocumentMeans(depth, SerializeDocument(m));
    DocumentInitializedIff(FieldsOf({}, depth, SerializeDocument(m)));
  }
}
