/** Values of `Operation.OperationData.Point` and their wire form. */
module PointCodec {
  import opened Prelude
  import opened WireFormat
  import opened MessageEngine
  import opened TotalLimit
  import Varint

  datatype PointMsg = PointMsg(x: Option<int32>, y: Option<int32>, unknown: seq<UnknownField>)

  const EMPTY_POINT := PointMsg(None, None, [])

  /** The cases of `Point::MergePartialFromCodedStream`. */
  function PointStep(m: PointMsg, f: UnknownField): Option<PointMsg>
  {
    match f
    case VarintField(1, v) => Some(m.(x := Some(ToInt32(v % TWO_32))))
    case VarintField(2, v) => Some(m.(y := Some(ToInt32(v % TWO_32))))
    case _ => Some(m.(unknown := m.unknown + [f]))
  }

  function ParsePoint(depth: nat, m: PointMsg, s: Bytes): Option<PointMsg>
  {
    Run(PointStep, {}, depth, m, s)
  }

  /** The case of `y` ends in `ExpectAtEnd`. */
  function PointCloses(f: UnknownField, short: bool): bool
  {
    f.VarintField? && f.number == 2
  }

  /** The parse up to an end of the given kind. */
  function ParsePointTo(depth: nat, m: PointMsg, s: Bytes, end: End): Outcome<PointMsg>
  {
    RunTo(PointStep, PointCloses, {}, depth, m, s, end)
  }

  function PointOnward(depth: nat, m: PointMsg, rest: Bytes, end: End, closed: bool): Outcome<PointMsg>
  {
    Onward(PointStep, PointCloses, {}, depth, m, rest, end, closed)
  }

  /** `ReadMessageNoVirtual` into a point: the new point and what follows it. */
  function ReadPointTo(depth: nat, m: PointMsg, sub: Option<Submessage>): Outcome<(PointMsg, Bytes)>
  {
    ReadTo(PointStep, PointCloses, {}, depth, m, sub)
  }

  // What a turn of the loop does for each way a field can be read.

  function SetCoordinate(m: PointMsg, n: nat, v: int32): PointMsg
    requires n in {1, 2}
  {
    if n == 1 then m.(x := Some(v)) else m.(y := Some(v))
  }

  lemma CoordinateTurn(depth: nat, m: PointMsg, s: Bytes, end: End, n: FieldNumber, body: Bytes)
    requires Varint.ReadVarint32(s) == Got(MakeTag(n, WIRETYPE_VARINT), body) && n in {1, 2}
    ensures match Varint.ReadVarint32(body)
            case Fail => ParsePointTo(depth, m, s, end) == Rejected
            case Got(v, rest) =>
              ParsePointTo(depth, m, s, end) == PointOnward(depth, SetCoordinate(m, n, ToInt32(v)), rest, end, n == 2)
  {
    VarintNext({}, depth, s, n, body);
    var v := if Varint.ReadVarint32(body).Got? then Varint.ReadVarint32(body).value else 0;
    FieldTurn(PointStep, PointCloses, {}, depth, m, s, end, SetCoordinate(m, n, ToInt32(v)));
    if n == 1 {} else {}
  }

  function PointAddUnknown(m: PointMsg, f: UnknownField): PointMsg
  {
    m.(unknown := m.unknown + [f])
  }

  lemma PointSkipTurn(depth: nat, m: PointMsg, s: Bytes, end: End, tag: uint32, body: Bytes)
    requires Varint.ReadVarint32(s) == Got(tag, body) && tag !in {0, 8, 16} && TagWireType(tag) != WIRETYPE_END_GROUP
    ensures match SkipField(depth, tag, body)
            case Fail => ParsePointTo(depth, m, s, end) == Rejected
            case Got(f, rest) =>
              ParsePointTo(depth, m, s, end) == PointOnward(depth, PointAddUnknown(m, f), rest, end, false)
  {
    SkippedNext({}, depth, s, tag, body);
    var skipped := SkipField(depth, tag, body);
    FieldTurn(PointStep, PointCloses, {}, depth, m, s, end,
              if skipped.Got? then PointAddUnknown(m, skipped.value) else m);
  }

  function MergePoint(a: PointMsg, b: PointMsg): PointMsg
  {
    PointMsg(Later(a.x, b.x), Later(a.y, b.y), a.unknown + b.unknown)
  }

  function MergePoints(a: Option<PointMsg>, b: Option<PointMsg>): Option<PointMsg>
  {
    if b.None? then a else Some(MergePoint(a.GetOr(EMPTY_POINT), b.value))
  }

  function PointFields(m: PointMsg): seq<UnknownField>
  {
    Int32Field(1, m.x) + Int32Field(2, m.y) + m.unknown
  }

  function SerializePoint(m: PointMsg): Bytes
  {
    EncodeFields(PointFields(m))
  }

  lemma PointSizes(m: PointMsg)
    ensures SerializePoint(m)
         == EncodeFields(Int32Field(1, m.x)) + EncodeFields(Int32Field(2, m.y)) + EncodeFields(m.unknown)
    ensures EncodeFields(Int32Field(1, m.x) + Int32Field(2, m.y))
         == EncodeFields(Int32Field(1, m.x)) + EncodeFields(Int32Field(2, m.y))
  {
    EncodeFieldsConcat(Int32Field(1, m.x) + Int32Field(2, m.y), m.unknown);
    EncodeFieldsConcat(Int32Field(1, m.x), Int32Field(2, m.y));
  }

  predicate PointInitialized(m: PointMsg)
  {
    m.x.Some? && m.y.Some?
  }

  /** A field the parser files under the unknown ones, unchanged. */
  predicate PointKeeps(depth: nat, f: UnknownField)
  {
    Wire(depth, f) && !(f.VarintField? && f.number in {1, 2})
  }

  predicate PointCanonical(depth: nat, m: PointMsg)
  {
    forall f | f in m.unknown :: PointKeeps(depth, f)
  }

  lemma PointMergeUnit(m: PointMsg)
    ensures MergePoint(m, EMPTY_POINT) == m && MergePoint(EMPTY_POINT, m) == m
  {
  }

  lemma PointMergeAssociative(a: PointMsg, b: PointMsg, c: PointMsg)
    ensures MergePoint(MergePoint(a, b), c) == MergePoint(a, MergePoint(b, c))
  {
  }

  lemma PointParseMerges(depth: nat, a: PointMsg, b: PointMsg, s: Bytes)
    ensures ParsePoint(depth, MergePoint(a, b), s)
         == match ParsePoint(depth, b, s) case None => None case Some(b') => Some(MergePoint(a, b'))
  {
    forall a, b, f
      ensures PointStep(MergePoint(a, b), f)
           == match PointStep(b, f) case None => None case Some(b') => Some(MergePoint(a, b'))
    {
      assert a.unknown + (b.unknown + [f]) == a.unknown + b.unknown + [f];
    }
    RunMerge(PointStep, MergePoint, {}, depth, a, b, s);
  }

  lemma PointParseCanonical(depth: nat, m: PointMsg, s: Bytes)
    requires PointCanonical(depth, m) && ParsePoint(depth, m, s).Some?
    ensures PointCanonical(depth, ParsePoint(depth, m, s).value)
  {
    RunKeeps(PointStep, m => PointCanonical(depth, m), {}, depth, m, s);
  }

  lemma {:induction false} PointFoldUnknown(depth: nat, m: PointMsg, fs: seq<UnknownField>)
    requires forall f | f in fs :: PointKeeps(depth, f)
    ensures Fold(PointStep, m, fs) == Some(m.(unknown := m.unknown + fs))
    decreases fs
  {
    if fs == [] {
      assert m.unknown + fs == m.unknown;
    } else {
      assert fs[0] in fs;
      assert PointStep(m, fs[0]) == Some(m.(unknown := m.unknown + [fs[0]]));
      PointFoldUnknown(depth, m.(unknown := m.unknown + [fs[0]]), fs[1..]);
      assert m.unknown + fs == m.unknown + [fs[0]] + fs[1..];
    }
  }

  lemma PointFoldKnown(m: PointMsg)
    ensures Fold(PointStep, EMPTY_POINT, Int32Field(1, m.x) + Int32Field(2, m.y)) == Some(m.(unknown := []))
  {
    FoldConcat(PointStep, EMPTY_POINT, Int32Field(1, m.x), Int32Field(2, m.y));
    if m.x.Some? {
      SignExtendRoundTrip(m.x.value);
    }
    if m.y.Some? {
      SignExtendRoundTrip(m.y.value);
    }
  }

  lemma PointRoundTrip(depth: nat, m: PointMsg)
    requires PointCanonical(depth, m) && |SerializePoint(m)| < TWO_31
    ensures ParsePoint(depth, EMPTY_POINT, SerializePoint(m)) == Some(m)
  {
    var known := Int32Field(1, m.x) + Int32Field(2, m.y);
    RunEncoded(PointStep, {}, depth, EMPTY_POINT, known + m.unknown);
    FoldConcat(PointStep, EMPTY_POINT, known, m.unknown);
    PointFoldKnown(m);
    PointFoldUnknown(depth, m.(unknown := []), m.unknown);
    assert [] + m.unknown == m.unknown;
  }

  lemma MergePointsUnit(a: Option<PointMsg>)
    ensures MergePoints(a, None) == a && MergePoints(None, a) == a
  {
    if a.Some? {
      PointMergeUnit(a.value);
    }
  }

  lemma MergePointsAssociative(a: Option<PointMsg>, b: Option<PointMsg>, c: Option<PointMsg>)
    ensures MergePoints(MergePoints(a, b), c) == MergePoints(a, MergePoints(b, c))
  {
    PointMergeAssociative(a.GetOr(EMPTY_POINT), b.GetOr(EMPTY_POINT), c.GetOr(EMPTY_POINT));
    PointMergeUnit(a.GetOr(EMPTY_POINT));
    PointMergeUnit(c.GetOr(EMPTY_POINT));
  }

  // -------------------------------------- the points of a message, by number

  function PointShown(shown: map<nat, PointMsg>, n: nat): Option<PointMsg>
  {
    if n in shown then Some(shown[n]) else None
  }

  /** The points of a message by field number, once those of another have been
      merged in: `mutable_...()->MergeFrom(...)` for every point of `t`. */
  function MergeTables(s: map<nat, PointMsg>, t: map<nat, PointMsg>): map<nat, PointMsg>
  {
    map n | n in s.Keys + t.Keys ::
      if n !in t then s[n] else MergePoint(if n in s then s[n] else EMPTY_POINT, t[n])
  }

  lemma MergePointsShown(s: map<nat, PointMsg>, t: map<nat, PointMsg>, n: nat)
    ensures PointShown(MergeTables(s, t), n) == MergePoints(PointShown(s, n), PointShown(t, n))
  {
  }

  lemma MergeTablesUnique(s: map<nat, PointMsg>, t: map<nat, PointMsg>, r: map<nat, PointMsg>)
    requires forall n :: PointShown(r, n) == MergePoints(PointShown(s, n), PointShown(t, n))
    ensures r == MergeTables(s, t)
  {
    forall n: nat
      ensures PointShown(r, n) == PointShown(MergeTables(s, t), n)
    {
      MergePointsShown(s, t, n);
    }
    assert forall n :: n in r <==> PointShown(r, n).Some?;
    assert forall n :: n in MergeTables(s, t) <==> PointShown(MergeTables(s, t), n).Some?;
  }
}
