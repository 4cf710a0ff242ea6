/** The members of `Operation_OperationData` and what its accessors show of
    them. */
module OperationDataMembers {
  import opened Prelude
  import opened WireFormat
  import opened HasBits
  import opened PointCodec
  import opened OperationDataCodec

  datatype Members = Members(
    dataType: Member<DataType>,
    thinkness: Member<int32>,
    color: Member<int32>,
    angle: Member<uint32>,
    a: Member<uint32>,
    b: Member<uint32>,
    isStart: Member<bool>,
    fill: Member<bool>,
    alpha: Member<uint32>)

  const DEFAULTS := Members(Unset(0), Unset(0), Unset(0), Unset(0), Unset(0), Unset(0),
                            Unset(false), Unset(false), Unset(0))

  /** A scalar whose has bit is clear holds its default. */
  predicate ScalarsValid(f: Members)
  {
    && f.dataType.Valid(0) && f.thinkness.Valid(0) && f.color.Valid(0)
    && f.angle.Valid(0) && f.a.Valid(0) && f.b.Valid(0)
    && f.isStart.Valid(false) && f.fill.Valid(false) && f.alpha.Valid(0)
  }

  type ValidMembers = f: Members | ScalarsValid(f) witness DEFAULTS

  /** What the accessors show, given what the points show whose has bit is set. */
  function Show(f: Members, shown: map<nat, PointMsg>, unknown: seq<UnknownField>): OperationDataMsg
  {
    ShowWith(f, PointShown(shown, 4), PointShown(shown, 5), PointShown(shown, 6),
             PointShown(shown, 10), PointShown(shown, 11), PointShown(shown, 12), unknown)
  }

  function ShowWith(f: Members, p4: Option<PointMsg>, p5: Option<PointMsg>, p6: Option<PointMsg>,
                    p10: Option<PointMsg>, p11: Option<PointMsg>, p12: Option<PointMsg>,
                    unknown: seq<UnknownField>): OperationDataMsg
  {
    OperationDataMsg(
      f.dataType.Shown(), f.thinkness.Shown(), f.color.Shown(), p4, p5, p6, f.angle.Shown(), f.a.Shown(), f.b.Shown(),
      p10, p11, p12, f.fill.Shown(), f.alpha.Shown(), f.isStart.Shown(), unknown)
  }

  /** Some has bit of the block 0 to 7 is set. */
  predicate LowBlock(f: Members, has: set<nat>)
  {
    f.dataType.has || f.thinkness.has || f.color.has || 4 in has || 5 in has || 6 in has || f.angle.has || f.a.has
  }

  /** Some has bit of the block 8 to 15 is set. */
  predicate HighBlock(f: Members, has: set<nat>)
  {
    f.b.has || 10 in has || 11 in has || 12 in has || f.isStart.has || f.fill.has || f.alpha.has
  }

  /** The scalars' share of `OperationData::Clear`: a block of values is reset
      only when one of its has bits is set, and then all has bits are dropped. */
  function ClearScalars(f: Members, low: bool, high: bool): Members
  {
    var g := if low then f.(dataType := f.dataType.Reset(0), thinkness := f.thinkness.Reset(0), color := f.color.Reset(0),
                            angle := f.angle.Reset(0), a := f.a.Reset(0)) else f;
    var h := if high then g.(b := g.b.Reset(0), isStart := g.isStart.Reset(false), fill := g.fill.Reset(false),
                             alpha := g.alpha.Reset(0)) else g;
    Members(h.dataType.Drop(), h.thinkness.Drop(), h.color.Drop(), h.angle.Drop(), h.a.Drop(), h.b.Drop(),
            h.isStart.Drop(), h.fill.Drop(), h.alpha.Drop())
  }

  /** The guards skip nothing that needs clearing, because a value whose has bit
      is clear is already the default. */
  lemma ClearResets(f: Members, has: set<nat>)
    requires ScalarsValid(f) && has <= DATA_SUBS
    ensures ClearScalars(f, LowBlock(f, has), HighBlock(f, has)) == DEFAULTS
    ensures forall n | n in has :: if n <= 6 then LowBlock(f, has) && n >= 4 else HighBlock(f, has) && 10 <= n <= 12
  {
  }

  // ---------------------------------------------------------------- setters

  /** The varint cases of the parser: the setter of field `n`, or an enum value
      that is kept as unknown. */
  function StoreVarint(f: Members, unknown: seq<UnknownField>, n: nat, value: uint32): (Members, seq<UnknownField>)
    requires n in {1, 2, 3, 13, 15}
  {
    match n
    case 1 =>
      var v := ToInt32(value);
      if DataTypeIsValid(v) then (f.(dataType := Set(v)), unknown)
      else (f, unknown + [VarintField(1, SignExtend(v))])
    case 2 => (f.(thinkness := Set(ToInt32(value))), unknown)
    case 3 => (f.(color := Set(ToInt32(value))), unknown)
    case 13 => (f.(fill := Set(value != 0)), unknown)
    case 15 => (f.(isStart := Set(value != 0)), unknown)
  }

  /** The setters of the float members. */
  function StoreFixed32(f: Members, n: nat, value: uint32): Members
    requires n in {7, 8, 9, 14}
  {
    match n
    case 7 => f.(angle := Set(value))
    case 8 => f.(a := Set(value))
    case 9 => f.(b := Set(value))
    case 14 => f.(alpha := Set(value))
  }

  lemma StoreVarintShows(f: Members, shown: map<nat, PointMsg>, unknown: seq<UnknownField>,
                         n: nat, wire: uint64, depth: nat)
    requires n in {1, 2, 3, 13, 15}
    ensures var (f', unknown') := StoreVarint(f, unknown, n, wire % TWO_32);
      && DataStepAt(depth, Show(f, shown, unknown), VarintField(n, wire)) == Some(Show(f', shown, unknown'))
      && (ScalarsValid(f) ==> ScalarsValid(f'))
  {
    if n == 1 {} else if n == 2 {} else if n == 3 {} else if n == 13 {} else {}
  }

  lemma StoreFixed32Shows(f: Members, shown: map<nat, PointMsg>, unknown: seq<UnknownField>,
                          n: nat, value: uint32, depth: nat)
    requires n in {7, 8, 9, 14}
    ensures var f' := StoreFixed32(f, n, value);
      && DataStepAt(depth, Show(f, shown, unknown), Fixed32Field(n, value)) == Some(Show(f', shown, unknown))
      && (ScalarsValid(f) ==> ScalarsValid(f'))
  {
    if n == 7 {} else if n == 8 {} else if n == 9 {} else {}
  }

  /** Setting point `n`. */
  lemma SetPointShows(f: Members, shown: map<nat, PointMsg>, unknown: seq<UnknownField>,
                      n: nat, p: PointMsg)
    requires n in DATA_SUBS
    ensures Show(f, shown[n := p], unknown) == SetDataPoint(Show(f, shown, unknown), n, Some(p))
  {
    if n == 4 {} else if n == 5 {} else if n == 6 {} else if n == 10 {} else if n == 11 {} else {}
  }

  lemma UnsetPointShows(f: Members, shown: map<nat, PointMsg>, unknown: seq<UnknownField>, n: nat)
    requires n in DATA_SUBS
    ensures Show(f, shown - {n}, unknown) == SetDataPoint(Show(f, shown, unknown), n, None)
  {
    if n == 4 {} else if n == 5 {} else if n == 6 {} else if n == 10 {} else if n == 11 {} else {}
  }

  lemma ShowsPoint(f: Members, shown: map<nat, PointMsg>, unknown: seq<UnknownField>, n: nat)
    requires n in DATA_SUBS
    ensures DataPoint(Show(f, shown, unknown), n) == PointShown(shown, n)
  {
  }

  // ---------------------------------------------------------------- merging

  /** `if (from.has_...()) set_...(from....())` for the scalars of each block. */
  function MergeLow(f: Members, g: Members): Members
  {
    f.(dataType := Merged(f.dataType, g.dataType), thinkness := Merged(f.thinkness, g.thinkness),
       color := Merged(f.color, g.color), angle := Merged(f.angle, g.angle), a := Merged(f.a, g.a))
  }

  function MergeHigh(f: Members, g: Members): Members
  {
    f.(b := Merged(f.b, g.b), isStart := Merged(f.isStart, g.isStart),
       fill := Merged(f.fill, g.fill), alpha := Merged(f.alpha, g.alpha))
  }

  /** Both blocks, each only if one of the has bits of the source is set in it. */
  function MergeScalars(f: Members, g: Members, low: bool, high: bool): Members
  {
    var l := if low then MergeLow(f, g) else f;
    if high then MergeHigh(l, g) else l
  }

  /** The guards skip nothing that needs merging. */
  lemma MergeGuards(f: Members, g: Members, has: set<nat>)
    ensures MergeScalars(f, g, LowBlock(g, has), HighBlock(g, has)) == MergeHigh(MergeLow(f, g), g)
    ensures ScalarsValid(f) ==> ScalarsValid(MergeHigh(MergeLow(f, g), g))
    ensures has <= DATA_SUBS ==>
      forall n | n in has :: if n <= 6 then LowBlock(g, has) && n >= 4 else HighBlock(g, has) && 10 <= n <= 12
  {
  }

  lemma InitializedShows(f: Members, shown: map<nat, PointMsg>, unknown: seq<UnknownField>)
    requires shown.Keys <= DATA_SUBS
    ensures DataInitialized(Show(f, shown, unknown))
       <==> f.dataType.has && f.thinkness.has && forall n | n in shown :: PointInitialized(shown[n])
  {
    forall n | n in DATA_SUBS
      ensures DataPoint(Show(f, shown, unknown), n) == PointShown(shown, n)
    {
      ShowsPoint(f, shown, unknown, n);
    }
  }

  lemma MergeShowsWith(f: Members, u: seq<UnknownField>, g: Members, other: OperationDataMsg,
                       p4: Option<PointMsg>, p5: Option<PointMsg>, p6: Option<PointMsg>,
                       p10: Option<PointMsg>, p11: Option<PointMsg>, p12: Option<PointMsg>)
    requires other == ShowWith(g, other.startPoint, other.endPoint, other.center,
                               other.topLeftCorner, other.bottomRightCorner, other.position, other.unknown)
    ensures ShowWith(MergeHigh(MergeLow(f, g), g),
                     MergePoints(p4, other.startPoint), MergePoints(p5, other.endPoint), MergePoints(p6, other.center),
                     MergePoints(p10, other.topLeftCorner), MergePoints(p11, other.bottomRightCorner),
                     MergePoints(p12, other.position), u + other.unknown)
         == MergeData(ShowWith(f, p4, p5, p6, p10, p11, p12, u), other)
  {
  }

  /** Merging the members merges what they show. */
  lemma MergeShows(f: Members, s: map<nat, PointMsg>, u: seq<UnknownField>,
                   g: Members, t: map<nat, PointMsg>, v: seq<UnknownField>)
    ensures Show(MergeHigh(MergeLow(f, g), g), MergeTables(s, t), u + v) == MergeData(Show(f, s, u), Show(g, t, v))
  {
    MergePointsShown(s, t, 4);
    MergePointsShown(s, t, 5);
    MergePointsShown(s, t, 6);
    MergePointsShown(s, t, 10);
    MergePointsShown(s, t, 11);
    MergePointsShown(s, t, 12);
    MergeShowsWith(f, u, g, Show(g, t, v), PointShown(s, 4), PointShown(s, 5), PointShown(s, 6),
                   PointShown(s, 10), PointShown(s, 11), PointShown(s, 12));
  }
}
