/** The generated class `Operation_OperationData`. */
module OperationDataMessage {
  import opened Prelude
  import opened WireFormat
  import opened MessageEngine
  import opened TotalLimit
  import opened HasBits
  import opened CodedStream
  import opened CodedTarget
  import opened PointCodec
  import opened PointMessage
  import opened PointTable
  import opened OperationDataCodec
  import opened OperationDataMembers
  import opened OperationDataWriting
  import Varint

  class OperationData {
    /** A clear has bit means a default scalar. */
    var members: ValidMembers
    const points: Points
    var unknown: seq<UnknownField>
    var cachedSize: nat

    ghost var Repr: set<object>

    ghost predicate Valid()
      reads this, Repr
    {
      Owns() && points.Valid() && points.has <= DATA_SUBS
    }

    ghost predicate Owns()
      reads this, Repr
    {
      this in Repr && points in Repr && points.Repr <= Repr && this !in points.Repr
    }

    /** What the accessors show. */
    ghost function View(): OperationDataMsg
      reads this`members, this`unknown, points`shown
    {
      Show(members, points.shown, unknown)
    }

    constructor ()
      ensures Valid() && View() == EMPTY_DATA && fresh(Repr)
    {
      members, unknown, cachedSize := DEFAULTS, [], 0;
      points := new Points();
      new;
      Repr := {this} + points.Repr;
    }

    /** Takes over what the points have come to own. */
    ghost method Adopt()
      requires this in Repr && points in Repr && this !in points.Repr && points.Valid() && points.has <= DATA_SUBS
      modifies this`Repr
      ensures Valid() && Repr == old(Repr) + points.Repr
    {
      Repr := Repr + points.Repr;
    }

    // ------------------------------------------------------------- accessors

    method SetDataType(value: DataType)
      requires Valid()
      modifies this`members
      ensures Valid() && View() == old(View()).(dataType := Some(value))
    {
      members := members.(dataType := Set(value));
    }

    method ClearDataType()
      requires Valid()
      modifies this`members
      ensures Valid() && View() == old(View()).(dataType := None)
    {
      members := members.(dataType := Unset(0));
    }

    method SetThinkness(value: int32)
      requires Valid()
      modifies this`members
      ensures Valid() && View() == old(View()).(thinkness := Some(value))
    {
      members := members.(thinkness := Set(value));
    }

    /** `mutable_start_point()` and its like. */
    method MutablePoint(n: nat) returns (p: Point)
      requires Valid() && n in DATA_SUBS
      modifies this`Repr, points
      ensures Valid() && fresh(Repr - old(Repr)) && p in points.Repr
      ensures n in points.has && p == points.slots[n] && p.Valid()
      ensures p.View() == DataPoint(old(View()), n).GetOr(EMPTY_POINT)
      ensures View() == SetDataPoint(old(View()), n, Some(p.View()))
    {
      ShowsPoint(members, points.shown, unknown, n);
      SetPointShows(members, points.shown, unknown, n, points.At(n));
      p := points.Mutable(n);
      Adopt();
    }

    /** Point `n` has been changed in place, and no other. */
    ghost method PointChanged(n: nat)
      requires Owns() && points.Owns() && points.shown.Keys == points.has <= DATA_SUBS
      requires n in points.has && points.slots[n].Valid()
      requires forall k | k in points.slots && k != n :: Points.Shows(points.slots[k], points.At(k))
      modifies points`shown
      ensures Valid() && View() == SetDataPoint(old(View()), n, Some(points.slots[n].View()))
    {
      SetPointShows(members, points.shown, unknown, n, points.slots[n].View());
      points.Changed(n);
    }

    /** A setter of the point that `mutable_...()` returns writes through to these
        data: here `mutable_start_point()->set_x(value)` and its like. */
    method SetPointX(n: nat, value: int32)
      requires Valid() && n in DATA_SUBS
      modifies Repr
      ensures Valid() && fresh(Repr - old(Repr))
      ensures View() == WithPointX(old(View()), n, value)
    {
      ghost var m := View();
      var p := MutablePoint(n);
      ghost var q := p.View();
      p.SetX(value);
      PointChanged(n);
      SetPointTwice(m, n, q, p.View());
    }

    /** `release_start_point()` and its like: the caller gets the point. */
    method ReleasePoint(n: nat) returns (p: Point?)
      requires Valid() && n in DATA_SUBS
      modifies this`Repr, points
      ensures Valid() && Repr <= old(Repr) && View() == SetDataPoint(old(View()), n, None)
      ensures p != null ==> p !in Repr && p.Valid() && p.View() == DataPoint(old(View()), n).GetOr(EMPTY_POINT)
    {
      ShowsPoint(members, points.shown, unknown, n);
      UnsetPointShows(members, points.shown, unknown, n);
      p := points.Release(n);
      Repr := Repr - {p};
    }

    method ClearPoint(n: nat)
      requires Valid() && n in DATA_SUBS
      modifies points.Repr
      ensures Valid() && View() == SetDataPoint(old(View()), n, None)
    {
      UnsetPointShows(members, points.shown, unknown, n);
      points.Clear(n);
    }

    // ------------------------------------------------- clearing and merging

    /** Members are reset block by block, and a block only if one of its has bits
        is set; every member ends at its default all the same. */
    method Clear()
      requires Valid()
      modifies Repr
      ensures Valid() && Repr == old(Repr)
      ensures View() == EMPTY_DATA && members == DEFAULTS
    {
      var low, high := LowBlock(members, points.has), HighBlock(members, points.has);
      ClearResets(members, points.has);
      members := ClearScalars(members, low, high);
      points.ClearAll(low, high);
      unknown := [];
    }

    method MergeFrom(from: OperationData)
      requires Valid() && from.Valid() && Repr !! from.Repr
      modifies Repr
      ensures Valid() && fresh(Repr - old(Repr))
      ensures View() == MergeData(old(View()), old(from.View()))
    {
      var low, high := LowBlock(from.members, from.points.has), HighBlock(from.members, from.points.has);
      MergeGuards(members, from.members, from.points.has);
      MergeShows(members, points.shown, unknown, from.members, from.points.shown, from.unknown);
      members := MergeScalars(members, from.members, low, high);
      unknown := unknown + from.unknown;
      points.MergeFrom(from.points, low, high);
      Adopt();
    }

    method CopyFrom(from: OperationData)
      requires Valid() && from.Valid() && (from == this || Repr !! from.Repr)
      modifies Repr
      ensures Valid() && fresh(Repr - old(Repr))
      ensures View() == old(from.View())
    {
      if from == this {
        return;
      }
      DataMergeUnit(from.View());
      Clear();
      MergeFrom(from);
    }

    method IsInitialized() returns (r: bool)
      requires Valid()
      ensures r == DataInitialized(View())
    {
      InitializedShows(members, points.shown, unknown);
      if !(members.dataType.has && members.thinkness.has) {
        return false;
      }
      r := points.AllInitialized();
    }

    /** The share of `Swap` besides the points, one side. */
    method Take(f: ValidMembers, fields: seq<UnknownField>, size: nat)
      requires Valid()
      modifies this`members, this`unknown, this`cachedSize
      ensures Valid() && members == f && unknown == fields
    {
      members, unknown, cachedSize := f, fields, size;
    }

    /** `Repr` after the points have changed places with those of another message. */
    ghost method Reown()
      requires this !in points.Repr && points.Valid() && points.has <= DATA_SUBS
      modifies this`Repr
      ensures Valid() && Repr == {this} + points.Repr
    {
      Repr := {this} + points.Repr;
    }

    method SwapOther(other: OperationData)
      requires Valid() && other.Valid() && Repr !! other.Repr
      modifies this, other, points, other.points
      ensures Valid() && other.Valid() && Repr !! other.Repr
      ensures View() == old(other.View()) && other.View() == old(View())
    {
      var f, fields, size := members, unknown, cachedSize;
      Take(other.members, other.unknown, other.cachedSize);
      other.Take(f, fields, size);
      points.Swap(other.points);
      Reown();
      other.Reown();
    }

    method Swap(other: OperationData)
      requires Valid() && other.Valid() && (other == this || Repr !! other.Repr)
      modifies this, other, points, other.points
      ensures Valid() && other.Valid() && (other != this ==> Repr !! other.Repr)
      ensures View() == old(other.View()) && other.View() == old(View())
    {
      if other != this {
        SwapOther(other);
      }
    }

    // --------------------------------------------------------------- parsing

    /** The parse goes on: what is left of it, from the message reached, comes to
        `goal`. `jump` is the tag whose case a matched `ExpectTag` goes to, or 0 for
        the top of the loop; `whole` is the input with that tag. */
    ghost predicate Going(input: CodedInputStream, level: (nat, nat, nat), jump: uint32, whole: Bytes,
                          goal: Outcome<OperationDataMsg>)
      reads this, Repr, input
    {
      && Valid() && input.ReadyAt(level) && input.Pending(jump, whole)
      && goal == ParseDataTo(input.depth, View(), whole, input.End())
    }

    /** The parse is over and has come to `goal`. */
    ghost predicate Over(input: CodedInputStream, level: (nat, nat, nat), ok: bool, goal: Outcome<OperationDataMsg>)
      reads this, Repr, input
    {
      && Valid() && input.Valid() && (ok && input.legitimateEnd ==> input.EndedAt(level))
      && goal == Ended(ok && input.legitimateEnd, input.broken, View())
    }

    /** After a case, before what closes it. */
    ghost predicate Closing(input: CodedInputStream, level: (nat, nat, nat), last: bool, goal: Outcome<OperationDataMsg>)
      reads this, Repr, input
    {
      && Valid() && input.ReadyAt(level)
      && goal == DataOnward(input.depth, View(), input.Rest(), input.End(), last)
    }

    // The cases of the parser, by wire type. Each starts after its tag; `whole`
    // is the input with the tag, and `goal` is what the parse of it comes to.

    /** Reads a varint into the member of field `n`, or keeps an undeclared enum
        value as unknown. */
    method ReadVarint(n: nat, input: CodedInputStream, ghost depth: nat) returns (ok: bool)
      requires Valid() && input.Ready() && input !in Repr && n in {1, 2, 3, 13, 15}
      modifies this`members, this`unknown, input`position
      ensures Valid() && input.Ready()
      ensures match Varint.ReadVarint64(old(input.Rest()))
              case Fail => !ok
              case Got(v, rest) =>
                ok && input.Rest() == rest && DataStepAt(depth, old(View()), VarintField(n, v)) == Some(View())
    {
      ghost var wire := Varint.ReadVarint64(input.Rest());
      var value;
      ok, value := input.ReadVarint32();
      if ok {
        StoreVarintShows(members, points.shown, unknown, n, wire.value, depth);
        var (members', unknown') := StoreVarint(members, unknown, n, value);
        members, unknown := members', unknown';
      }
    }

    method ParseVarintCase(n: nat, input: CodedInputStream, ghost whole: Bytes, ghost goal: Outcome<OperationDataMsg>)
      returns (ok: bool)
      requires Valid() && input.Ready() && input !in Repr && n in {1, 2, 3, 13, 15}
      requires Varint.ReadVarint32(whole) == Got(MakeTag(n, WIRETYPE_VARINT), input.Rest())
      requires goal == ParseDataTo(input.depth, View(), whole, input.End())
      modifies this`members, this`unknown, input`position
      ensures Valid() && input.Ready() && (ok ==> |input.Rest()| < |whole|)
      ensures goal == if ok then DataOnward(input.depth, View(), input.Rest(), input.End(), n == 15) else Rejected
    {
      ghost var m, body := View(), input.Rest();
      ok := ReadVarint(n, input, input.depth);
      DataVarintTurn(input.depth, m, whole, input.End(), n, body, View());
    }

    /** Reads a float into the member of field `n`. */
    method ReadFloat(n: nat, input: CodedInputStream, ghost depth: nat) returns (ok: bool)
      requires Valid() && input.Ready() && input !in Repr && n in {7, 8, 9, 14}
      modifies this`members, input`position
      ensures Valid() && input.Ready()
      ensures match Varint.ReadFixed32(old(input.Rest()))
              case Fail => !ok
              case Got(v, rest) =>
                ok && input.Rest() == rest && DataStepAt(depth, old(View()), Fixed32Field(n, v)) == Some(View())
    {
      var value;
      ok, value := input.ReadLittleEndian32();
      if ok {
        StoreFixed32Shows(members, points.shown, unknown, n, value, depth);
        members := StoreFixed32(members, n, value);
      }
    }

    method ParseFixed32Case(n: nat, input: CodedInputStream, ghost whole: Bytes, ghost goal: Outcome<OperationDataMsg>)
      returns (ok: bool)
      requires Valid() && input.Ready() && input !in Repr && n in {7, 8, 9, 14}
      requires Varint.ReadVarint32(whole) == Got(MakeTag(n, WIRETYPE_FIXED32), input.Rest())
      requires goal == ParseDataTo(input.depth, View(), whole, input.End())
      modifies this`members, input`position
      ensures Valid() && input.Ready() && (ok ==> |input.Rest()| < |whole|)
      ensures goal == if ok then DataOnward(input.depth, View(), input.Rest(), input.End(), false) else Rejected
    {
      ghost var m, body := View(), input.Rest();
      ok := ReadFloat(n, input, input.depth);
      DataFixed32Turn(input.depth, m, whole, input.End(), n, body, View());
    }

    /** `ReadMessageNoVirtual(input, mutable_...())`. */
    method ReadPoint(n: nat, input: CodedInputStream, ghost sub: Option<Submessage>,
                     ghost goal: Outcome<(PointMsg, Bytes)>) returns (ok: bool, ghost p: PointMsg)
      requires Valid() && input.Ready() && input !in Repr && n in DATA_SUBS
      requires sub == Enter(input.depth, input.Rest(), input.End()) && goal == ReadPointTo(input.depth, points.At(n), sub)
      modifies Repr, input
      ensures Valid() && fresh(Repr - old(Repr)) && input.Valid()
      ensures input.broken <==> Breaks(old(input.depth), old(input.Rest()), old(input.End()))
      ensures ok ==> input.ReadyAt(old(input.Level())) && input.End() == SettledEnd(old(input.End()))
      ensures members == old(members) && unknown == old(unknown) && points.shown == old(points.shown)[n := p]
      ensures !input.broken ==> goal == Ended(ok, false, (p, input.Rest()))
    {
      ok := points.Read(n, input, sub, goal);
      Adopt();
      p := points.shown[n];
    }

    method ParsePointCase(n: nat, input: CodedInputStream, ghost whole: Bytes, ghost goal: Outcome<OperationDataMsg>)
      returns (ok: bool)
      requires Valid() && input.Ready() && input !in Repr && n in DATA_SUBS
      requires Varint.ReadVarint32(whole) == Got(MakeTag(n, WIRETYPE_LENGTH_DELIMITED), input.Rest())
      requires goal == ParseDataTo(input.depth, View(), whole, input.End())
      modifies Repr, input
      ensures Valid() && fresh(Repr - old(Repr)) && input.Valid()
      ensures ok ==> input.ReadyAt(old(input.Level())) && |input.Rest()| < |whole|
      ensures goal == if ok then DataOnward(input.depth, View(), input.Rest(), input.End(), false)
                      else Ended(false, input.broken, View())
    {
      DataPointTurn(input.depth, View(), whole, input.End(), n, input.Rest());
      ShowsPoint(members, points.shown, unknown, n);
      ghost var sub := Enter(input.depth, input.Rest(), input.End());
      ghost var p;
      ok, p := ReadPoint(n, input, sub, ReadPointTo(input.depth, points.At(n), sub));
      SetPointShows(members, old(points.shown), unknown, n, p);
    }

    method HandleUninterpreted(tag: uint32, input: CodedInputStream, ghost whole: Bytes,
                               ghost goal: Outcome<OperationDataMsg>) returns (ok: bool)
      requires Valid() && input.Ready() && input !in Repr && Varint.ReadVarint32(whole) == Got(tag, input.Rest())
      requires tag != 0 && !DataInterprets(tag) && TagWireType(tag) != WIRETYPE_END_GROUP
      requires goal == ParseDataTo(input.depth, View(), whole, input.End())
      modifies this`unknown, input`position, input`depth, input`legitimateEnd, input`lastTag
      ensures Valid() && input.Valid()
      ensures ok ==> input.Ready() && input.depth == old(input.depth) && |input.Rest()| < |whole|
      ensures goal == if ok then DataOnward(input.depth, View(), input.Rest(), input.End(), false) else Rejected
    {
      DataSkipTurn(input.depth, View(), whole, input.End(), tag, input.Rest());
      var field;
      ok, field := input.SkipField(tag);
      if ok {
        unknown := unknown + [field];
      }
    }

    /** The `switch` on the tag, but for the points. */
    method ParseFlatCase(tag: uint32, input: CodedInputStream, ghost whole: Bytes,
                         ghost goal: Outcome<OperationDataMsg>) returns (ok: bool)
      requires Valid() && input.Ready() && input !in Repr && Varint.ReadVarint32(whole) == Got(tag, input.Rest())
      requires tag != 0 && TagWireType(tag) != WIRETYPE_END_GROUP
      requires !(TagWireType(tag) == WIRETYPE_LENGTH_DELIMITED && TagNumber(tag) in DATA_SUBS)
      requires goal == ParseDataTo(input.depth, View(), whole, input.End())
      modifies this`members, this`unknown, input`position, input`depth, input`legitimateEnd, input`lastTag
      ensures Valid() && input.Valid()
      ensures ok ==> input.Ready() && input.depth == old(input.depth) && |input.Rest()| < |whole|
      ensures goal == if ok then DataOnward(input.depth, View(), input.Rest(), input.End(), tag == LAST_CASE) else Rejected
    {
      var n, wireType := TagNumber(tag), TagWireType(tag);
      LastTag(tag);
      if wireType == WIRETYPE_VARINT && n in {1, 2, 3, 13, 15} {
        TagSplits(tag);
        ok := ParseVarintCase(n, input, whole, goal);
      } else if wireType == WIRETYPE_FIXED32 && n in {7, 8, 9, 14} {
        TagSplits(tag);
        ok := ParseFixed32Case(n, input, whole, goal);
      } else {
        ok := HandleUninterpreted(tag, input, whole, goal);
      }
    }

    /** The `switch` on the tag. */
    method ParseCase(tag: uint32, input: CodedInputStream, ghost level: (nat, nat, nat), ghost whole: Bytes,
                     ghost goal: Outcome<OperationDataMsg>) returns (ok: bool)
      requires input !in Repr && Going(input, level, tag, whole, goal)
      requires tag != 0 && TagWireType(tag) != WIRETYPE_END_GROUP
      modifies Repr, input
      ensures fresh(Repr - old(Repr))
      ensures if ok then Closing(input, level, tag == LAST_CASE, goal) && |input.Rest()| < |whole|
              else Over(input, level, false, goal)
    {
      if TagWireType(tag) == WIRETYPE_LENGTH_DELIMITED && TagNumber(tag) in DATA_SUBS {
        PointTags(tag);
        ok := ParsePointCase(TagNumber(tag), input, whole, goal);
      } else {
        ok := ParseFlatCase(tag, input, whole, goal);
      }
    }

    /** What closes the case of `tag`: the next case, the top of the loop or the
        end of the parse. */
    method Close(tag: uint32, input: CodedInputStream, ghost level: (nat, nat, nat), ghost goal: Outcome<OperationDataMsg>)
      returns (done: bool, next: uint32)
      requires input !in Repr && Closing(input, level, tag == LAST_CASE, goal)
      modifies input`position, input`legitimateEnd, input`lastTag
      ensures if done then Over(input, level, true, goal) else Going(input, level, next, old(input.Rest()), goal)
    {
      next, done := input.CloseCase(NextCase(tag), tag == LAST_CASE);
    }

    /** The top of the parser's loop: the tag, or the end of the parse. */
    method NextTag(jump: uint32, input: CodedInputStream, ghost level: (nat, nat, nat), ghost whole: Bytes,
                   ghost goal: Outcome<OperationDataMsg>) returns (stop: bool, tag: uint32)
      requires input !in Repr && Going(input, level, jump, whole, goal)
      modifies input`position, input`legitimateEnd, input`lastTag
      ensures stop ==> Over(input, level, true, goal)
      ensures !stop ==> Going(input, level, tag, whole, goal) && tag != 0 && TagWireType(tag) != WIRETYPE_END_GROUP
    {
      tag := input.NextTag(jump, whole);
      stop := tag == 0 || TagWireType(tag) == WIRETYPE_END_GROUP;
      if stop {
        StopTurn(DataStep(input.depth), DataCloses, DATA_SUBS, input.depth, View(), whole, input.End());
      }
    }

    /** One turn of the parser's loop, after its tag. It ends the parse (`done`), or
        leaves `rest` to parse. */
    method Turn(tag: uint32, input: CodedInputStream, ghost level: (nat, nat, nat), ghost whole: Bytes,
                ghost goal: Outcome<OperationDataMsg>) returns (done: bool, ok: bool, next: uint32, ghost rest: Bytes)
      requires input !in Repr && Going(input, level, tag, whole, goal)
      requires tag != 0 && TagWireType(tag) != WIRETYPE_END_GROUP
      modifies Repr, input
      ensures fresh(Repr - old(Repr))
      ensures if done then Over(input, level, ok, goal) else Going(input, level, next, rest, goal) && |rest| < |whole|
    {
      done, next, rest := true, 0, whole;
      ok := ParseCase(tag, input, level, whole, goal);
      if ok {
        rest := input.Rest();
        done, next := Close(tag, input, level, goal);
      }
    }

    /** The parser. The outcome and the message are those of the plain loop that
        reads every tag and dispatches on it, except that the case of the last field
        takes the total limit for the end. */
    method MergePartialFromCodedStream(input: CodedInputStream) returns (ok: bool)
      requires Valid() && input.Ready() && input !in Repr
      modifies Repr, input
      ensures Valid() && fresh(Repr - old(Repr)) && input.Valid()
      ensures ok && input.legitimateEnd ==> input.EndedAt(old(input.Level()))
      ensures ParseDataTo(old(input.depth), old(View()), old(input.Rest()), old(input.End()))
           == Ended(ok && input.legitimateEnd, input.broken, View())
    {
      ghost var goal := ParseDataTo(input.depth, View(), input.Rest(), input.End());
      ghost var level, whole := input.Level(), input.Rest();
      var jump, done := 0, false;
      ok := true;
      while !done
        invariant fresh(Repr - old(Repr)) && input !in Repr
        invariant if done then Over(input, level, ok, goal) else Going(input, level, jump, whole, goal)
        decreases !done, |whole|
      {
        var tag;
        ok := true;
        done, tag := NextTag(jump, input, level, whole, goal);
        if !done {
          done, ok, jump, whole := Turn(tag, input, level, whole, goal);
        }
      }
    }

    /** `ReadMessageNoVirtual` once the limit has been pushed. */
    method ReadToLimit(input: CodedInputStream, oldLimit: nat, ghost level: (nat, nat, nat), ghost end: End,
                       ghost goal: Outcome<(OperationDataMsg, Bytes)>) returns (ok: bool)
      requires Valid() && input.Within(oldLimit) && input !in Repr
      requires goal == ReadDataTo(input.depth + 1, View(), Some(input.Current(oldLimit)))
      requires Outer(level, end, oldLimit, input.depth)
      modifies Repr, input
      ensures Valid() && fresh(Repr - old(Repr)) && input.Valid() && !input.broken
      ensures ok ==> input.ReadyAt(level) && input.End() == SettledEnd(end)
      ensures goal == Ended(ok, false, (View(), input.Rest()))
    {
      ReadDataInside(input.depth, View(), input.Current(oldLimit));
      SettledRuns(DataStep(input.depth), DataCloses, DATA_SUBS, input.depth, View(), input.Rest(), input.End());
      ok := MergePartialFromCodedStream(input);
      ok := ok && input.legitimateEnd;
      if ok {
        input.LeaveMessage(oldLimit, level, end);
      }
    }

    /** `ReadMessageNoVirtual` into this message. */
    method ReadMessage(input: CodedInputStream, ghost sub: Option<Submessage>,
                       ghost goal: Outcome<(OperationDataMsg, Bytes)>) returns (ok: bool)
      requires Valid() && input.Ready() && input !in Repr && sub == Enter(input.depth, input.Rest(), input.End())
      requires goal == ReadDataTo(input.depth, View(), sub)
      modifies Repr, input
      ensures Valid() && fresh(Repr - old(Repr)) && input.Valid()
      ensures input.broken <==> Breaks(old(input.depth), old(input.Rest()), old(input.End()))
      ensures ok ==> input.ReadyAt(old(input.Level())) && input.End() == SettledEnd(old(input.End()))
      ensures !input.broken ==> goal == Ended(ok, false, (View(), input.Rest()))
    {
      ghost var level, end := input.Level(), input.End();
      var oldLimit;
      ok, oldLimit := input.EnterMessage(sub);
      assert Valid() && View() == old(View()) && Repr == old(Repr);
      if ok {
        ok := ReadToLimit(input, oldLimit, level, end, goal);
      }
    }

    // ----------------------------------------------------------- serializing

    /** The points' sizes are cached: what the serializers ask. */
    ghost predicate Cached()
      reads this, Repr
    {
      Valid() && points.Cached(DATA_SUBS)
    }

    /** These data show `m` and have their own size cached as well. */
    ghost predicate Ready(m: OperationDataMsg)
      reads this, Repr
    {
      Cached() && View() == m && cachedSize == |SerializeData(m)|
    }

    /** The fields of both blocks. */
    method KnownSize() returns (size: nat)
      requires Valid() && |SerializeData(View())| < TWO_31
      modifies points.slots.Values
      ensures Cached()
      ensures size == LowFieldsSize(old(View())) + HighFieldsSize(old(View()))
    {
      size := LowSize(members, points, unknown);
      var high := HighSize(members, points, unknown);
      size := size + high;
    }

    method SetCachedSize(size: nat)
      requires Cached()
      modifies this`cachedSize
      ensures Cached() && cachedSize == size
    {
      cachedSize := size;
    }

    /** Computes and caches the exact length of the wire form, and those of the
        points. */
    method ByteSize() returns (size: nat)
      requires Valid() && |SerializeData(View())| < TWO_31
      modifies this`cachedSize, points.slots.Values
      ensures Cached()
      ensures size == cachedSize == |SerializeData(View())|
    {
      BlockSizes(View());
      size := KnownSize();
      size := PlusUnknown(size, unknown);
      SetCachedSize(size);
    }

    method WritePoint(n: nat, target: array<byte>, at: nat, ghost before: Bytes, ghost start: nat) returns (end: nat)
      requires Cached() && target !in Repr && n in DATA_SUBS && n <= LAST_DATA_FIELD
      requires Progress(View(), n - 1, target[..], at, before, start)
      modifies target
      ensures Progress(View(), n, target[..], end, before, start)
    {
      ShowsPoint(members, points.shown, unknown, n);
      end := WritePointOf(View(), points, n, target, at, before, start);
    }

    /** The points numbered `n` to `n + 2`. */
    method WritePoints(n: nat, target: array<byte>, at: nat, ghost before: Bytes, ghost start: nat) returns (end: nat)
      requires Cached() && target !in Repr && n in {4, 10}
      requires Progress(View(), n - 1, target[..], at, before, start)
      modifies target
      ensures Progress(View(), n + 2, target[..], end, before, start)
    {
      end := WritePoint(n, target, at, before, start);
      end := WritePoint(n + 1, target, end, before, start);
      end := WritePoint(n + 2, target, end, before, start);
    }

    method WriteKnown(target: array<byte>, at: nat, ghost before: Bytes) returns (end: nat)
      requires Cached() && target !in Repr && Progress(View(), 0, target[..], at, before, at)
      modifies target
      ensures Progress(View(), LAST_DATA_FIELD, target[..], end, before, at)
    {
      ghost var m := View();
      end := WriteOutline(m, members, target, at, before, at);
      end := WritePoints(4, target, end, before, at);
      end := WriteEllipse(m, members, target, end, before, at);
      end := WritePoints(10, target, end, before, at);
      end := WriteFill(m, members, target, end, before, at);
    }

    /** Writes the fields in the order of their numbers, with the cached sizes of
        the points as their lengths. */
    method SerializeWithCachedSizesToArray(target: array<byte>, at: nat) returns (end: nat)
      requires Cached() && target !in Repr && at + |SerializeData(View())| <= target.Length < TWO_64
      modifies target
      ensures end == at + |SerializeData(View())|
      ensures target[..] == Splice(old(target[..]), at, SerializeData(View()))
    {
      WrittenNothing(target[..], at);
      DataRoom(View(), LAST_DATA_FIELD);
      end := WriteKnown(target, at, target[..]);
      end := WriteUnknown(unknown, target, end, old(target[..]), at, DataFieldsTo(View(), LAST_DATA_FIELD));
    }

    /** The same for data known to show `m`. */
    method SerializeReady(ghost m: OperationDataMsg, target: array<byte>, at: nat) returns (end: nat)
      requires Ready(m) && target !in Repr && at + |SerializeData(m)| <= target.Length < TWO_64
      modifies target
      ensures end == at + |SerializeData(m)| && target[..] == Splice(old(target[..]), at, SerializeData(m))
    {
      end := SerializeWithCachedSizesToArray(target, at);
    }
  }

  /** Point `n` of data that show `m`. */
  method WritePointOf(ghost m: OperationDataMsg, points: Points, n: nat, target: array<byte>, at: nat,
                      ghost before: Bytes, ghost start: nat) returns (end: nat)
    requires points.Valid() && points.Cached(DATA_SUBS) && n in DATA_SUBS && n <= LAST_DATA_FIELD
    requires PointShown(points.shown, n) == DataPoint(m, n) && Progress(m, n - 1, target[..], at, before, start)
    modifies target
    ensures Progress(m, n, target[..], end, before, start)
  {
    DataRoom(m, n);
    DataPointFieldAt(m, n);
    end := points.Serialize(n, target, at, before, start, DataFieldsTo(m, n - 1));
  }

  /** The fields whose has bits are 0 to 7. */
  method LowSize(f: Members, points: Points, ghost unknown: seq<UnknownField>) returns (size: nat)
    requires points.Valid() && points.has <= DATA_SUBS && |SerializeData(Show(f, points.shown, unknown))| < TWO_31
    modifies points.slots.Values
    ensures points.Valid() && points.Cached({4, 5, 6})
    ensures size == LowFieldsSize(Show(f, points.shown, unknown))
  {
    LowSizes(f, points.shown, unknown);
    PointsFit(f, points.shown, unknown);
    var low := LowBlock(f, points.has);
    size := points.BlockSize(low, 4, 5, 6, {}, {4, 5, 6});
    if low {
      var scalars, floats := LowScalarSizes(f);
      size := scalars + size + floats;
    }
  }

  /** The fields whose has bits are 8 to 14. */
  method HighSize(f: Members, points: Points, ghost unknown: seq<UnknownField>) returns (size: nat)
    requires points.Valid() && points.has <= DATA_SUBS && |SerializeData(Show(f, points.shown, unknown))| < TWO_31
    requires points.Cached({4, 5, 6})
    modifies points.slots.Values
    ensures points.Valid() && points.Cached(DATA_SUBS)
    ensures size == HighFieldsSize(Show(f, points.shown, unknown))
  {
    HighSizes(f, points.shown, unknown);
    PointsFit(f, points.shown, unknown);
    var high := HighBlock(f, points.has);
    size := points.BlockSize(high, 10, 11, 12, {4, 5, 6}, DATA_SUBS);
    if high {
      var b, scalars := HighScalarSizes(f);
      size := b + size + scalars;
    }
  }

  lemma LastTag(tag: uint32)
    ensures tag == LAST_CASE <==> TagWireType(tag) == WIRETYPE_VARINT && TagNumber(tag) == 15
  {
    TagSplits(tag);
  }

  lemma PointTags(tag: uint32)
    requires TagWireType(tag) == WIRETYPE_LENGTH_DELIMITED
    ensures tag == MakeTag(TagNumber(tag), WIRETYPE_LENGTH_DELIMITED) && tag != LAST_CASE
  {
    TagSplits(tag);
  }

  const LAST_CASE: uint32 := 120

  /** The `ExpectTag` at the end of the case of `tag`: the next field's tag. */
  function NextCase(tag: uint32): uint32
  {
    match tag
    case 8 => 16
    case 16 => 24
    case 24 => 34
    case 34 => 42
    case 42 => 50
    case 50 => 61
    case 61 => 69
    case 69 => 77
    case 77 => 82
    case 82 => 90
    case 90 => 98
    case 98 => 104
    case 104 => 117
    case 117 => 120
    case _ => 0
  }
}
