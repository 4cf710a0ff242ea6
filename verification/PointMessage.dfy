/** The generated class `Operation_OperationData_Point`. */
module PointMessage {
  import opened Prelude
  import opened WireFormat
  import opened MessageEngine
  import opened TotalLimit
  import opened HasBits
  import opened CodedStream
  import opened CodedTarget
  import opened PointCodec
  import Varint

  class Point {
    var x: Member<int32>
    var y: Member<int32>
    var unknown: seq<UnknownField>
    var cachedSize: nat

    /** A member whose has bit is clear holds its default. */
    ghost predicate Valid()
      reads this
    {
      x.Valid(0) && y.Valid(0)
    }

    /** What the accessors show. */
    ghost function View(): PointMsg
      reads this
    {
      PointMsg(x.Shown(), y.Shown(), unknown)
    }

    constructor ()
      ensures Valid() && View() == EMPTY_POINT
    {
      x, y, unknown, cachedSize := Unset(0), Unset(0), [], 0;
    }

    method SetX(value: int32)
      requires Valid()
      modifies this
      ensures Valid() && View() == old(View()).(x := Some(value))
    {
      x := Set(value);
    }

    method ClearX()
      requires Valid()
      modifies this
      ensures Valid() && View() == old(View()).(x := None)
    {
      x := Unset(0);
    }

    method SetY(value: int32)
      requires Valid()
      modifies this
      ensures Valid() && View() == old(View()).(y := Some(value))
    {
      y := Set(value);
    }

    method ClearY()
      requires Valid()
      modifies this
      ensures Valid() && View() == old(View()).(y := None)
    {
      y := Unset(0);
    }

    /** The values are reset only if some has bit of their block is set. */
    method Clear()
      requires Valid()
      modifies this
      ensures Valid() && View() == EMPTY_POINT && x == Unset(0) && y == Unset(0)
    {
      if x.has || y.has {
        x := x.(value := 0);
        y := y.(value := 0);
      }
      x := x.(has := false);
      y := y.(has := false);
      unknown := [];
    }

    method MergeFrom(from: Point)
      requires Valid() && from.Valid() && from != this
      modifies this
      ensures Valid() && View() == MergePoint(old(View()), from.View())
    {
      if from.x.has || from.y.has {
        if from.x.has {
          SetX(from.x.value);
        }
        if from.y.has {
          SetY(from.y.value);
        }
      }
      unknown := unknown + from.unknown;
    }

    method CopyFrom(from: Point)
      requires Valid() && from.Valid()
      modifies this
      ensures Valid() && View() == old(from.View())
    {
      if from == this {
        return;
      }
      Clear();
      MergeFrom(from);
      PointMergeUnit(from.View());
    }

    method IsInitialized() returns (r: bool)
      ensures r == PointInitialized(View())
    {
      r := x.has && y.has;
    }

    method Swap(other: Point)
      requires Valid() && other.Valid()
      modifies this, other
      ensures Valid() && other.Valid()
      ensures View() == old(other.View()) && other.View() == old(View())
    {
      if other != this {
        x, other.x := other.x, x;
        y, other.y := other.y, y;
        unknown, other.unknown := other.unknown, unknown;
        cachedSize, other.cachedSize := other.cachedSize, cachedSize;
      }
    }

    // The cases of the parser. Each starts after its tag; `whole` is the input
    // with the tag, and `goal` is what the parse of it comes to.

    method ParseX(input: CodedInputStream, ghost whole: Bytes, ghost goal: Outcome<PointMsg>) returns (ok: bool)
      requires Valid() && input.Ready() && Varint.ReadVarint32(whole) == Got(8, input.Rest())
      requires goal == ParsePointTo(input.depth, View(), whole, input.End())
      modifies this, input`position
      ensures Valid() && input.Ready() && (ok ==> |input.Rest()| < |whole|)
      ensures goal == if ok then PointOnward(input.depth, View(), input.Rest(), input.End(), false) else Rejected
    {
      CoordinateTurn(input.depth, View(), whole, input.End(), 1, input.Rest());
      var value;
      ok, value := input.ReadVarint32();
      if ok {
        SetX(ToInt32(value));
      }
    }

    method ParseY(input: CodedInputStream, ghost whole: Bytes, ghost goal: Outcome<PointMsg>) returns (ok: bool)
      requires Valid() && input.Ready() && Varint.ReadVarint32(whole) == Got(16, input.Rest())
      requires goal == ParsePointTo(input.depth, View(), whole, input.End())
      modifies this, input`position
      ensures Valid() && input.Ready() && (ok ==> |input.Rest()| < |whole|)
      ensures goal == if ok then PointOnward(input.depth, View(), input.Rest(), input.End(), true) else Rejected
    {
      CoordinateTurn(input.depth, View(), whole, input.End(), 2, input.Rest());
      var value;
      ok, value := input.ReadVarint32();
      if ok {
        SetY(ToInt32(value));
      }
    }

    method HandleUninterpreted(tag: uint32, input: CodedInputStream, ghost whole: Bytes, ghost goal: Outcome<PointMsg>)
      returns (ok: bool)
      requires Valid() && input.Ready() && Varint.ReadVarint32(whole) == Got(tag, input.Rest())
      requires tag !in {0, 8, 16} && TagWireType(tag) != WIRETYPE_END_GROUP
      requires goal == ParsePointTo(input.depth, View(), whole, input.End())
      modifies this, input`position, input`depth, input`legitimateEnd, input`lastTag
      ensures Valid() && input.Valid()
      ensures ok ==> input.Ready() && input.depth == old(input.depth) && |input.Rest()| < |whole|
      ensures goal == if ok then PointOnward(input.depth, View(), input.Rest(), input.End(), false) else Rejected
    {
      PointSkipTurn(input.depth, View(), whole, input.End(), tag, input.Rest());
      var field;
      ok, field := input.SkipField(tag);
      if ok {
        unknown := unknown + [field];
      }
    }

    /** The `switch` on the tag. */
    method ParseCase(tag: uint32, input: CodedInputStream, ghost whole: Bytes, ghost goal: Outcome<PointMsg>)
      returns (ok: bool)
      requires Valid() && input.Ready() && Varint.ReadVarint32(whole) == Got(tag, input.Rest())
      requires tag != 0 && TagWireType(tag) != WIRETYPE_END_GROUP
      requires goal == ParsePointTo(input.depth, View(), whole, input.End())
      modifies this, input`position, input`depth, input`legitimateEnd, input`lastTag
      ensures Valid() && input.Valid()
      ensures ok ==> input.Ready() && input.depth == old(input.depth) && |input.Rest()| < |whole|
      ensures goal == if ok then PointOnward(input.depth, View(), input.Rest(), input.End(), tag == 16) else Rejected
    {
      if tag == 8 {
        ok := ParseX(input, whole, goal);
      } else if tag == 16 {
        ok := ParseY(input, whole, goal);
      } else {
        ok := HandleUninterpreted(tag, input, whole, goal);
      }
    }

    /** The top of the parser's loop, or the case that a matched `ExpectTag` jumps
        to: the tag, or the end of the parse. */
    method NextTag(jump: uint32, input: CodedInputStream, ghost whole: Bytes, ghost goal: Outcome<PointMsg>)
      returns (stop: bool, tag: uint32)
      requires input.Ready() && input.Pending(jump, whole)
      requires goal == ParsePointTo(input.depth, View(), whole, input.End())
      modifies input`position, input`legitimateEnd, input`lastTag
      ensures input.Valid()
      ensures stop ==> goal == Ended(input.legitimateEnd, false, View())
      ensures stop && input.legitimateEnd ==> input.position == input.bufferEnd
      ensures !stop ==> !input.legitimateEnd && Varint.ReadVarint32(whole) == Got(tag, input.Rest())
      ensures !stop ==> tag != 0 && TagWireType(tag) != WIRETYPE_END_GROUP
    {
      tag := input.NextTag(jump, whole);
      stop := tag == 0 || TagWireType(tag) == WIRETYPE_END_GROUP;
      if stop {
        StopTurn(PointStep, PointCloses, {}, input.depth, View(), whole, input.End());
      }
    }

    /** One turn of the parser's loop, after its tag. It ends the parse (`done`), or
        leaves `rest` to parse, whose tag is `next` if the `ExpectTag` that closes
        the case has matched. */
    method Turn(tag: uint32, input: CodedInputStream, ghost whole: Bytes, ghost goal: Outcome<PointMsg>)
      returns (done: bool, ok: bool, next: uint32, ghost rest: Bytes)
      requires Valid() && input.Ready() && Varint.ReadVarint32(whole) == Got(tag, input.Rest())
      requires tag != 0 && TagWireType(tag) != WIRETYPE_END_GROUP
      requires goal == ParsePointTo(input.depth, View(), whole, input.End())
      modifies this, input`position, input`depth, input`legitimateEnd, input`lastTag
      ensures Valid() && input.Valid()
      ensures !done ==> input.Ready() && input.depth == old(input.depth) && input.Pending(next, rest) && |rest| < |whole|
      ensures !done ==> goal == ParsePointTo(input.depth, View(), rest, input.End())
      ensures done ==> goal == Ended(ok && input.legitimateEnd, false, View())
      ensures done && ok ==> input.position == input.bufferEnd && input.depth == old(input.depth)
    {
      done, next, rest := true, 0, whole;
      ok := ParseCase(tag, input, whole, goal);
      if ok {
        rest := input.Rest();
        next, done := input.CloseCase(if tag == 8 then 16 else 0, tag == 16);
      }
    }

    /** The parser. The outcome and the message are those of the plain loop that
        reads every tag and dispatches on it, except that the case of the last field
        takes the total limit for the end. */
    method MergePartialFromCodedStream(input: CodedInputStream) returns (ok: bool)
      requires Valid() && input.Ready()
      modifies this, input`position, input`depth, input`legitimateEnd, input`lastTag
      ensures Valid() && input.Valid()
      ensures ok && input.legitimateEnd ==> input.position == input.bufferEnd && input.depth == old(input.depth)
      ensures ParsePointTo(old(input.depth), old(View()), old(input.Rest()), old(input.End()))
           == Ended(ok && input.legitimateEnd, false, View())
    {
      ghost var goal := ParsePointTo(input.depth, View(), input.Rest(), input.End());
      ghost var whole := input.Rest();
      var jump, done := 0, false;
      ok := true;
      while !done
        invariant Valid() && input.Valid()
        invariant !done ==> input.Ready() && input.depth == old(input.depth) && input.Pending(jump, whole)
        invariant !done ==> goal == ParsePointTo(input.depth, View(), whole, input.End())
        invariant done ==> goal == Ended(ok && input.legitimateEnd, false, View())
        invariant done && ok && input.legitimateEnd ==> input.position == input.bufferEnd && input.depth == old(input.depth)
        decreases !done, |whole|
      {
        var tag;
        ok := true;
        done, tag := NextTag(jump, input, whole, goal);
        if !done {
          done, ok, jump, whole := Turn(tag, input, whole, goal);
        }
      }
    }

    /** `ReadMessageNoVirtual` once the limit has been pushed. */
    method ReadToLimit(input: CodedInputStream, oldLimit: nat, ghost level: (nat, nat, nat), ghost end: End,
                       ghost goal: Outcome<(PointMsg, Bytes)>) returns (ok: bool)
      requires Valid() && input.Within(oldLimit)
      requires goal == ReadPointTo(input.depth + 1, View(), Some(input.Current(oldLimit)))
      requires Outer(level, end, oldLimit, input.depth)
      modifies this, input`position, input`bufferEnd, input`limit, input`depth, input`legitimateEnd, input`lastTag
      ensures Valid() && input.Valid()
      ensures ok ==> input.ReadyAt(level) && input.End() == SettledEnd(end)
      ensures goal == Ended(ok, false, (View(), input.Rest()))
    {
      ok := MergePartialFromCodedStream(input);
      ok := ok && input.legitimateEnd;
      if ok {
        input.LeaveMessage(oldLimit, level, end);
      }
    }

    /** `ReadMessageNoVirtual` into this message. */
    method ReadMessage(input: CodedInputStream, ghost sub: Option<Submessage>, ghost goal: Outcome<(PointMsg, Bytes)>)
      returns (ok: bool)
      requires Valid() && input.Ready() && sub == Enter(input.depth, input.Rest(), input.End())
      requires goal == ReadPointTo(input.depth, View(), sub)
      modifies this, input
      ensures Valid() && input.Valid()
      ensures input.broken <==> Breaks(old(input.depth), old(input.Rest()), old(input.End()))
      ensures ok ==> input.ReadyAt(old(input.Level())) && input.End() == SettledEnd(old(input.End()))
      ensures !input.broken ==> goal == Ended(ok, false, (View(), input.Rest()))
    {
      ghost var level, end := input.Level(), input.End();
      var oldLimit;
      ok, oldLimit := input.EnterMessage(sub);
      if ok {
        ok := ReadToLimit(input, oldLimit, level, end, goal);
      }
    }

    // ----------------------------------------------------------- serializing

    /** Computes and caches the exact length of the wire form. */
    method ByteSize() returns (size: nat)
      requires |SerializePoint(View())| < TWO_31
      modifies this`cachedSize
      ensures size == cachedSize == |SerializePoint(View())|
    {
      CoordinateSizes(View());
      size := 0;
      if x.has || y.has {
        var n1 := Int32FieldSize(1, x.has, x.value);
        var n2 := Int32FieldSize(2, y.has, y.value);
        size := n1 + n2;
      }
      size := PlusUnknown(size, unknown);
      cachedSize := size;
    }

    /** Writes the wire form at the target and returns the end of it. */
    method SerializeWithCachedSizesToArray(target: array<byte>, at: nat) returns (end: nat)
      requires at + |SerializePoint(View())| <= target.Length < TWO_64
      modifies target
      ensures end == at + |SerializePoint(View())|
      ensures target[..] == Splice(old(target[..]), at, SerializePoint(View()))
    {
      ghost var m, before := View(), target[..];
      ghost var f1, f2 := Int32Field(1, m.x), Int32Field(2, m.y);
      CoordinateSizes(m);
      WrittenNothing(before, at);
      end := WriteVarintIfSet(1, x.has, SignExtend(x.value), target, at, before, at, []);
      assert [] + f1 == f1;
      end := WriteVarintIfSet(2, y.has, SignExtend(y.value), target, end, before, at, f1);
      end := WriteUnknown(unknown, target, end, before, at, f1 + f2);
    }
  }

  lemma CoordinateSizes(m: PointMsg)
    ensures SerializePoint(m)
         == EncodeFields(Int32Field(1, m.x)) + EncodeFields(Int32Field(2, m.y)) + EncodeFields(m.unknown)
    ensures EncodeFields(Int32Field(1, m.x) + Int32Field(2, m.y))
         == EncodeFields(Int32Field(1, m.x)) + EncodeFields(Int32Field(2, m.y))
    ensures m.x.Some? ==> EncodeFields(Int32Field(1, m.x)) == EncodeField(VarintField(1, SignExtend(m.x.value)))
    ensures m.y.Some? ==> EncodeFields(Int32Field(2, m.y)) == EncodeField(VarintField(2, SignExtend(m.y.value)))
  {
    PointSizes(m);
    if m.x.Some? {
      VarintFieldSize(1, SignExtend(m.x.value));
    }
    if m.y.Some? {
      VarintFieldSize(2, SignExtend(m.y.value));
    }
  }
}
