/** The generated class `Operations`. */
module OperationsMessage {
  import opened Prelude
  import opened WireFormat
  import opened MessageEngine
  import opened TotalLimit
  import opened HasBits
  import opened CodedStream
  import opened CodedTarget
  import opened OperationDataCodec
  import opened OperationCodec
  import opened OperationsCodec
  import OperationList
  import Varint

  class Operations {
    var avaliable: Member<Avaliable>
    const operations: OperationList.Elements
    var unknown: seq<UnknownField>
    var cachedSize: nat

    ghost function Repr(): set<object>
      reads this, operations
    {
      {this} + operations.Repr
    }

    /** The default is NOT_AVALIABLE, which is 1. */
    ghost predicate Valid()
      reads this, operations, operations.Repr
    {
      avaliable.Valid(1) && operations.Valid() && this !in operations.Repr
    }

    /** What the accessors show. */
    ghost function View(): OperationsMsg
      reads this`avaliable, this`unknown, operations`shown
    {
      OperationsMsg(avaliable.Shown(), operations.shown, unknown)
    }

    constructor ()
      ensures Valid() && View() == EMPTY_OPERATIONS && fresh(Repr())
    {
      avaliable, unknown, cachedSize := Unset(1), [], 0;
      operations := new OperationList.Elements();
    }

    method SetAvaliable(value: Avaliable)
      requires Valid()
      modifies this
      ensures Valid() && View() == old(View()).(avaliable := Some(value))
    {
      avaliable := Set(value);
    }

    method ClearAvaliable()
      requires Valid()
      modifies this
      ensures Valid() && View() == old(View()).(avaliable := None)
    {
      avaliable := Unset(1);
    }

    /** `mutable_operations(i)` all the way down to a coordinate: a setter of a point
        writes through to this message, and to nothing else in it. */
    method SetPointX(i: nat, n: nat, value: int32)
      requires Valid() && i < |View().operations| && n in DATA_SUBS
      modifies operations.Repr
      ensures Valid() && fresh(Repr() - old(Repr()))
      ensures var ops := old(View()).operations;
              View() == old(View()).(operations := ops[i := WithDataPointX(ops[i], n, value)])
    {
      operations.SetPointXAt(i, n, value);
    }

    /** `add_operations()->set_serial_number(value)`. */
    method AddNumbered(value: uint32)
      requires Valid()
      modifies operations.Repr
      ensures Valid() && fresh(Repr() - old(Repr()))
      ensures View() == AddOperation(old(View()), EMPTY_OPERATION.(serialNumber := Some(value)))
    {
      operations.AddNumbered(value);
    }

    method Clear()
      requires Valid()
      modifies Repr()
      ensures Valid() && fresh(Repr() - old(Repr())) && View() == EMPTY_OPERATIONS && avaliable == Unset(1)
    {
      if avaliable.has {
        avaliable := avaliable.(value := 1);
      }
      operations.Clear();
      avaliable := avaliable.(has := false);
      unknown := [];
    }

    method MergeFrom(from: Operations)
      requires Valid() && from.Valid() && Repr() !! from.Repr()
      modifies Repr()
      ensures Valid() && fresh(Repr() - old(Repr()))
      ensures View() == MergeOperations(old(View()), old(from.View()))
    {
      operations.MergeFrom(from.operations);
      if from.avaliable.has {
        SetAvaliable(from.avaliable.value);
      }
      unknown := unknown + from.unknown;
    }

    method CopyFrom(from: Operations)
      requires Valid() && from.Valid() && (from == this || Repr() !! from.Repr())
      modifies Repr()
      ensures Valid() && fresh(Repr() - old(Repr())) && View() == old(from.View())
    {
      if from == this {
        return;
      }
      OperationsMergeUnit(from.View());
      Clear();
      MergeFrom(from);
    }

    method IsInitialized() returns (r: bool)
      requires Valid()
      ensures r == OperationsInitialized(View())
    {
      if !avaliable.has {
        return false;
      }
      r := operations.AllInitialized();
    }

    /** The share of `Swap` besides the elements, one side. */
    method Take(state: Member<Avaliable>, fields: seq<UnknownField>, size: nat)
      requires Valid() && state.Valid(1)
      modifies this`avaliable, this`unknown, this`cachedSize
      ensures Valid() && avaliable == state && unknown == fields
    {
      avaliable, unknown, cachedSize := state, fields, size;
    }

    method Swap(other: Operations)
      requires Valid() && other.Valid() && (other == this || Repr() !! other.Repr())
      modifies this, other, operations, other.operations
      ensures Valid() && other.Valid()
      ensures View() == old(other.View()) && other.View() == old(View())
    {
      if other != this {
        var state, fields, size := avaliable, unknown, cachedSize;
        Take(other.avaliable, other.unknown, other.cachedSize);
        other.Take(state, fields, size);
        operations.Swap(other.operations);
      }
    }

    // --------------------------------------------------------------- parsing

    /** The parse goes on: what is left of it, from the message reached, comes to
        `goal`. `jump` is the tag whose case a matched `ExpectTag` goes to, or 0 for
        the top of the loop; `whole` is the input with that tag. */
    ghost predicate Going(input: CodedInputStream, level: (nat, nat, nat), jump: uint32, whole: Bytes,
                          goal: Outcome<OperationsMsg>)
      reads this, operations, operations.Repr, input
    {
      && Valid() && input.ReadyAt(level) && input.Pending(jump, whole)
      && goal == ParseOperationsTo(input.depth, View(), whole, input.End())
    }

    /** The parse is over and has come to `goal`. */
    ghost predicate Over(input: CodedInputStream, level: (nat, nat, nat), ok: bool, goal: Outcome<OperationsMsg>)
      reads this, operations, operations.Repr, input
    {
      && Valid() && input.Valid() && (ok && input.legitimateEnd ==> input.EndedAt(level))
      && goal == Ended(ok && input.legitimateEnd, input.broken, View())
    }

    /** After a case, before what closes it. */
    ghost predicate Closing(input: CodedInputStream, level: (nat, nat, nat), last: bool, goal: Outcome<OperationsMsg>)
      reads this, operations, operations.Repr, input
    {
      && Valid() && input.ReadyAt(level)
      && goal == OperationsOnward(input.depth, View(), input.Rest(), input.End(), last)
    }

    // The cases of the parser. Each starts after its tag.

    /** A value outside the enum is kept as an unknown varint. */
    method StoreAvaliable(value: int32)
      requires Valid()
      modifies this`avaliable, this`unknown
      ensures Valid() && View() == AvaliableStep(old(View()), value)
    {
      if AvaliableIsValid(value) {
        avaliable := Set(value);
      } else {
        unknown := unknown + [VarintField(1, SignExtend(value))];
      }
    }

    method ParseAvaliable(input: CodedInputStream, ghost whole: Bytes, ghost goal: Outcome<OperationsMsg>)
      returns (ok: bool)
      requires Valid() && input.Ready() && input !in Repr() && Varint.ReadVarint32(whole) == Got(8, input.Rest())
      requires goal == ParseOperationsTo(input.depth, View(), whole, input.End())
      modifies this`avaliable, this`unknown, input`position
      ensures Valid() && input.Ready() && (ok ==> |input.Rest()| < |whole|)
      ensures goal == if ok then OperationsOnward(input.depth, View(), input.Rest(), input.End(), false) else Rejected
    {
      AvaliableTurn(input.depth, View(), whole, input.End(), input.Rest());
      var word;
      ok, word := input.ReadVarint32();
      if ok {
        StoreAvaliable(ToInt32(word));
      }
    }

    /** `ReadMessageNoVirtual(input, add_operations())`: the element is there even
        if the nested parse then fails. */
    method ReadElement(input: CodedInputStream, ghost sub: Option<Submessage>,
                       ghost goal: Outcome<(OperationMsg, Bytes)>) returns (ok: bool, ghost op: OperationMsg)
      requires Valid() && input.Ready() && input !in Repr() && sub == Enter(input.depth, input.Rest(), input.End())
      requires goal == ReadOperationTo(input.depth, EMPTY_OPERATION, sub)
      modifies operations.Repr, input
      ensures Valid() && fresh(Repr() - old(Repr())) && input.Valid()
      ensures input.broken <==> Breaks(old(input.depth), old(input.Rest()), old(input.End()))
      ensures ok ==> input.ReadyAt(old(input.Level())) && input.End() == SettledEnd(old(input.End()))
      ensures View() == AddOperation(old(View()), op)
      ensures !input.broken ==> goal == Ended(ok, false, (op, input.Rest()))
    {
      ok, op := operations.Read(input, sub, goal);
    }

    method ParseElement(input: CodedInputStream, ghost level: (nat, nat, nat), ghost whole: Bytes,
                        ghost goal: Outcome<OperationsMsg>) returns (ok: bool)
      requires input !in Repr() && Going(input, level, 18, whole, goal)
      modifies Repr(), input
      ensures fresh(Repr() - old(Repr()))
      ensures if ok then Closing(input, level, true, goal) && |input.Rest()| < |whole| else Over(input, level, false, goal)
    {
      ElementTurn(input.depth, View(), whole, input.End(), input.Rest());
      ghost var sub := Enter(input.depth, input.Rest(), input.End());
      ghost var read := ReadOperationTo(input.depth, EMPTY_OPERATION, sub);
      ghost var op;
      ok, op := ReadElement(input, sub, read);
    }

    /** `mutable_unknown_fields()->Add...`. */
    method AddUnknown(field: UnknownField)
      requires Valid()
      modifies this`unknown
      ensures Valid() && View() == OperationsAddUnknown(old(View()), field)
    {
      unknown := unknown + [field];
    }

    method HandleUninterpreted(tag: uint32, input: CodedInputStream, ghost whole: Bytes, ghost goal: Outcome<OperationsMsg>)
      returns (ok: bool)
      requires Valid() && input.Ready() && input !in Repr() && Varint.ReadVarint32(whole) == Got(tag, input.Rest())
      requires tag !in {0, 8, 18} && TagWireType(tag) != WIRETYPE_END_GROUP
      requires goal == ParseOperationsTo(input.depth, View(), whole, input.End())
      modifies this`unknown, input`position, input`depth, input`legitimateEnd, input`lastTag
      ensures Valid() && input.Valid()
      ensures ok ==> input.Ready() && input.depth == old(input.depth) && |input.Rest()| < |whole|
      ensures goal == if ok then OperationsOnward(input.depth, View(), input.Rest(), input.End(), false) else Rejected
    {
      OperationsSkipTurn(input.depth, View(), whole, input.End(), tag, input.Rest());
      var field;
      ok, field := input.SkipField(tag);
      if ok {
        AddUnknown(field);
      }
    }

    /** The `switch` on the tag, but for the elements. */
    method ParseFlatCase(tag: uint32, input: CodedInputStream, ghost whole: Bytes, ghost goal: Outcome<OperationsMsg>)
      returns (ok: bool)
      requires Valid() && input.Ready() && input !in Repr() && Varint.ReadVarint32(whole) == Got(tag, input.Rest())
      requires tag !in {0, 18} && TagWireType(tag) != WIRETYPE_END_GROUP
      requires goal == ParseOperationsTo(input.depth, View(), whole, input.End())
      modifies this`avaliable, this`unknown, input`position, input`depth, input`legitimateEnd, input`lastTag
      ensures Valid() && input.Valid()
      ensures ok ==> input.Ready() && input.depth == old(input.depth) && |input.Rest()| < |whole|
      ensures goal == if ok then OperationsOnward(input.depth, View(), input.Rest(), input.End(), false) else Rejected
    {
      if tag == 8 {
        ok := ParseAvaliable(input, whole, goal);
      } else {
        ok := HandleUninterpreted(tag, input, whole, goal);
      }
    }

    /** The `switch` on the tag. */
    method ParseCase(tag: uint32, input: CodedInputStream, ghost level: (nat, nat, nat), ghost whole: Bytes,
                     ghost goal: Outcome<OperationsMsg>) returns (ok: bool)
      requires input !in Repr() && Going(input, level, tag, whole, goal)
      requires tag != 0 && TagWireType(tag) != WIRETYPE_END_GROUP
      modifies Repr(), input
      ensures fresh(Repr() - old(Repr()))
      ensures if ok then Closing(input, level, tag == 18, goal) && |input.Rest()| < |whole|
              else Over(input, level, false, goal)
    {
      if tag == 18 {
        ok := ParseElement(input, level, whole, goal);
      } else {
        ok := ParseFlatCase(tag, input, whole, goal);
      }
    }

    /** What closes the case of `tag`: the next case, the top of the loop or the
        end of the parse. An element may be followed by another. */
    method Close(tag: uint32, input: CodedInputStream, ghost level: (nat, nat, nat), ghost goal: Outcome<OperationsMsg>)
      returns (done: bool, next: uint32)
      requires input !in Repr() && Closing(input, level, tag == 18, goal)
      modifies input`position, input`legitimateEnd, input`lastTag
      ensures if done then Over(input, level, true, goal) else Going(input, level, next, old(input.Rest()), goal)
    {
      next, done := input.CloseCase(if tag == 8 || tag == 18 then 18 else 0, tag == 18);
    }

    /** The top of the parser's loop: the tag, or the end of the parse. */
    method NextTag(jump: uint32, input: CodedInputStream, ghost level: (nat, nat, nat), ghost whole: Bytes,
                   ghost goal: Outcome<OperationsMsg>) returns (stop: bool, tag: uint32)
      requires input !in Repr() && Going(input, level, jump, whole, goal)
      modifies input`position, input`legitimateEnd, input`lastTag
      ensures stop ==> Over(input, level, true, goal)
      ensures !stop ==> Going(input, level, tag, whole, goal) && tag != 0 && TagWireType(tag) != WIRETYPE_END_GROUP
    {
      tag := input.NextTag(jump, whole);
      assert Valid() && View() == old(View());
      stop := tag == 0 || TagWireType(tag) == WIRETYPE_END_GROUP;
      if stop {
        OperationsStop(input.depth, View(), whole, input.End());
      }
    }

    /** One turn of the parser's loop, after its tag. It ends the parse (`done`), or
        leaves `rest` to parse. */
    method Turn(tag: uint32, input: CodedInputStream, ghost level: (nat, nat, nat), ghost whole: Bytes,
                ghost goal: Outcome<OperationsMsg>) returns (done: bool, ok: bool, next: uint32, ghost rest: Bytes)
      requires input !in Repr() && Going(input, level, tag, whole, goal)
      requires tag != 0 && TagWireType(tag) != WIRETYPE_END_GROUP
      modifies Repr(), input
      ensures fresh(Repr() - old(Repr()))
      ensures if done then Over(input, level, ok, goal) else Going(input, level, next, rest, goal) && |rest| < |whole|
    {
      done, next, rest := true, 0, whole;
      ok := ParseCase(tag, input, level, whole, goal);
      if ok {
        rest := input.Rest();
        done, next := Close(tag, input, level, goal);
      }
    }

    /** The parser. The outcome and the message are those of the plain loop that
        reads every tag and dispatches on it, except that the case of the last field
        takes the total limit for the end. */
    method MergePartialFromCodedStream(input: CodedInputStream) returns (ok: bool)
      requires Valid() && input.Ready() && input !in Repr()
      modifies Repr(), input
      ensures Valid() && fresh(Repr() - old(Repr())) && input.Valid()
      ensures ok && input.legitimateEnd ==> input.EndedAt(old(input.Level()))
      ensures ParseOperationsTo(old(input.depth), old(View()), old(input.Rest()), old(input.End()))
           == Ended(ok && input.legitimateEnd, input.broken, View())
    {
      ghost var goal := ParseOperationsTo(input.depth, View(), input.Rest(), input.End());
      ghost var level, whole := input.Level(), input.Rest();
      var jump, done := 0, false;
      ok := true;
      while !done
        invariant fresh(Repr() - old(Repr())) && input !in Repr()
        invariant if done then Over(input, level, ok, goal) else Going(input, level, jump, whole, goal)
        decreases !done, |whole|
      {
        var tag;
        ok := true;
        done, tag := NextTag(jump, input, level, whole, goal);
        if !done {
          done, ok, jump, whole := Turn(tag, input, level, whole, goal);
        }
      }
    }

    /** `ParseFromArray`: accepted only if the parser reaches a legitimate end of
        the data and every required field is there. `broken` tells that the outcome
        is not defined. */
    method ParseFromArray(data: Bytes) returns (ok: bool, broken: bool)
      requires Valid() && |data| < TWO_31
      modifies Repr()
      ensures Valid() && fresh(Repr() - old(Repr()))
      ensures match OperationsFromArray(DEFAULT_RECURSION_LIMIT, data)
              case Accepted(m) => !broken && View() == m && ok == OperationsInitialized(m)
              case Rejected => !broken && !ok
              case Undefined => broken && !ok
    {
      var input := new CodedInputStream(data);
      Clear();
      ok := MergePartialFromCodedStream(input);
      broken := input.broken;
      if ok {
        ok := IsInitialized();
        ok := ok && input.legitimateEnd;
      }
    }

    // ----------------------------------------------------------- serializing

    /** Every nested size is cached. */
    ghost predicate Cached()
      reads this, operations, operations.Repr
    {
      Valid() && operations.Cached()
    }

    method KnownSize() returns (size: nat)
      requires Valid() && |EncodeFields(OperationFields(View().operations))| < TWO_31
      modifies operations.Repr
      ensures Cached() && Repr() == old(Repr()) && View() == old(View())
      ensures size == |EncodeFields(Int32Field(1, View().avaliable))| + |EncodeFields(OperationFields(View().operations))|
    {
      size := 0;
      if avaliable.has {
        size := Int32FieldSize(1, avaliable.has, avaliable.value);
      }
      var n := operations.ByteSize();
      size := size + n;
    }

    method TotalSize() returns (size: nat)
      requires Valid() && |SerializeOperations(View())| < TWO_31
      modifies operations.Repr
      ensures Cached() && Repr() == old(Repr()) && View() == old(View())
      ensures size == |SerializeOperations(View())|
    {
      OperationsSizes(View());
      size := KnownSize();
      size := PlusUnknown(size, unknown);
    }

    method SetCachedSize(size: nat)
      requires Cached()
      modifies this`cachedSize
      ensures Cached() && cachedSize == size
    {
      cachedSize := size;
    }

    /** Computes and caches the exact length of the wire form, and every nested
        one. */
    method ByteSize() returns (size: nat)
      requires Valid() && |SerializeOperations(View())| < TWO_31
      modifies Repr()
      ensures Cached() && Repr() == old(Repr()) && View() == old(View())
      ensures size == cachedSize == |SerializeOperations(View())|
    {
      size := TotalSize();
      SetCachedSize(size);
    }

    method WriteAvaliable(target: array<byte>, at: nat) returns (end: nat)
      requires at + |EncodeFields(Int32Field(1, View().avaliable))| <= target.Length < TWO_64
      modifies target
      ensures Written(target[..], end, old(target[..]), at, Int32Field(1, View().avaliable))
    {
      WrittenNothing(target[..], at);
      if avaliable.has {
        VarintFieldSize(1, SignExtend(avaliable.value));
      }
      end := WriteVarintIfSet(1, avaliable.has, SignExtend(avaliable.value), target, at, target[..], at, []);
      assert [] + Int32Field(1, View().avaliable) == Int32Field(1, View().avaliable);
    }

    method SerializeWithCachedSizesToArray(target: array<byte>, at: nat) returns (end: nat)
      requires operations.Cached() && target !in Repr()
      requires at + |SerializeOperations(View())| <= target.Length < TWO_64
      modifies target
      ensures end == at + |SerializeOperations(View())|
      ensures target[..] == Splice(old(target[..]), at, SerializeOperations(View()))
    {
      ghost var m, before := View(), target[..];
      ghost var f1, f2 := Int32Field(1, m.avaliable), OperationFields(m.operations);
      OperationsSizes(m);
      end := WriteAvaliable(target, at);
      end := operations.Serialize(target, end, before, at, f1);
      end := WriteUnknown(unknown, target, end, before, at, f1 + f2);
    }

    /** `SerializePartialToArray`: the sizes are computed, then the bytes written,
        if they fit. */
    method SerializeToArray(target: array<byte>) returns (ok: bool)
      requires Valid() && |SerializeOperations(View())| < TWO_31 && target.Length < TWO_31
      requires target !in Repr()
      modifies Repr(), target
      ensures Valid() && View() == old(View())
      ensures ok <==> |SerializeOperations(View())| <= target.Length
      ensures ok ==> target[..|SerializeOperations(View())|] == SerializeOperations(View())
      ensures !ok ==> target[..] == old(target[..])
    {
      var size := ByteSize();
      if target.Length < size {
        return false;
      }
      var end := SerializeWithCachedSizesToArray(target, 0);
      ok := true;
    }
  }
}
