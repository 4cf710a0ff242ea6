/** The generated class `Operation`. */
module OperationMessage {
  import opened Prelude
  import opened WireFormat
  import opened MessageEngine
  import opened TotalLimit
  import opened HasBits
  import opened CodedStream
  import opened CodedTarget
  import opened OperationDataCodec
  import opened OperationDataMessage
  import opened OperationCodec
  import Varint

  class Operation {
    var serialNumber: Member<uint32>
    var hasData: bool
    var data: OperationData?
    var unknown: seq<UnknownField>
    var cachedSize: nat
    ghost var shown: Option<OperationDataMsg>  // what the data show if their has bit is set
    ghost var Repr: set<object>

    /** A has bit needs a submessage; a submessage without it is cleared. */
    ghost predicate Valid()
      reads this, Repr
    {
      && Owns()
      && serialNumber.Valid(0) && shown.Some? == hasData && (hasData ==> data != null)
      && (data != null ==> data.Valid() && data.View() == shown.GetOr(EMPTY_DATA))
    }

    ghost predicate Owns()
      reads this, Repr
    {
      && this in Repr
      && (data != null ==>
            data in Repr && data.Repr <= Repr && this !in data.Repr)
    }

    /** What the accessors show. */
    ghost function View(): OperationMsg
      reads this`serialNumber, this`shown, this`unknown
    {
      OperationMsg(serialNumber.Shown(), shown, unknown)
    }

    constructor ()
      ensures Valid() && fresh(Repr) && View() == EMPTY_OPERATION
    {
      serialNumber, hasData, data, unknown, cachedSize := Unset(0), false, null, [], 0;
      shown, Repr := None, {this};
    }

    /** Brings the ghost fields up to date after the data were changed in place. */
    ghost method Changed()
      requires this in Repr && serialNumber.Valid(0) && hasData && data != null
      requires data.Valid() && this !in data.Repr
      modifies this`shown, this`Repr
      ensures Valid() && shown == Some(data.View()) && Repr == old(Repr) + data.Repr
    {
      shown, Repr := Some(data.View()), Repr + data.Repr;
    }

    // ------------------------------------------------------------- accessors

    method SetSerialNumber(value: uint32)
      requires Valid()
      modifies this`serialNumber
      ensures Valid() && View() == old(View()).(serialNumber := Some(value))
    {
      serialNumber := Set(value);
    }

    method ClearSerialNumber()
      requires Valid()
      modifies this`serialNumber
      ensures Valid() && View() == old(View()).(serialNumber := None)
    {
      serialNumber := Unset(0);
    }

    /** Sets the has bit and allocates the data if there are none. */
    method MutableData() returns (d: OperationData)
      requires Valid()
      modifies this`hasData, this`data, this`shown, this`Repr
      ensures Valid() && hasData && d == data && fresh(Repr - old(Repr))
      ensures d.View() == old(View()).data.GetOr(EMPTY_DATA)
      ensures View() == old(View()).(data := Some(d.View()))
    {
      hasData := true;
      if data == null {
        data := new OperationData();
      }
      d := data;
      Changed();
    }

    /** A setter of a point of the data that `mutable_data()` returns writes through
        to this message. */
    method SetPointX(n: nat, value: int32)
      requires Valid() && n in DATA_SUBS
      modifies Repr
      ensures Valid() && fresh(Repr - old(Repr)) && View() == WithDataPointX(old(View()), n, value)
    {
      var d := MutableData();
      d.SetPointX(n, value);
      Changed();
    }

    /** The caller gets the data; the has bit is cleared. */
    method ReleaseData() returns (d: OperationData?)
      requires Valid()
      modifies this
      ensures Valid() && Repr <= old(Repr) && View() == old(View()).(data := None)
      ensures d != null ==> d.Valid() && d.Repr !! Repr && d.View() == old(View()).data.GetOr(EMPTY_DATA)
    {
      d := data;
      hasData, data, shown, Repr := false, null, None, {this};
    }

    method ClearData()
      requires Valid()
      modifies Repr
      ensures Valid() && fresh(Repr - old(Repr)) && View() == old(View()).(data := None)
    {
      if data != null {
        data.Clear();
      }
      hasData, shown := false, None;
    }

    // ------------------------------------------------- clearing and merging

    method Clear()
      requires Valid()
      modifies Repr
      ensures Valid() && fresh(Repr - old(Repr)) && View() == EMPTY_OPERATION && serialNumber == Unset(0)
    {
      if serialNumber.has || hasData {
        serialNumber := serialNumber.(value := 0);
        if hasData {
          if data != null {
            data.Clear();
          }
        }
      }
      serialNumber := serialNumber.(has := false);
      hasData, shown, unknown := false, None, [];
    }

    /** The share of `MergeFrom` that merges the data. */
    method MergeData(from: OperationData)
      requires Valid() && from.Valid() && Repr !! from.Repr
      modifies Repr
      ensures Valid() && fresh(Repr - old(Repr))
      ensures var merged := OperationDataCodec.MergeData(old(View()).data.GetOr(EMPTY_DATA), old(from.View()));
              View() == old(View()).(data := Some(merged))
    {
      var d := MutableData();
      d.MergeFrom(from);
      Changed();
    }

    method MergeUnknown(fields: seq<UnknownField>)
      requires Valid()
      modifies this`unknown
      ensures Valid() && View() == old(View()).(unknown := old(View()).unknown + fields)
    {
      unknown := unknown + fields;
    }

    /** The share of `MergeFrom` besides the unknown fields. */
    method MergeKnown(from: Operation)
      requires Valid() && from.Valid() && Repr !! from.Repr
      modifies Repr
      ensures Valid() && fresh(Repr - old(Repr)) && unknown == old(unknown)
      ensures serialNumber.Shown() == Later(old(serialNumber.Shown()), from.serialNumber.Shown())
      ensures shown == MergeDatas(old(shown), from.shown)
    {
      if from.serialNumber.has || from.hasData {
        if from.serialNumber.has {
          SetSerialNumber(from.serialNumber.value);
        }
        if from.hasData {
          MergeData(from.data);
        }
      }
    }

    method MergeFrom(from: Operation)
      requires Valid() && from.Valid() && Repr !! from.Repr
      modifies Repr
      ensures Valid() && fresh(Repr - old(Repr))
      ensures View() == MergeOperation(old(View()), from.View())
    {
      MergeKnown(from);
      MergeUnknown(from.unknown);
    }

    method CopyFrom(from: Operation)
      requires Valid() && from.Valid() && (from == this || Repr !! from.Repr)
      modifies Repr
      ensures Valid() && fresh(Repr - old(Repr)) && View() == old(from.View())
    {
      if from == this {
        return;
      }
      OperationMergeUnit(from.View());
      Clear();
      MergeFrom(from);
    }

    method IsInitialized() returns (r: bool)
      requires Valid()
      ensures r == OperationInitialized(View())
    {
      if !(serialNumber.has && hasData) {
        return false;
      }
      r := data.IsInitialized();
    }

    /** One side of `Swap`: the data of the other message. */
    method TakeData(has: bool, d: OperationData?, ghost shows: Option<OperationDataMsg>)
      requires serialNumber.Valid(0) && shows.Some? == has && (has ==> d != null)
      requires d != null ==> d.Valid() && d.View() == shows.GetOr(EMPTY_DATA) && this !in d.Repr
      modifies this`hasData, this`data, this`shown, this`Repr
      ensures Valid() && shown == shows && Repr == {this} + (if d == null then {} else d.Repr)
    {
      hasData, data, shown := has, d, shows;
      Repr := {this} + if d == null then {} else d.Repr;
    }

    /** And its other members. */
    method TakeMembers(number: Member<uint32>, fields: seq<UnknownField>, size: nat)
      requires Valid() && number.Valid(0)
      modifies this`serialNumber, this`unknown, this`cachedSize
      ensures Valid() && serialNumber == number && unknown == fields
    {
      serialNumber, unknown, cachedSize := number, fields, size;
    }

    method SwapData(other: Operation)
      requires Valid() && other.Valid() && Repr !! other.Repr
      modifies this`hasData, this`data, this`shown, this`Repr, other`hasData, other`data, other`shown, other`Repr
      ensures Valid() && other.Valid() && Repr !! other.Repr
      ensures shown == old(other.shown) && other.shown == old(shown)
    {
      var has, d := hasData, data;
      ghost var shows, mine, theirs := shown, Repr - {this}, other.Repr - {other};
      assert d != null ==> d.Repr <= mine;
      assert other.data != null ==> other.data.Repr <= theirs;
      TakeData(other.hasData, other.data, other.shown);
      other.TakeData(has, d, shows);
    }

    method SwapMembers(other: Operation)
      requires Valid() && other.Valid() && Repr !! other.Repr
      modifies this`serialNumber, this`unknown, this`cachedSize, other`serialNumber, other`unknown, other`cachedSize
      ensures Valid() && other.Valid()
      ensures serialNumber == old(other.serialNumber) && unknown == old(other.unknown)
      ensures other.serialNumber == old(serialNumber) && other.unknown == old(unknown)
    {
      var number, fields, size := serialNumber, unknown, cachedSize;
      TakeMembers(other.serialNumber, other.unknown, other.cachedSize);
      other.TakeMembers(number, fields, size);
    }

    method Swap(other: Operation)
      requires Valid() && other.Valid() && (other == this || Repr !! other.Repr)
      modifies this, other
      ensures Valid() && other.Valid() && (other != this ==> Repr !! other.Repr)
      ensures View() == old(other.View()) && other.View() == old(View())
    {
      if other != this {
        SwapData(other);
        SwapMembers(other);
      }
    }

    // --------------------------------------------------------------- parsing

    /** `mutable_unknown_fields()->Add...`. */
    method AddUnknown(field: UnknownField)
      requires Valid()
      modifies this`unknown
      ensures Valid() && View() == OperationAddUnknown(old(View()), field)
    {
      unknown := unknown + [field];
    }

    /** The parse goes on: what is left of it, from the message reached, comes to
        `goal`. `jump` is the tag whose case a matched `ExpectTag` goes to, or 0 for
        the top of the loop; `whole` is the input with that tag. */
    ghost predicate Going(input: CodedInputStream, level: (nat, nat, nat), jump: uint32, whole: Bytes,
                          goal: Outcome<OperationMsg>)
      reads this, Repr, input
    {
      && Valid() && input.ReadyAt(level) && input.Pending(jump, whole)
      && goal == ParseOperationTo(input.depth, View(), whole, input.End())
    }

    /** The parse is over and has come to `goal`. */
    ghost predicate Over(input: CodedInputStream, level: (nat, nat, nat), ok: bool, goal: Outcome<OperationMsg>)
      reads this, Repr, input
    {
      && Valid() && input.Valid() && (ok && input.legitimateEnd ==> input.EndedAt(level))
      && goal == Ended(ok && input.legitimateEnd, input.broken, View())
    }

    /** After a case, before what closes it. */
    ghost predicate Closing(input: CodedInputStream, level: (nat, nat, nat), last: bool, goal: Outcome<OperationMsg>)
      reads this, Repr, input
    {
      && Valid() && input.ReadyAt(level)
      && goal == OperationOnward(input.depth, View(), input.Rest(), input.End(), last)
    }

    // The cases of the parser. Each starts after its tag.

    method ParseSerialNumber(input: CodedInputStream, ghost whole: Bytes, ghost goal: Outcome<OperationMsg>)
      returns (ok: bool)
      requires Valid() && input.Ready() && input !in Repr && Varint.ReadVarint32(whole) == Got(8, input.Rest())
      requires goal == ParseOperationTo(input.depth, View(), whole, input.End())
      modifies this`serialNumber, input`position
      ensures Valid() && input.Ready() && (ok ==> |input.Rest()| < |whole|)
      ensures goal == if ok then OperationOnward(input.depth, View(), input.Rest(), input.End(), false) else Rejected
    {
      SerialNumberTurn(input.depth, View(), whole, input.End(), input.Rest());
      var value;
      ok, value := input.ReadVarint32();
      if ok {
        SetSerialNumber(value);
      }
    }

    /** `ReadMessageNoVirtual` into the data. */
    method ReadInto(input: CodedInputStream, ghost sub: Option<Submessage>, ghost goal: Outcome<(OperationDataMsg, Bytes)>)
      returns (ok: bool)
      requires Valid() && hasData && input.Ready() && input !in Repr
      requires sub == Enter(input.depth, input.Rest(), input.End()) && goal == ReadDataTo(input.depth, shown.value, sub)
      modifies Repr, input
      ensures Valid() && hasData && fresh(Repr - old(Repr)) && input.Valid()
      ensures input.broken <==> Breaks(old(input.depth), old(input.Rest()), old(input.End()))
      ensures ok ==> input.ReadyAt(old(input.Level())) && input.End() == SettledEnd(old(input.End()))
      ensures serialNumber == old(serialNumber) && unknown == old(unknown)
      ensures !input.broken ==> goal == Ended(ok, false, (shown.value, input.Rest()))
    {
      ok := data.ReadMessage(input, sub, goal);
      Changed();
    }

    /** `ReadMessageNoVirtual(input, mutable_data())`: the has bit is set even if
        the nested parse then fails. */
    method ReadData(input: CodedInputStream, ghost sub: Option<Submessage>,
                    ghost goal: Outcome<(OperationDataMsg, Bytes)>) returns (ok: bool)
      requires Valid() && input.Ready() && input !in Repr && sub == Enter(input.depth, input.Rest(), input.End())
      requires goal == ReadDataTo(input.depth, View().data.GetOr(EMPTY_DATA), sub)
      modifies Repr, input
      ensures Valid() && fresh(Repr - old(Repr)) && input.Valid()
      ensures input.broken <==> Breaks(old(input.depth), old(input.Rest()), old(input.End()))
      ensures ok ==> input.ReadyAt(old(input.Level())) && input.End() == SettledEnd(old(input.End()))
      ensures View().data.Some? && View() == old(View()).(data := View().data)
      ensures !input.broken ==> goal == Ended(ok, false, (View().data.value, input.Rest()))
    {
      var d := MutableData();
      ok := ReadInto(input, sub, goal);
    }

    method ParseData(input: CodedInputStream, ghost level: (nat, nat, nat), ghost whole: Bytes,
                     ghost goal: Outcome<OperationMsg>) returns (ok: bool)
      requires input !in Repr && Going(input, level, 18, whole, goal)
      modifies Repr, input
      ensures fresh(Repr - old(Repr))
      ensures if ok then Closing(input, level, true, goal) && |input.Rest()| < |whole| else Over(input, level, false, goal)
    {
      OperationDataTurn(input.depth, View(), whole, input.End(), input.Rest());
      ghost var sub := Enter(input.depth, input.Rest(), input.End());
      ghost var read := ReadDataTo(input.depth, View().data.GetOr(EMPTY_DATA), sub);
      ok := ReadData(input, sub, read);
    }

    method HandleUninterpreted(tag: uint32, input: CodedInputStream, ghost whole: Bytes, ghost goal: Outcome<OperationMsg>)
      returns (ok: bool)
      requires Valid() && input.Ready() && input !in Repr && Varint.ReadVarint32(whole) == Got(tag, input.Rest())
      requires tag !in {0, 8, 18} && TagWireType(tag) != WIRETYPE_END_GROUP
      requires goal == ParseOperationTo(input.depth, View(), whole, input.End())
      modifies this`unknown, input`position, input`depth, input`legitimateEnd, input`lastTag
      ensures Valid() && input.Valid()
      ensures ok ==> input.Ready() && input.depth == old(input.depth) && |input.Rest()| < |whole|
      ensures goal == if ok then OperationOnward(input.depth, View(), input.Rest(), input.End(), false) else Rejected
    {
      OperationSkipTurn(input.depth, View(), whole, input.End(), tag, input.Rest());
      var field;
      ok, field := input.SkipField(tag);
      if ok {
        AddUnknown(field);
      }
    }

    /** The `switch` on the tag, but for the data. */
    method ParseFlatCase(tag: uint32, input: CodedInputStream, ghost whole: Bytes, ghost goal: Outcome<OperationMsg>)
      returns (ok: bool)
      requires Valid() && input.Ready() && input !in Repr && Varint.ReadVarint32(whole) == Got(tag, input.Rest())
      requires tag !in {0, 18} && TagWireType(tag) != WIRETYPE_END_GROUP
      requires goal == ParseOperationTo(input.depth, View(), whole, input.End())
      modifies this`serialNumber, this`unknown, input`position, input`depth, input`legitimateEnd, input`lastTag
      ensures Valid() && input.Valid()
      ensures ok ==> input.Ready() && input.depth == old(input.depth) && |input.Rest()| < |whole|
      ensures goal == if ok then OperationOnward(input.depth, View(), input.Rest(), input.End(), false) else Rejected
    {
      if tag == 8 {
        ok := ParseSerialNumber(input, whole, goal);
      } else {
        ok := HandleUninterpreted(tag, input, whole, goal);
      }
    }

    /** The `switch` on the tag. */
    method ParseCase(tag: uint32, input: CodedInputStream, ghost level: (nat, nat, nat), ghost whole: Bytes,
                     ghost goal: Outcome<OperationMsg>) returns (ok: bool)
      requires input !in Repr && Going(input, level, tag, whole, goal)
      requires tag != 0 && TagWireType(tag) != WIRETYPE_END_GROUP
      modifies Repr, input
      ensures fresh(Repr - old(Repr))
      ensures if ok then Closing(input, level, tag == 18, goal) && |input.Rest()| < |whole|
              else Over(input, level, false, goal)
    {
      if tag == 18 {
        ok := ParseData(input, level, whole, goal);
      } else {
        ok := ParseFlatCase(tag, input, whole, goal);
      }
    }

    /** What closes the case of `tag`: the next case, the top of the loop or the
        end of the parse. */
    method Close(tag: uint32, input: CodedInputStream, ghost level: (nat, nat, nat), ghost goal: Outcome<OperationMsg>)
      returns (done: bool, next: uint32)
      requires input !in Repr && Closing(input, level, tag == 18, goal)
      modifies input`position, input`legitimateEnd, input`lastTag
      ensures if done then Over(input, level, true, goal) else Going(input, level, next, old(input.Rest()), goal)
    {
      next, done := input.CloseCase(if tag == 8 then 18 else 0, tag == 18);
    }

    /** The top of the parser's loop: the tag, or the end of the parse. */
    method NextTag(jump: uint32, input: CodedInputStream, ghost level: (nat, nat, nat), ghost whole: Bytes,
                   ghost goal: Outcome<OperationMsg>) returns (stop: bool, tag: uint32)
      requires input !in Repr && Going(input, level, jump, whole, goal)
      modifies input`position, input`legitimateEnd, input`lastTag
      ensures stop ==> Over(input, level, true, goal)
      ensures !stop ==> Going(input, level, tag, whole, goal) && tag != 0 && TagWireType(tag) != WIRETYPE_END_GROUP
    {
      tag := input.NextTag(jump, whole);
      stop := tag == 0 || TagWireType(tag) == WIRETYPE_END_GROUP;
      if stop {
        OperationStop(input.depth, View(), whole, input.End());
      }
    }

    /** One turn of the parser's loop, after its tag. It ends the parse (`done`), or
        leaves `rest` to parse. */
    method Turn(tag: uint32, input: CodedInputStream, ghost level: (nat, nat, nat), ghost whole: Bytes,
                ghost goal: Outcome<OperationMsg>) returns (done: bool, ok: bool, next: uint32, ghost rest: Bytes)
      requires input !in Repr && Going(input, level, tag, whole, goal)
      requires tag != 0 && TagWireType(tag) != WIRETYPE_END_GROUP
      modifies Repr, input
      ensures fresh(Repr - old(Repr))
      ensures if done then Over(input, level, ok, goal) else Going(input, level, next, rest, goal) && |rest| < |whole|
    {
      done, next, rest := true, 0, whole;
      ok := ParseCase(tag, input, level, whole, goal);
      if ok {
        rest := input.Rest();
        done, next := Close(tag, input, level, goal);
      }
    }

    /** The parser. The outcome and the message are those of the plain loop that
        reads every tag and dispatches on it, except that the case of the last field
        takes the total limit for the end. */
    method MergePartialFromCodedStream(input: CodedInputStream) returns (ok: bool)
      requires Valid() && input.Ready() && input !in Repr
      modifies Repr, input
      ensures Valid() && fresh(Repr - old(Repr)) && input.Valid()
      ensures ok && input.legitimateEnd ==> input.EndedAt(old(input.Level()))
      ensures ParseOperationTo(old(input.depth), old(View()), old(input.Rest()), old(input.End()))
           == Ended(ok && input.legitimateEnd, input.broken, View())
    {
      ghost var goal := ParseOperationTo(input.depth, View(), input.Rest(), input.End());
      ghost var level, whole := input.Level(), input.Rest();
      var jump, done := 0, false;
      ok := true;
      while !done
        invariant fresh(Repr - old(Repr)) && input !in Repr
        invariant if done then Over(input, level, ok, goal) else Going(input, level, jump, whole, goal)
        decreases !done, |whole|
      {
        var tag;
        ok := true;
        done, tag := NextTag(jump, input, level, whole, goal);
        if !done {
          done, ok, jump, whole := Turn(tag, input, level, whole, goal);
        }
      }
    }

    /** `ReadMessageNoVirtual` once the limit has been pushed. */
    method ReadToLimit(input: CodedInputStream, oldLimit: nat, ghost level: (nat, nat, nat), ghost end: End,
                       ghost goal: Outcome<(OperationMsg, Bytes)>) returns (ok: bool)
      requires Valid() && input.Within(oldLimit) && input !in Repr
      requires goal == ReadOperationTo(input.depth + 1, View(), Some(input.Current(oldLimit)))
      requires Outer(level, end, oldLimit, input.depth)
      modifies Repr, input
      ensures Valid() && fresh(Repr - old(Repr)) && input.Valid() && !input.broken
      ensures ok ==> input.ReadyAt(level) && input.End() == SettledEnd(end)
      ensures goal == Ended(ok, false, (View(), input.Rest()))
    {
      ReadOperationInside(input.depth, View(), input.Current(oldLimit));
      SettledRuns(OperationStep(input.depth), OperationCloses(input.depth), OPERATION_SUBS, input.depth, View(),
                  input.Rest(), input.End());
      ok := MergePartialFromCodedStream(input);
      ok := ok && input.legitimateEnd;
      if ok {
        input.LeaveMessage(oldLimit, level, end);
      }
    }

    /** `ReadMessageNoVirtual` into this message. */
    method ReadMessage(input: CodedInputStream, ghost sub: Option<Submessage>,
                       ghost goal: Outcome<(OperationMsg, Bytes)>) returns (ok: bool)
      requires Valid() && input.Ready() && input !in Repr && sub == Enter(input.depth, input.Rest(), input.End())
      requires goal == ReadOperationTo(input.depth, View(), sub)
      modifies Repr, input
      ensures Valid() && fresh(Repr - old(Repr)) && input.Valid()
      ensures input.broken <==> Breaks(old(input.depth), old(input.Rest()), old(input.End()))
      ensures ok ==> input.ReadyAt(old(input.Level())) && input.End() == SettledEnd(old(input.End()))
      ensures !input.broken ==> goal == Ended(ok, false, (View(), input.Rest()))
    {
      ghost var level, end := input.Level(), input.End();
      var oldLimit;
      ok, oldLimit := input.EnterMessage(sub);
      assert Valid() && View() == old(View()) && Repr == old(Repr);
      if ok {
        ok := ReadToLimit(input, oldLimit, level, end, goal);
      }
    }

    // ----------------------------------------------------------- serializing

    /** Every nested size is cached: what the serializers ask. */
    ghost predicate Cached()
      reads this, Repr
    {
      Owns() && shown.Some? == hasData && (hasData ==> data != null && data.Ready(shown.value))
    }

    /** `if (has_data()) total_size += 1 + MessageSizeNoVirtual(data())`. */
    method DataSize() returns (size: nat)
      requires Valid() && |SerializeOperation(View())| < TWO_31
      modifies Repr
      ensures Valid() && Cached() && Repr == old(Repr) && View() == old(View())
      ensures size == DataFieldLength(View().data)
    {
      size := 0;
      if hasData {
        OperationSizes(View());
        LengthDelimitedSize(2, SerializeData(shown.value));
        var body := data.ByteSize();
        var prefix := VarintSize32(body);
        size := 1 + prefix + body;
      }
    }

    method KnownSize() returns (size: nat)
      requires Valid() && |SerializeOperation(View())| < TWO_31
      modifies Repr
      ensures Valid() && Cached() && Repr == old(Repr) && View() == old(View())
      ensures size == |EncodeFields(UInt32Field(1, View().serialNumber))| + DataFieldLength(View().data)
    {
      size := 0;
      if serialNumber.has || hasData {
        size := UInt32FieldSize(1, serialNumber.has, serialNumber.value);
        var n := DataSize();
        size := size + n;
      }
    }

    method SetCachedSize(size: nat)
      requires Valid() && Cached()
      modifies this`cachedSize
      ensures Valid() && Cached() && cachedSize == size
    {
      cachedSize := size;
    }

    /** Computes and caches the exact length of the wire form, and every nested
        one. */
    method ByteSize() returns (size: nat)
      requires Valid() && |SerializeOperation(View())| < TWO_31
      modifies Repr
      ensures Valid() && Cached() && Repr == old(Repr) && View() == old(View())
      ensures size == cachedSize == |SerializeOperation(View())|
    {
      OperationSizes(View());
      size := KnownSize();
      size := PlusUnknown(size, unknown);
      SetCachedSize(size);
    }

    /** The bytes of the data, after their length has been written at `from`. */
    static method SerializeBody(data: OperationData, ghost m: OperationDataMsg, target: array<byte>, at: nat,
                                ghost now: Bytes, ghost from: nat, ghost before: Bytes, ghost start: nat,
                                ghost fs: seq<UnknownField>) returns (end: nat)
      requires data.Ready(m) && target !in data.Repr && Written(now, from, before, start, fs)
      requires from + DataFieldLength(Some(m)) <= |now| == target.Length < TWO_64
      requires at == from + |LengthPrefix(2, |SerializeData(m)|)| && at + |SerializeData(m)| <= target.Length
      requires target[..] == Splice(now, from, LengthPrefix(2, |SerializeData(m)|))
      modifies target
      ensures Written(target[..], end, before, start, fs + DataField(Some(m)))
    {
      WrittenMessage(now, from, before, start, fs, 2, SerializeData(m));
      end := data.SerializeReady(m, target, at);
    }

    /** `WriteMessageNoVirtualToArray(2, data(), target)`. */
    static method SerializeSubmessage(data: OperationData, ghost m: OperationDataMsg, target: array<byte>, at: nat,
                                      ghost before: Bytes, ghost start: nat, ghost fs: seq<UnknownField>)
      returns (end: nat)
      requires data.Ready(m) && target !in data.Repr && Written(target[..], at, before, start, fs)
      requires at + DataFieldLength(Some(m)) <= target.Length < TWO_64
      modifies target
      ensures Written(target[..], end, before, start, fs + DataField(Some(m)))
    {
      ghost var now := target[..];
      LengthDelimitedSize(2, SerializeData(m));
      LengthPrefixed(2, SerializeData(m));
      end := WriteLengthToArray(2, data.cachedSize, target, at);
      end := SerializeBody(data, m, target, end, now, at, before, start, fs);
    }

    /** `if (has_data())` the same. */
    method WriteData(target: array<byte>, at: nat,
                     ghost before: Bytes, ghost start: nat, ghost fs: seq<UnknownField>) returns (end: nat)
      requires Cached() && target !in Repr && Written(target[..], at, before, start, fs)
      requires at + DataFieldLength(View().data) <= target.Length < TWO_64
      modifies target
      ensures Written(target[..], end, before, start, fs + DataField(View().data))
    {
      if !hasData {
        assert fs + [] == fs;
        return at;
      }
      end := SerializeSubmessage(data, shown.value, target, at, before, start, fs);
    }

    method WriteSerialNumber(target: array<byte>, at: nat) returns (end: nat)
      requires at + |EncodeFields(UInt32Field(1, View().serialNumber))| <= target.Length < TWO_64
      modifies target
      ensures Written(target[..], end, old(target[..]), at, UInt32Field(1, View().serialNumber))
    {
      WrittenNothing(target[..], at);
      if serialNumber.has {
        VarintFieldSize(1, serialNumber.value);
      }
      end := WriteVarintIfSet(1, serialNumber.has, serialNumber.value, target, at, target[..], at, []);
      assert [] + UInt32Field(1, View().serialNumber) == UInt32Field(1, View().serialNumber);
    }

    method SerializeWithCachedSizesToArray(target: array<byte>, at: nat) returns (end: nat)
      requires Cached() && target !in Repr && at + |SerializeOperation(View())| <= target.Length < TWO_64
      modifies target
      ensures end == at + |SerializeOperation(View())|
      ensures target[..] == Splice(old(target[..]), at, SerializeOperation(View()))
    {
      ghost var m, before := View(), target[..];
      ghost var f1, f2 := UInt32Field(1, m.serialNumber), DataField(m.data);
      OperationSizes(m);
      end := WriteSerialNumber(target, at);
      end := WriteData(target, end, before, at, f1);
      end := WriteUnknown(unknown, target, end, before, at, f1 + f2);
    }
  }
}
