/** The generated class `Document`. */
module DocumentMessage {
  import opened Prelude
  import opened WireFormat
  import opened MessageEngine
  import opened TotalLimit
  import opened HasBits
  import opened CodedStream
  import opened CodedTarget
  import opened DocumentCodec
  import Varint

  class Document {
    var serialNumber: Member<uint32>
    var data: Member<Bytes>
    var userName: Member<Bytes>
    var unknown: seq<UnknownField>
    var cachedSize: nat

    /** A member whose has bit is clear holds its default. */
    ghost predicate Valid()
      reads this
    {
      serialNumber.Valid(0) && data.Valid([]) && userName.Valid([])
    }

    /** What the accessors show. */
    ghost function View(): DocumentMsg
      reads this
    {
      DocumentMsg(serialNumber.Shown(), data.Shown(), userName.Shown(), unknown)
    }

    constructor ()
      ensures Valid() && View() == EMPTY_DOCUMENT
    {
      serialNumber, data, userName, unknown, cachedSize := Unset(0), Unset([]), Unset([]), [], 0;
    }

    /** The values are reset only if some has bit of their block is set, a string
        only if its own is. */
    method Clear()
      requires Valid()
      modifies this
      ensures Valid() && View() == EMPTY_DOCUMENT
      ensures serialNumber == Unset(0) && data == Unset([]) && userName == Unset([])
    {
      if serialNumber.has || data.has || userName.has {
        serialNumber := serialNumber.(value := 0);
        if data.has {
          data := data.(value := []);
        }
        if userName.has {
          userName := userName.(value := []);
        }
      }
      serialNumber, data, userName := serialNumber.(has := false), data.(has := false), userName.(has := false);
      unknown := [];
    }

    method MergeFrom(from: Document)
      requires Valid() && from.Valid() && from != this
      modifies this
      ensures Valid() && View() == MergeDocument(old(View()), from.View())
    {
      if from.serialNumber.has || from.data.has || from.userName.has {
        if from.serialNumber.has {
          serialNumber := Set(from.serialNumber.value);
        }
        if from.data.has {
          data := Set(from.data.value);
        }
        if from.userName.has {
          userName := Set(from.userName.value);
        }
      }
      unknown := unknown + from.unknown;
    }

    method CopyFrom(from: Document)
      requires Valid() && from.Valid()
      modifies this
      ensures Valid() && View() == old(from.View())
    {
      if from == this {
        return;
      }
      Clear();
      MergeFrom(from);
    }

    method IsInitialized() returns (r: bool)
      ensures r == DocumentInitialized(View())
    {
      r := serialNumber.has && data.has;
    }

    // The cases of the parser. Each starts after its tag; `whole` is the input
    // with the tag, and `goal` is what the parse of it comes to.

    method ParseSerialNumber(input: CodedInputStream, ghost whole: Bytes, ghost goal: Outcome<DocumentMsg>)
      returns (ok: bool)
      requires Valid() && input.Ready() && Varint.ReadVarint32(whole) == Got(8, input.Rest())
      requires goal == ParseDocumentTo(input.depth, View(), whole, input.End())
      modifies this, input`position
      ensures Valid() && input.Ready() && (ok ==> |input.Rest()| < |whole|)
      ensures goal == if ok then DocumentOnward(input.depth, View(), input.Rest(), input.End(), false) else Rejected
    {
      DocumentNumberTurn(input.depth, View(), whole, input.End(), input.Rest());
      var value;
      ok, value := input.ReadVarint32();
      if ok {
        serialNumber := Set(value);
      }
    }

    /** `ReadBytes(input, mutable_data())` or `ReadString(input, mutable_user_name())`. */
    method ParseBytes(n: nat, input: CodedInputStream, ghost whole: Bytes, ghost goal: Outcome<DocumentMsg>)
      returns (ok: bool)
      requires Valid() && input.Ready() && n in {2, 3}
      requires Varint.ReadVarint32(whole) == Got(MakeTag(n, WIRETYPE_LENGTH_DELIMITED), input.Rest())
      requires goal == ParseDocumentTo(input.depth, View(), whole, input.End())
      modifies this, input`position
      ensures Valid() && input.Ready() && (ok ==> |input.Rest()| < |whole|)
      ensures goal == if ok then DocumentOnward(input.depth, View(), input.Rest(), input.End(), n == 3) else Rejected
    {
      DocumentBytesTurn(input.depth, View(), whole, input.End(), n, input.Rest());
      var value;
      ok, value := input.ReadLengthDelimited();
      if n == 2 {
        data := Set(value);
      } else {
        userName := Set(value);
      }
    }

    method HandleUninterpreted(tag: uint32, input: CodedInputStream, ghost whole: Bytes, ghost goal: Outcome<DocumentMsg>)
      returns (ok: bool)
      requires Valid() && input.Ready() && Varint.ReadVarint32(whole) == Got(tag, input.Rest())
      requires tag !in {0, 8, 18, 26} && TagWireType(tag) != WIRETYPE_END_GROUP
      requires goal == ParseDocumentTo(input.depth, View(), whole, input.End())
      modifies this, input`position, input`depth, input`legitimateEnd, input`lastTag
      ensures Valid() && input.Valid()
      ensures ok ==> input.Ready() && input.depth == old(input.depth) && |input.Rest()| < |whole|
      ensures goal == if ok then DocumentOnward(input.depth, View(), input.Rest(), input.End(), false) else Rejected
    {
      DocumentSkipTurn(input.depth, View(), whole, input.End(), tag, input.Rest());
      var field;
      ok, field := input.SkipField(tag);
      if ok {
        unknown := unknown + [field];
      }
    }

    /** The `switch` on the tag. */
    method ParseCase(tag: uint32, input: CodedInputStream, ghost whole: Bytes, ghost goal: Outcome<DocumentMsg>)
      returns (ok: bool)
      requires Valid() && input.Ready() && Varint.ReadVarint32(whole) == Got(tag, input.Rest())
      requires tag != 0 && TagWireType(tag) != WIRETYPE_END_GROUP
      requires goal == ParseDocumentTo(input.depth, View(), whole, input.End())
      modifies this, input`position, input`depth, input`legitimateEnd, input`lastTag
      ensures Valid() && input.Valid()
      ensures ok ==> input.Ready() && input.depth == old(input.depth) && |input.Rest()| < |whole|
      ensures goal == if ok then DocumentOnward(input.depth, View(), input.Rest(), input.End(), tag == 26) else Rejected
    {
      if tag == 8 {
        ok := ParseSerialNumber(input, whole, goal);
      } else if tag == 18 {
        ok := ParseBytes(2, input, whole, goal);
      } else if tag == 26 {
        ok := ParseBytes(3, input, whole, goal);
      } else {
        ok := HandleUninterpreted(tag, input, whole, goal);
      }
    }

    /** The top of the parser's loop, or the case that a matched `ExpectTag` jumps
        to: the tag, or the end of the parse. */
    method NextTag(jump: uint32, input: CodedInputStream, ghost whole: Bytes, ghost goal: Outcome<DocumentMsg>)
      returns (stop: bool, tag: uint32)
      requires input.Ready() && input.Pending(jump, whole)
      requires goal == ParseDocumentTo(input.depth, View(), whole, input.End())
      modifies input`position, input`legitimateEnd, input`lastTag
      ensures input.Valid()
      ensures stop ==> goal == Ended(input.legitimateEnd, false, View())
      ensures stop && input.legitimateEnd ==> input.position == input.bufferEnd
      ensures !stop ==> !input.legitimateEnd && Varint.ReadVarint32(whole) == Got(tag, input.Rest())
      ensures !stop ==> tag != 0 && TagWireType(tag) != WIRETYPE_END_GROUP
    {
      tag := input.NextTag(jump, whole);
      stop := tag == 0 || TagWireType(tag) == WIRETYPE_END_GROUP;
      if stop {
        StopTurn(DocumentStep, DocumentCloses, {}, input.depth, View(), whole, input.End());
      }
    }

    /** One turn of the parser's loop, after its tag. It ends the parse (`done`), or
        leaves `rest` to parse, whose tag is `next` if the `ExpectTag` that closes
        the case has matched. */
    method Turn(tag: uint32, input: CodedInputStream, ghost whole: Bytes, ghost goal: Outcome<DocumentMsg>)
      returns (done: bool, ok: bool, next: uint32, ghost rest: Bytes)
      requires Valid() && input.Ready() && Varint.ReadVarint32(whole) == Got(tag, input.Rest())
      requires tag != 0 && TagWireType(tag) != WIRETYPE_END_GROUP
      requires goal == ParseDocumentTo(input.depth, View(), whole, input.End())
      modifies this, input`position, input`depth, input`legitimateEnd, input`lastTag
      ensures Valid() && input.Valid()
      ensures !done ==> input.Ready() && input.depth == old(input.depth) && input.Pending(next, rest) && |rest| < |whole|
      ensures !done ==> goal == ParseDocumentTo(input.depth, View(), rest, input.End())
      ensures done ==> goal == Ended(ok && input.legitimateEnd, false, View())
      ensures done && ok ==> input.position == input.bufferEnd && input.depth == old(input.depth)
    {
      done, next, rest := true, 0, whole;
      ok := ParseCase(tag, input, whole, goal);
      if ok {
        rest := input.Rest();
        next, done := input.CloseCase(if tag == 8 then 18 else if tag == 18 then 26 else 0, tag == 26);
      }
    }

    /** The parser. The outcome and the message are those of the plain loop that
        reads every tag and dispatches on it, except that the case of the last field
        takes the total limit for the end. */
    method MergePartialFromCodedStream(input: CodedInputStream) returns (ok: bool)
      requires Valid() && input.Ready()
      modifies this, input`position, input`depth, input`legitimateEnd, input`lastTag
      ensures Valid() && input.Valid()
      ensures ok && input.legitimateEnd ==> input.position == input.bufferEnd && input.depth == old(input.depth)
      ensures ParseDocumentTo(old(input.depth), old(View()), old(input.Rest()), old(input.End()))
           == Ended(ok && input.legitimateEnd, false, View())
    {
      ghost var goal := ParseDocumentTo(input.depth, View(), input.Rest(), input.End());
      ghost var whole := input.Rest();
      var jump, done := 0, false;
      ok := true;
      while !done
        invariant Valid() && input.Valid()
        invariant !done ==> input.Ready() && input.depth == old(input.depth) && input.Pending(jump, whole)
        invariant !done ==> goal == ParseDocumentTo(input.depth, View(), whole, input.End())
        invariant done ==> goal == Ended(ok && input.legitimateEnd, false, View())
        invariant done && ok && input.legitimateEnd ==> input.position == input.bufferEnd && input.depth == old(input.depth)
        decreases !done, |whole|
      {
        var tag;
        ok := true;
        done, tag := NextTag(jump, input, whole, goal);
        if !done {
          done, ok, jump, whole := Turn(tag, input, whole, goal);
        }
      }
    }

    /** Computes and caches the exact length of the wire form. */
    method ByteSize() returns (size: nat)
      requires |SerializeDocument(View())| < TWO_31
      modifies this`cachedSize
      ensures size == cachedSize == |SerializeDocument(View())|
    {
      DocumentSizes(View());
      StringsFit(View());
      size := 0;
      if serialNumber.has || data.has || userName.has {
        var n1 := UInt32FieldSize(1, serialNumber.has, serialNumber.value);
        var n2 := BytesFieldSize(2, data.has, data.value);
        var n3 := BytesFieldSize(3, userName.has, userName.value);
        size := n1 + n2 + n3;
      }
      size := PlusUnknown(size, unknown);
      cachedSize := size;
    }

    method SerializeWithCachedSizesToArray(target: array<byte>, at: nat) returns (end: nat)
      requires at + |SerializeDocument(View())| <= target.Length < TWO_64
      modifies target
      ensures end == at + |SerializeDocument(View())|
      ensures target[..] == Splice(old(target[..]), at, SerializeDocument(View()))
    {
      ghost var m, before := View(), target[..];
      ghost var f1, f2 := UInt32Field(1, m.serialNumber), BytesField(2, m.data);
      DocumentSizes(m);
      WrittenNothing(before, at);
      if serialNumber.has {
        VarintFieldSize(1, serialNumber.value);
      }
      end := WriteVarintIfSet(1, serialNumber.has, serialNumber.value, target, at, before, at, []);
      assert [] + f1 == f1;
      end := WriteBytesIfSet(2, data.has, data.value, target, end, before, at, f1);
      end := WriteBytesIfSet(3, userName.has, userName.value, target, end, before, at, f1 + f2);
      end := WriteUnknown(unknown, target, end, before, at, DocumentFields(m));
    }
  }

  lemma StringsFit(m: DocumentMsg)
    ensures m.data.Some? ==> |m.data.value| <= |SerializeDocument(m)|
    ensures m.userName.Some? ==> |m.userName.value| <= |SerializeDocument(m)|
  {
    var all := DocumentFields(m) + m.unknown;
    if m.data.Some? {
      EncodeFieldsBound(all, LengthDelimited(2, m.data.value));
    }
    if m.userName.Some? {
      EncodeFieldsBound(all, LengthDelimited(3, m.userName.value));
    }
  }
}
