/** `CodedInputStream` over a flat array, with its limits and the end of the
    buffer that they draw back. */
module CodedStream {
  import opened Prelude
  import opened Varint
  import opened WireFormat
  import opened MessageEngine
  import opened TotalLimit

  class CodedInputStream {
    const buffer: Bytes
    var position: nat
    var bufferEnd: nat       // buffer_end_
    var limit: nat           // current_limit_
    var broken: bool         // buffer_end_ lies before the position: what follows is not defined
    var legitimateEnd: bool  // legitimate_message_end_
    var lastTag: uint32      // last_tag_
    var depth: nat           // recursion_limit_ - recursion_depth_

    /** The buffer ends at the closer of the two limits, or where the array does
        as long as no limit has been pushed. */
    ghost predicate Valid()
      reads this
    {
      && position <= bufferEnd <= limit <= |buffer| < TWO_31
      && (bufferEnd == Min(limit, TOTAL_BYTES_LIMIT) || bufferEnd == |buffer|)
    }

    ghost predicate Ready()
      reads this
    {
      Valid() && !legitimateEnd && !broken
    }

    /** Ready again, at the level it was at before. */
    ghost predicate ReadyAt(level: (nat, nat, nat))
      reads this
    {
      Ready() && limit == level.0 && depth == level.1 && bufferEnd <= level.2
    }

    /** At a legitimate end, at the level it was at before. */
    ghost predicate EndedAt(level: (nat, nat, nat))
      reads this
    {
      Valid() && !broken && position == bufferEnd && limit == level.0 && depth == level.1 && bufferEnd <= level.2
    }

    ghost function Level(): (nat, nat, nat)
      reads this
    {
      (limit, depth, bufferEnd)
    }

    /** The bytes that may still be read. */
    ghost function Rest(): Bytes
      requires Valid()
      reads this
    {
      buffer[position..bufferEnd]
    }

    /** What the end of these bytes is. */
    ghost function End(): End
      reads this
    {
      EndAt(limit, bufferEnd)
    }

    /** `whole` is still to be read: all of it, or its tag `jump` has been. */
    ghost predicate Pending(jump: uint32, whole: Bytes)
      requires Valid()
      reads this
    {
      if jump == 0 then whole == Rest() else Varint.ReadVarint32(whole) == Got(jump, Rest())
    }

    constructor (data: Bytes)
      requires |data| < TWO_31
      ensures Ready() && Rest() == data && buffer == data && End() == EndOf(data) && depth == DEFAULT_RECURSION_LIMIT
    {
      buffer, position, bufferEnd, limit := data, 0, |data|, |data|;
      broken, legitimateEnd, lastTag, depth := false, false, 0, DEFAULT_RECURSION_LIMIT;
      new;
      assert data[0..|data|] == data;
    }

    method ReadByte() returns (b: byte)
      requires Valid() && Rest() != []
      modifies this`position
      ensures Valid() && b == old(Rest())[0] && Rest() == old(Rest())[1..]
    {
      b := buffer[position];
      position := position + 1;
    }

    /** `ReadVarint64Slow`: seven bits a byte, low bits first, cut to 64 bits. */
    method ReadVarint64() returns (ok: bool, value: uint64)
      requires Valid()
      modifies this`position
      ensures Valid()
      ensures match Varint.ReadVarint64(old(Rest()))
              case Fail => !ok
              case Got(v, rest) => ok && value == v && Rest() == rest
    {
      ghost var start := Rest();
      var count := 0;
      var shift: nat := 1;
      value := 0;
      AheadOfNothing(start);
      while true
        invariant Valid() && count <= MAX_VARINT_BYTES
        invariant Varint.ReadVarint64(start) == Ahead(value, shift, RawVarint(Rest(), MAX_VARINT_BYTES - count))
        decreases MAX_VARINT_BYTES - count
      {
        if count == MAX_VARINT_BYTES || position == bufferEnd {
          return false, 0;
        }
        VarintDigit(Rest(), MAX_VARINT_BYTES - count, value, shift);
        var b := ReadByte();
        value := AddDigit(value, b, shift);
        if b < 128 {
          return true, value;
        }
        count, shift := count + 1, 128 * shift;
      }
    }

    /** One byte fast, otherwise a 64-bit read cut to 32 bits. */
    method ReadVarint32() returns (ok: bool, value: uint32)
      requires Valid()
      modifies this`position
      ensures Valid()
      ensures match Varint.ReadVarint32(old(Rest()))
              case Fail => !ok
              case Got(v, rest) => ok && value == v && Rest() == rest
    {
      if position < bufferEnd && buffer[position] < 128 {
        SmallVarint(Rest());
        value := ReadByte();
        return true, value;
      }
      var v;
      ok, v := ReadVarint64();
      value := v % TWO_32;
    }

    method ReadLittleEndian32() returns (ok: bool, value: uint32)
      requires Valid()
      modifies this`position
      ensures Valid()
      ensures match ReadFixed32(old(Rest()))
              case Fail => !ok
              case Got(v, rest) => ok && value == v && Rest() == rest
    {
      if bufferEnd - position < 4 {
        return false, 0;
      }
      ok, value := true, DecodeFixed32(buffer[position..bufferEnd]);
      position := position + 4;
    }

    method ReadLittleEndian64() returns (ok: bool, value: uint64)
      requires Valid()
      modifies this`position
      ensures Valid()
      ensures match ReadFixed64(old(Rest()))
              case Fail => !ok
              case Got(v, rest) => ok && value == v && Rest() == rest
    {
      if bufferEnd - position < 8 {
        return false, 0;
      }
      ok, value := true, DecodeFixed64(buffer[position..bufferEnd]);
      position := position + 8;
    }

    /** A length as an `int`, then that many bytes. */
    method ReadLengthDelimited() returns (ok: bool, value: Bytes)
      requires Valid()
      modifies this`position
      ensures Valid()
      ensures match ReadString(old(Rest()))
              case Fail => !ok
              case Got(v, rest) => ok && value == v && Rest() == rest
    {
      value := [];
      var length;
      ok, length := ReadVarint32();
      if !ok || length >= TWO_31 || length > bufferEnd - position {
        return false, value;
      }
      CutAt(buffer, position, bufferEnd, length);
      value := buffer[position..position + length];
      position := position + length;
    }

    /** Zero at the end of the buffer, which is legitimate unless the total limit
        has cut it or it ends beyond that; and when no tag can be read, which is not. */
    method ReadTag() returns (tag: uint32)
      requires Valid() && !legitimateEnd
      modifies this`position, this`legitimateEnd, this`lastTag
      ensures Valid() && lastTag == tag
      ensures legitimateEnd <==> old(Rest()) == [] && End().Legit?
      ensures old(Rest()) == [] ==> tag == 0 && position == bufferEnd
      ensures old(Rest()) != [] ==>
        match Varint.ReadVarint32(old(Rest()))
        case Fail => tag == 0
        case Got(v, rest) => tag == v && Rest() == rest
    {
      tag := 0;
      if position == bufferEnd {
        legitimateEnd := bufferEnd < TOTAL_BYTES_LIMIT || limit == TOTAL_BYTES_LIMIT;
      } else {
        var ok, value := ReadVarint32();
        if ok {
          tag := value;
        }
      }
      lastTag := tag;
    }

    /** The top of a parser's loop, or a case that a matched `ExpectTag` jumps to. */
    method NextTag(jump: uint32, ghost whole: Bytes) returns (tag: uint32)
      requires Valid() && !legitimateEnd && Pending(jump, whole)
      modifies this`position, this`legitimateEnd, this`lastTag
      ensures Valid() && (legitimateEnd <==> whole == [] && End().Legit?)
      ensures legitimateEnd ==> tag == 0 && position == bufferEnd
      ensures if tag == 0 then whole == [] || Varint.ReadVarint32(whole).Fail? || Varint.ReadVarint32(whole).value == 0
              else whole != [] && Varint.ReadVarint32(whole) == Got(tag, Rest())
    {
      tag := jump;
      if jump == 0 {
        tag := ReadTag();
      }
    }

    /** Consumes the expected tag exactly if it comes next in its shortest form. */
    method ExpectTag(expected: uint32) returns (found: bool)
      requires Valid()
      modifies this`position
      ensures Valid()
      ensures found <==> expected < 0x4000 && EncodeVarint(expected) <= old(Rest())
      ensures found ==> Varint.ReadVarint32(old(Rest())) == Got(expected, Rest())
      ensures !found ==> Rest() == old(Rest())
    {
      found := false;
      if expected < 0x80 {
        ReadOneByteTag(Rest(), expected);
        if position < bufferEnd && buffer[position] == expected {
          position := position + 1;
          found := true;
        }
      } else if expected < 0x4000 {
        ReadTwoByteTag(Rest(), expected);
        if bufferEnd - position >= 2 && buffer[position] == expected % 128 + 128 && buffer[position + 1] == expected / 128 {
          position := position + 2;
          found := true;
        }
      }
    }

    /** True exactly at an end of the buffer that a limit has drawn back. */
    method ExpectAtEnd() returns (atEnd: bool)
      requires Valid()
      modifies this`legitimateEnd, this`lastTag
      ensures atEnd <==> position == bufferEnd && bufferEnd < |buffer|
      ensures atEnd ==> legitimateEnd && lastTag == 0
      ensures !atEnd ==> legitimateEnd == old(legitimateEnd) && lastTag == old(lastTag)
    {
      atEnd := position == bufferEnd && bufferEnd < |buffer|;
      if atEnd {
        lastTag, legitimateEnd := 0, true;
      }
    }

    /** What closes a case: `if (input->ExpectTag(next)) goto parse_next`, and after
        the last field `if (input->ExpectAtEnd()) return true`. */
    method CloseCase(next: uint32, last: bool) returns (jump: uint32, atEnd: bool)
      requires Valid() && !legitimateEnd
      modifies this`position, this`legitimateEnd, this`lastTag
      ensures Valid() && legitimateEnd == atEnd
      ensures atEnd ==> old(Rest()) == [] && position == bufferEnd && !End().Open? && last
      ensures !atEnd ==> Pending(jump, old(Rest())) && !(last && old(Rest()) == [] && End().Cut?)
    {
      jump, atEnd := 0, false;
      if next != 0 {
        var found := ExpectTag(next);
        if found {
          return next, false;
        }
      }
      if last {
        atEnd := ExpectAtEnd();
      }
    }

    /** The new limit never lies beyond the old one, and the buffer ends at it or at
        the total limit. If that lies before the position, the buffer would end
        before it begins. */
    method PushLimit(byteLimit: uint32) returns (oldLimit: nat)
      requires Valid() && !broken
      modifies this`limit, this`bufferEnd, this`broken
      ensures Valid() && oldLimit == old(limit) && (broken <==> position > TOTAL_BYTES_LIMIT)
      ensures !broken ==>
        limit == Min(position + byteLimit, old(limit)) && bufferEnd == Min(limit, TOTAL_BYTES_LIMIT)
    {
      oldLimit := limit;
      if position > TOTAL_BYTES_LIMIT {
        broken := true;
      } else {
        limit := Min(position + byteLimit, limit);
        bufferEnd := Min(limit, TOTAL_BYTES_LIMIT);
      }
    }

    /** The bytes that can be read once `oldLimit` is back. */
    ghost function Beyond(oldLimit: nat): Bytes
      requires bufferEnd <= Min(oldLimit, TOTAL_BYTES_LIMIT) && oldLimit <= |buffer|
      reads this
    {
      buffer[bufferEnd..Min(oldLimit, TOTAL_BYTES_LIMIT)]
    }

    method PopLimit(oldLimit: nat)
      requires Valid() && bufferEnd <= TOTAL_BYTES_LIMIT && limit <= oldLimit <= |buffer|
      modifies this`limit, this`bufferEnd, this`legitimateEnd
      ensures Valid() && limit == oldLimit && bufferEnd == Min(limit, TOTAL_BYTES_LIMIT) && !legitimateEnd
    {
      limit, bufferEnd, legitimateEnd := oldLimit, Min(oldLimit, TOTAL_BYTES_LIMIT), false;
    }

    /** The limit that ends a submessage whose length, at the start of `s`, has been
        read. */
    method PushMessage(length: uint32, ghost s: Bytes) returns (oldLimit: nat)
      requires Ready() && Varint.ReadVarint32(s) == Got(length, Rest())
      modifies this`limit, this`bufferEnd, this`broken
      ensures Valid() && oldLimit == old(limit)
      ensures broken <==> old(End()).Open? && |old(Rest())| < old(End()).size - TOTAL_BYTES_LIMIT
      ensures !broken ==> Inside(oldLimit, Enter(1, s, old(End())))
    {
      PushedCut(buffer, position, bufferEnd, limit, s, length);
      oldLimit := PushLimit(length);
    }

    /** The first half of `ReadMessageNoVirtual`: the length, one level of
        recursion, and the limit that ends the submessage. */
    method EnterMessage(ghost sub: Option<Submessage>) returns (ok: bool, oldLimit: nat)
      requires Ready() && sub == Enter(depth, Rest(), End())
      modifies this`position, this`depth, this`limit, this`bufferEnd, this`broken
      ensures Valid() && (broken <==> Breaks(old(depth), old(Rest()), old(End())))
      ensures !broken ==> (ok <==> sub.Some?)
      ensures ok ==> Inside(oldLimit, sub) && depth == old(depth) - 1
      ensures ok ==> Outer(old(Level()), old(End()), oldLimit, depth)
    {
      oldLimit := limit;
      ghost var s := Rest();
      SettledCut(s, End());
      var length;
      ok, length := ReadVarint32();
      if !ok || depth == 0 {
        return false, limit;
      }
      depth := depth - 1;
      oldLimit := PushMessage(length, s);
      ok := !broken;
    }

    /** Inside a submessage, with the old limit still to be put back. */
    ghost predicate Within(oldLimit: nat)
      reads this
    {
      Ready() && bufferEnd <= TOTAL_BYTES_LIMIT && limit <= oldLimit <= |buffer|
    }

    /** Inside the submessage `sub`. */
    ghost predicate Inside(oldLimit: nat, sub: Option<Submessage>)
      reads this
    {
      Within(oldLimit) && sub == Some(Current(oldLimit))
    }

    /** The submessage being read. */
    ghost function Current(oldLimit: nat): Submessage
      requires Within(oldLimit)
      reads this
    {
      Submessage(Rest(), End(), Beyond(oldLimit))
    }

    /** The second half, once the submessage has been read to its limit. */
    method LeaveMessage(oldLimit: nat, ghost level: (nat, nat, nat), ghost end: End)
      requires Valid() && !broken && position == bufferEnd <= TOTAL_BYTES_LIMIT && limit <= oldLimit <= |buffer|
      requires Outer(level, end, oldLimit, depth)
      modifies this`depth, this`limit, this`bufferEnd, this`legitimateEnd
      ensures ReadyAt(level) && End() == SettledEnd(end) && Rest() == old(Beyond(oldLimit))
    {
      PopLimit(oldLimit);
      depth := depth + 1;
    }

    /** `WireFormat::SkipField`. */
    method SkipField(tag: uint32) returns (ok: bool, field: UnknownField)
      requires Valid() && !legitimateEnd
      modifies this`position, this`depth, this`legitimateEnd, this`lastTag
      ensures Valid() && (ok ==> !legitimateEnd && depth == old(depth))
      ensures match WireFormat.SkipField(old(depth), tag, old(Rest()))
              case Fail => !ok
              case Got(f, rest) => ok && field == f && Rest() == rest
      decreases bufferEnd - position, 1
    {
      var number := TagNumber(tag);
      var wireType := TagWireType(tag);
      ok, field := false, VarintField(number, 0);
      if wireType == WIRETYPE_VARINT {
        var v;
        ok, v := ReadVarint64();
        field := VarintField(number, v);
      } else if wireType == WIRETYPE_FIXED64 {
        var v;
        ok, v := ReadLittleEndian64();
        field := Fixed64Field(number, v);
      } else if wireType == WIRETYPE_LENGTH_DELIMITED {
        var v;
        ok, v := ReadLengthDelimited();
        field := LengthDelimited(number, v);
      } else if wireType == WIRETYPE_START_GROUP {
        if depth == 0 {
          return;
        }
        depth := depth - 1;
        var fields;
        ok, fields := SkipMessage(number);
        depth := depth + 1;
        field := GroupField(number, fields);
        ok := ok && lastTag == MakeTag(number, WIRETYPE_END_GROUP);
      } else if wireType == WIRETYPE_FIXED32 {
        var v;
        ok, v := ReadLittleEndian32();
        field := Fixed32Field(number, v);
      }
    }

    /** `WireFormat::SkipMessage`: stops after any END_GROUP tag, which the caller
        compares with its own, or at the end of the input. */
    method SkipMessage(ghost number: FieldNumber) returns (ok: bool, fields: seq<UnknownField>)
      requires Valid() && !legitimateEnd
      modifies this`position, this`depth, this`legitimateEnd, this`lastTag
      ensures Valid() && (ok ==> depth == old(depth))
      ensures match SkipGroup(old(depth), number, old(Rest()))
              case Fail => !(ok && lastTag == MakeTag(number, WIRETYPE_END_GROUP))
              case Got(fs, rest) =>
                && ok && fields == fs && Rest() == rest && !legitimateEnd
                && lastTag == MakeTag(number, WIRETYPE_END_GROUP)
      decreases bufferEnd - position, 0
    {
      fields := [];
      TagParts(number, WIRETYPE_END_GROUP);
      ghost var start := Rest();
      AfterNothing(SkipGroup(depth, number, start));
      while true
        invariant Valid() && !legitimateEnd && depth == old(depth)
        invariant old(position) <= position
        invariant SkipGroup(depth, number, start) == After(fields, SkipGroup(depth, number, Rest()))
        decreases bufferEnd - position
      {
        ghost var s := Rest();
        var tag := ReadTag();
        if tag == 0 {
          return true, fields;
        }
        if TagWireType(tag) == WIRETYPE_END_GROUP {
          assert fields + [] == fields;
          TagSplits(tag);
          return true, fields;
        }
        SkipGroupStep(depth, number, s, tag, Rest(), fields);
        var field;
        ok, field := SkipField(tag);
        if !ok {
          return;
        }
        fields := fields + [field];
      }
    }
  }

  lemma TagSplits(tag: uint32)
    ensures tag == MakeTag(TagNumber(tag), TagWireType(tag))
  {
  }

  /** The low seven bits of `b` added at weight `shift`, cut to 64 bits. */
  function AddDigit(value: uint64, b: byte, shift: nat): uint64
  {
    (value + (if b < 128 then b else b - 128) * shift) % TWO_64
  }

  /** The number being read when `value` has been read below the weight `shift`. */
  ghost function Ahead(value: uint64, shift: nat, r: Read<nat>): Read<uint64>
  {
    match r case Fail => Fail case Got(v, rest) => Got((value + v * shift) % TWO_64, rest)
  }

  lemma AheadOfNothing(s: Bytes)
    ensures Varint.ReadVarint64(s) == Ahead(0, 1, RawVarint(s, MAX_VARINT_BYTES))
  {
  }

  /** One step of the varint loop. */
  lemma VarintDigit(s: Bytes, left: nat, value: uint64, shift: nat)
    requires s != [] && left > 0
    ensures Ahead(value, shift, RawVarint(s, left))
         == if s[0] < 128 then Got(AddDigit(value, s[0], shift), s[1..])
            else Ahead(AddDigit(value, s[0], shift), 128 * shift, RawVarint(s[1..], left - 1))
  {
    if s[0] >= 128 && RawVarint(s[1..], left - 1).Got? {
      DigitWeight(value, s[0] - 128, RawVarint(s[1..], left - 1).value, shift);
    }
  }

  lemma DigitWeight(value: int, low: int, v: int, shift: int)
    ensures (value + (low + 128 * v) * shift) % TWO_64 == ((value + low * shift) % TWO_64 + v * (128 * shift)) % TWO_64
  {
    var x, y := value + low * shift, v * (128 * shift);
    assert (low + 128 * v) * shift == low * shift + y;
    assert (x + y) % TWO_64 == (x % TWO_64 + y) % TWO_64 by { ModAdd(x, y); }
  }

  lemma ModAdd(x: int, y: int)
    ensures (x + y) % TWO_64 == (x % TWO_64 + y) % TWO_64
  {
  }

  /** The fields of a group when `fields` have been read already. */
  ghost function After(fields: seq<UnknownField>, r: Read<seq<UnknownField>>): Read<seq<UnknownField>>
  {
    match r case Fail => Fail case Got(fs, rest) => Got(fields + fs, rest)
  }

  lemma AfterNothing(r: Read<seq<UnknownField>>)
    ensures After([], r) == r
  {
    if r.Got? {
      assert [] + r.value == r.value;
    }
  }

  /** One step of the group loop. */
  lemma SkipGroupStep(depth: nat, number: FieldNumber, s: Bytes, tag: uint32, body: Bytes, fields: seq<UnknownField>)
    requires Varint.ReadVarint32(s) == Got(tag, body) && tag != 0 && TagWireType(tag) != WIRETYPE_END_GROUP
    ensures WireFormat.SkipField(depth, tag, body).Fail? ==> SkipGroup(depth, number, s).Fail?
    ensures WireFormat.SkipField(depth, tag, body).Got? ==>
      var Got(f, rest) := WireFormat.SkipField(depth, tag, body);
      After(fields, SkipGroup(depth, number, s)) == After(fields + [f], SkipGroup(depth, number, rest))
  {
    var next := WireFormat.SkipField(depth, tag, body);
    if next.Got? && SkipGroup(depth, number, next.rest).Got? {
      var fs := SkipGroup(depth, number, next.rest).value;
      assert fields + ([next.value] + fs) == fields + [next.value] + fs;
    }
  }

  lemma CutAt(buffer: Bytes, start: nat, end: nat, n: nat)
    requires start + n <= end <= |buffer|
    ensures buffer[start..end][..n] == buffer[start..start + n] && buffer[start..end][n..] == buffer[start + n..end]
  {
  }

  function EndAt(limit: nat, bufferEnd: nat): End
  {
    if limit <= TOTAL_BYTES_LIMIT then Legit else if bufferEnd > TOTAL_BYTES_LIMIT then Open(bufferEnd) else Cut
  }

  /** A submessage at `depth`, to be left for `oldLimit`, is inside a message at
      `level` that ends in `end`. */
  ghost predicate Outer(level: (nat, nat, nat), end: End, oldLimit: nat, depth: nat)
  {
    && level.0 == oldLimit && level.1 == depth + 1 && Min(oldLimit, TOTAL_BYTES_LIMIT) <= level.2
    && SettledEnd(end) == EndAt(oldLimit, Min(oldLimit, TOTAL_BYTES_LIMIT))
  }

  /** What a limit leaves that is pushed at `start`, after the length. */
  lemma PushedCut(buffer: Bytes, start: nat, bufferEnd: nat, limit: nat, s: Bytes, length: uint32)
    requires start <= bufferEnd <= limit <= |buffer|
    requires bufferEnd == Min(limit, TOTAL_BYTES_LIMIT) || bufferEnd == |buffer|
    requires Varint.ReadVarint32(s) == Got(length, buffer[start..bufferEnd])
    ensures EndAt(limit, bufferEnd).Open? && |buffer[start..bufferEnd]| < EndAt(limit, bufferEnd).size - TOTAL_BYTES_LIMIT
       <==> start > TOTAL_BYTES_LIMIT
    ensures start <= TOTAL_BYTES_LIMIT ==>
      var inner, outer := Min(Min(start + length, limit), TOTAL_BYTES_LIMIT), Min(limit, TOTAL_BYTES_LIMIT);
      && start <= inner <= outer
      && Enter(1, s, EndAt(limit, bufferEnd))
         == Some(Submessage(buffer[start..inner], EndAt(Min(start + length, limit), inner), buffer[inner..outer]))
  {
    SettledCut(s, EndAt(limit, bufferEnd));
    if start <= TOTAL_BYTES_LIMIT {
      var outer := Min(limit, TOTAL_BYTES_LIMIT);
      var b, n := buffer[start..outer], Min(length, outer - start);
      assert Settled(buffer[start..bufferEnd], EndAt(limit, bufferEnd)) == b;
      CutAt(buffer, start, outer, n);
    }
  }

  lemma SmallVarint(s: Bytes)
    requires s != [] && s[0] < 128
    ensures Varint.ReadVarint32(s) == Got(s[0], s[1..])
  {
    SmallMod(s[0]);
  }

  /** A tag in its shortest form, where that is one byte. */
  lemma ReadOneByteTag(s: Bytes, tag: uint32)
    requires tag < 0x80
    ensures EncodeVarint(tag) <= s <==> s != [] && s[0] == tag
    ensures EncodeVarint(tag) <= s ==> Varint.ReadVarint32(s) == Got(tag, s[1..])
  {
    assert EncodeVarint(tag) == [tag];
    if s != [] && s[0] == tag {
      assert s == [tag] + s[1..];
      SmallVarint(s);
    }
  }

  /** A tag in its shortest form, where that is two bytes. */
  lemma ReadTwoByteTag(s: Bytes, tag: uint32)
    requires 0x80 <= tag < 0x4000
    ensures EncodeVarint(tag) <= s <==> |s| >= 2 && s[0] == tag % 128 + 128 && s[1] == tag / 128
    ensures EncodeVarint(tag) <= s ==> Varint.ReadVarint32(s) == Got(tag, s[2..])
  {
    TwoBytes(tag);
    var form := EncodeVarint(tag);
    if |s| >= 2 && s[0] == tag % 128 + 128 && s[1] == tag / 128 {
      assert s == form + s[2..];
      Varint32RoundTrip(tag, s[2..]);
    }
  }

  lemma TwoBytes(tag: uint32)
    requires 0x80 <= tag < 0x4000
    ensures EncodeVarint(tag) == [tag % 128 + 128, tag / 128]
  {
    assert EncodeVarint(tag / 128) == [tag / 128];
  }
}
