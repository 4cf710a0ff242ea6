/** Tags, unknown fields, and the skipper that captures any field a message does
    not interpret (`WireFormat::SkipField`, `SkipMessage`), groups included. */
module WireFormat {
  import opened Prelude
  import opened Varint

  const WIRETYPE_VARINT: nat := 0
  const WIRETYPE_FIXED64: nat := 1
  const WIRETYPE_LENGTH_DELIMITED: nat := 2
  const WIRETYPE_START_GROUP: nat := 3
  const WIRETYPE_END_GROUP: nat := 4
  const WIRETYPE_FIXED32: nat := 5

  type FieldNumber = n: int | 0 <= n < 0x2000_0000

  function MakeTag(number: FieldNumber, wireType: nat): uint32
    requires wireType < 8
  {
    8 * number + wireType
  }

  function TagNumber(tag: uint32): FieldNumber
  {
    tag / 8
  }

  function TagWireType(tag: uint32): nat
  {
    tag % 8
  }

  /** One field on the wire, as `UnknownFieldSet` keeps it. */
  datatype UnknownField =
    | VarintField(number: FieldNumber, varint: uint64)
    | Fixed64Field(number: FieldNumber, fixed64: uint64)
    | LengthDelimited(number: FieldNumber, data: Bytes)
    | GroupField(number: FieldNumber, group: seq<UnknownField>)
    | Fixed32Field(number: FieldNumber, fixed32: uint32)

  // ---------------------------------------------------------------- writing

  function FieldTag(f: UnknownField): uint32
  {
    match f
    case VarintField(n, _) => MakeTag(n, WIRETYPE_VARINT)
    case Fixed64Field(n, _) => MakeTag(n, WIRETYPE_FIXED64)
    case LengthDelimited(n, _) => MakeTag(n, WIRETYPE_LENGTH_DELIMITED)
    case GroupField(n, _) => MakeTag(n, WIRETYPE_START_GROUP)
    case Fixed32Field(n, _) => MakeTag(n, WIRETYPE_FIXED32)
  }

  /** What follows the tag on the wire. */
  function EncodePayload(f: UnknownField): Bytes
    decreases f, 0
  {
    match f
    case VarintField(_, v) => EncodeVarint(v)
    case Fixed64Field(_, v) => EncodeFixed64(v)
    case LengthDelimited(_, d) => EncodeVarint(|d|) + d
    case GroupField(n, g) => EncodeFields(g) + EncodeVarint(MakeTag(n, WIRETYPE_END_GROUP))
    case Fixed32Field(_, v) => EncodeFixed32(v)
  }

  function EncodeField(f: UnknownField): (s: Bytes)
    ensures |s| >= 1
    decreases f, 1
  {
    EncodeVarint(FieldTag(f)) + EncodePayload(f)
  }

  function EncodeFields(fs: seq<UnknownField>): Bytes
    decreases fs
  {
    if fs == [] then [] else EncodeField(fs[0]) + EncodeFields(fs[1..])
  }

  lemma {:induction false} EncodeFieldsConcat(fs: seq<UnknownField>, gs: seq<UnknownField>)
    ensures EncodeFields(fs + gs) == EncodeFields(fs) + EncodeFields(gs)
  {
    if fs == [] {
      assert fs + gs == gs;
    } else {
      assert (fs + gs)[1..] == fs[1..] + gs;
      EncodeFieldsConcat(fs[1..], gs);
    }
  }

  /** A length-delimited field is no shorter than its data. */
  lemma {:induction false} EncodeFieldsBound(fs: seq<UnknownField>, f: UnknownField)
    requires f in fs && f.LengthDelimited?
    ensures |f.data| <= |EncodeFields(fs)|
  {
    assert |EncodeFields(fs)| == |EncodeField(fs[0])| + |EncodeFields(fs[1..])|;
    if fs[0] == f {
      assert EncodePayload(f) == EncodeVarint(|f.data|) + f.data;
    } else {
      EncodeFieldsBound(fs[1..], f);
    }
  }

  /** What a field of each wire type is on the wire: eight times its number and the
      wire type, then what it holds; a group ends in a tag of its own. */
  lemma FieldBytes(f: UnknownField)
    ensures EncodeField(f)
         == match f
            case VarintField(n, v) => EncodeVarint(8 * n) + EncodeVarint(v)
            case Fixed64Field(n, v) => EncodeVarint(8 * n + 1) + EncodeFixed64(v)
            case LengthDelimited(n, d) => EncodeVarint(8 * n + 2) + (EncodeVarint(|d|) + d)
            case GroupField(n, g) => EncodeVarint(8 * n + 3) + (EncodeFields(g) + EncodeVarint(8 * n + 4))
            case Fixed32Field(n, v) => EncodeVarint(8 * n + 5) + EncodeFixed32(v)
  {
  }

  // The field a serializer writes for a set member of each scalar kind, and
  // nothing for an unset one.

  function Int32Field(n: FieldNumber, v: Option<int32>): seq<UnknownField>
  {
    if v.None? then [] else [VarintField(n, SignExtend(v.value))]
  }

  function UInt32Field(n: FieldNumber, v: Option<uint32>): seq<UnknownField>
  {
    if v.None? then [] else [VarintField(n, v.value)]
  }

  function BoolField(n: FieldNumber, v: Option<bool>): seq<UnknownField>
  {
    if v.None? then [] else [VarintField(n, if v.value then 1 else 0)]
  }

  function FloatField(n: FieldNumber, v: Option<uint32>): seq<UnknownField>
  {
    if v.None? then [] else [Fixed32Field(n, v.value)]
  }

  function BytesField(n: FieldNumber, v: Option<Bytes>): seq<UnknownField>
  {
    if v.None? then [] else [LengthDelimited(n, v.value)]
  }

  // ---------------------------------------------------------------- reading

  /** `ReadVarint32` for the length, then that many bytes; a length that is
      negative as an `int` or runs past the end fails. */
  function ReadString(s: Bytes): (r: Read<Bytes>)
    ensures r.Got? ==> |r.rest| < |s|
  {
    match ReadVarint32(s)
    case Fail => Fail
    case Got(len, rest) =>
      if len >= TWO_31 || len > |rest| then Fail else Got(rest[..len], rest[len..])
  }

  /** `WireFormat::SkipField`: the field announced by `tag` whose payload starts
      `s`. `depth` is how many more nested groups the recursion limit allows. */
  function SkipField(depth: nat, tag: uint32, s: Bytes): (r: Read<UnknownField>)
    ensures r.Got? ==> |r.rest| < |s|
    decreases |s|, 1
  {
    if TagWireType(tag) != WIRETYPE_START_GROUP then SkipPlain(tag, s)
    else if depth == 0 then Fail
    else match SkipGroup(depth - 1, TagNumber(tag), s)
      case Fail => Fail
      case Got(fs, rest) => Got(GroupField(TagNumber(tag), fs), rest)
  }

  /** The cases of `SkipField` that are not groups. */
  function SkipPlain(tag: uint32, s: Bytes): (r: Read<UnknownField>)
    ensures r.Got? ==> |r.rest| < |s|
  {
    var number := TagNumber(tag);
    match TagWireType(tag)
    case 0 => (match ReadVarint64(s) case Fail => Fail case Got(v, rest) => Got(VarintField(number, v), rest))
    case 1 => (match ReadFixed64(s) case Fail => Fail case Got(v, rest) => Got(Fixed64Field(number, v), rest))
    case 2 => (match ReadString(s) case Fail => Fail case Got(v, rest) => Got(LengthDelimited(number, v), rest))
    case 5 => (match ReadFixed32(s) case Fail => Fail case Got(v, rest) => Got(Fixed32Field(number, v), rest))
    case _ => Fail
  }

  /** `WireFormat::SkipMessage` inside a group, up to and including the END_GROUP
      tag, which must carry the group's own number. */
  function SkipGroup(depth: nat, number: FieldNumber, s: Bytes): (r: Read<seq<UnknownField>>)
    ensures r.Got? ==> |r.rest| < |s|
    decreases |s|, 0
  {
    match ReadVarint32(s)
    case Fail => Fail
    case Got(tag, body) =>
      if tag == 0 then Fail
      else if TagWireType(tag) == WIRETYPE_END_GROUP then
        if TagNumber(tag) == number then Got([], body) else Fail
      else
        match SkipField(depth, tag, body)
        case Fail => Fail
        case Got(f, next) =>
          match SkipGroup(depth, number, next)
          case Fail => Fail
          case Got(fs, rest) => Got([f] + fs, rest)
  }

  /** A field that the skipper can hand back: no zero tag, a length that fits an
      `int`, and groups nested no deeper than `depth`. */
  predicate Wire(depth: nat, f: UnknownField)
    decreases f
  {
    match f
    case VarintField(n, _) => n > 0
    case LengthDelimited(_, d) => |d| < TWO_31
    case GroupField(_, g) => depth > 0 && forall x | x in g :: Wire(depth - 1, x)
    case _ => true
  }

  lemma {:induction false} SkipFieldWire(depth: nat, tag: uint32, s: Bytes)
    requires tag != 0 && SkipField(depth, tag, s).Got?
    ensures Wire(depth, SkipField(depth, tag, s).value)
    decreases |s|, 1
  {
    if TagWireType(tag) == WIRETYPE_START_GROUP {
      SkipGroupWire(depth - 1, TagNumber(tag), s);
    }
  }

  lemma {:induction false} SkipGroupWire(depth: nat, number: FieldNumber, s: Bytes)
    requires SkipGroup(depth, number, s).Got?
    ensures forall f | f in SkipGroup(depth, number, s).value :: Wire(depth, f)
    decreases |s|, 0
  {
    var Got(tag, body) := ReadVarint32(s);
    if TagWireType(tag) != WIRETYPE_END_GROUP {
      SkipFieldWire(depth, tag, body);
      SkipGroupWire(depth, number, SkipField(depth, tag, body).rest);
    }
  }

  lemma ReadStringExtend(s: Bytes, t: Bytes)
    requires ReadString(s).Got?
    ensures ReadString(s + t) == Got(ReadString(s).value, ReadString(s).rest + t)
  {
    VarintExtend(s, t);
    var Got(len, rest) := ReadVarint32(s);
    assert (rest + t)[..len] == rest[..len] && (rest + t)[len..] == rest[len..] + t;
  }

  lemma SkipPlainExtend(tag: uint32, s: Bytes, t: Bytes)
    requires SkipPlain(tag, s).Got?
    ensures SkipPlain(tag, s + t) == Got(SkipPlain(tag, s).value, SkipPlain(tag, s).rest + t)
  {
    match TagWireType(tag)
    case 0 => VarintExtend(s, t);
    case 1 => FixedExtend(s, t);
    case 2 => ReadStringExtend(s, t);
    case 5 => FixedExtend(s, t);
  }

  /** Skipping a field only looks at the field's own bytes. */
  lemma {:induction false} SkipFieldExtend(depth: nat, tag: uint32, s: Bytes, t: Bytes)
    requires SkipField(depth, tag, s).Got?
    ensures SkipField(depth, tag, s + t) == Got(SkipField(depth, tag, s).value, SkipField(depth, tag, s).rest + t)
    decreases |s|, 1
  {
    if TagWireType(tag) != WIRETYPE_START_GROUP {
      SkipPlainExtend(tag, s, t);
    } else {
      SkipGroupExtend(depth - 1, TagNumber(tag), s, t);
    }
  }

  lemma {:induction false} SkipGroupExtend(depth: nat, number: FieldNumber, s: Bytes, t: Bytes)
    requires SkipGroup(depth, number, s).Got?
    ensures SkipGroup(depth, number, s + t)
         == Got(SkipGroup(depth, number, s).value, SkipGroup(depth, number, s).rest + t)
    decreases |s|, 0
  {
    VarintExtend(s, t);
    var Got(tag, body) := ReadVarint32(s);
    if TagWireType(tag) != WIRETYPE_END_GROUP {
      SkipFieldExtend(depth, tag, body, t);
      SkipGroupExtend(depth, number, SkipField(depth, tag, body).rest, t);
    }
  }

  lemma SkipPlainPrefix(tag: uint32, s: Bytes, t: Bytes)
    requires SkipPlain(tag, s + t).Got? && |SkipPlain(tag, s + t).rest| >= |t|
    ensures SkipPlain(tag, s).Got?
  {
    if TagWireType(tag) == 0 {
      VarintPrefix(s, t);
    } else if TagWireType(tag) == 2 {
      VarintPrefix(s, t);
    } else {
    }
  }

  /** A field is skipped from its own bytes: what it leaves behind is not needed. */
  lemma {:induction false} SkipFieldPrefix(depth: nat, tag: uint32, s: Bytes, t: Bytes)
    requires SkipField(depth, tag, s + t).Got? && |SkipField(depth, tag, s + t).rest| >= |t|
    ensures SkipField(depth, tag, s).Got?
    decreases |s|, 1
  {
    if TagWireType(tag) != WIRETYPE_START_GROUP {
      SkipPlainPrefix(tag, s, t);
    } else {
      SkipGroupPrefix(depth - 1, TagNumber(tag), s, t);
    }
  }

  lemma {:induction false} SkipGroupPrefix(depth: nat, number: FieldNumber, s: Bytes, t: Bytes)
    requires SkipGroup(depth, number, s + t).Got? && |SkipGroup(depth, number, s + t).rest| >= |t|
    ensures SkipGroup(depth, number, s).Got?
    decreases |s|, 0
  {
    VarintPrefix(s, t);
    var Got(tag, body) := ReadVarint32(s);
    if TagWireType(tag) != WIRETYPE_END_GROUP {
      SkipFieldPrefix(depth, tag, body, t);
      SkipFieldExtend(depth, tag, body, t);
      SkipGroupPrefix(depth, number, SkipField(depth, tag, body).rest, t);
    }
  }

  lemma SkipFieldKind(depth: nat, tag: uint32, s: Bytes)
    requires SkipField(depth, tag, s).Got?
    ensures FieldTag(SkipField(depth, tag, s).value) == tag
    ensures var f := SkipField(depth, tag, s).value;
            f.number == TagNumber(tag) && (f.LengthDelimited? <==> TagWireType(tag) == WIRETYPE_LENGTH_DELIMITED)
  {
  }

  lemma TagParts(number: FieldNumber, wireType: nat)
    requires wireType < 8
    ensures var tag := MakeTag(number, wireType); TagNumber(tag) == number && TagWireType(tag) == wireType
  {
  }

  lemma FieldTagFacts(depth: nat, f: UnknownField, t: Bytes)
    requires Wire(depth, f)
    ensures FieldTag(f) != 0 && TagWireType(FieldTag(f)) != WIRETYPE_END_GROUP
    ensures TagNumber(FieldTag(f)) == f.number
    ensures TagWireType(FieldTag(f)) == WIRETYPE_LENGTH_DELIMITED <==> f.LengthDelimited?
    ensures ReadVarint32(EncodeField(f) + t) == Got(FieldTag(f), EncodePayload(f) + t)
  {
    TagParts(f.number, FieldTag(f) - 8 * f.number);
    assert EncodeField(f) + t == EncodeVarint(FieldTag(f)) + (EncodePayload(f) + t);
    Varint32RoundTrip(FieldTag(f), EncodePayload(f) + t);
  }

  lemma StringRoundTrip(d: Bytes, t: Bytes)
    requires |d| < TWO_31
    ensures ReadString(EncodeVarint(|d|) + d + t) == Got(d, t)
  {
    var prefix, rest := EncodeVarint(|d|), d + t;
    Varint32RoundTrip(|d|, rest);
    assert prefix + d + t == prefix + rest;
    assert rest[..|d|] == d && rest[|d|..] == t;
  }

  lemma SkipEncodedPlain(depth: nat, f: UnknownField, t: Bytes)
    requires Wire(depth, f) && !f.GroupField?
    ensures SkipPlain(FieldTag(f), EncodePayload(f) + t) == Got(f, t)
  {
    TagParts(f.number, FieldTag(f) - 8 * f.number);
    match f
    case VarintField(n, v) => VarintRoundTrip(v, t);
    case Fixed64Field(n, v) => Fixed64RoundTrip(v, t);
    case LengthDelimited(n, d) => StringRoundTrip(d, t);
    case Fixed32Field(n, v) => Fixed32RoundTrip(v, t);
  }

  /** Writing an unknown field and skipping it again gives the field back. */
  lemma {:induction false} SkipEncodedField(depth: nat, f: UnknownField, t: Bytes)
    requires Wire(depth, f)
    ensures SkipField(depth, FieldTag(f), EncodePayload(f) + t) == Got(f, t)
    decreases f, 0
  {
    if f.GroupField? {
      TagParts(f.number, WIRETYPE_START_GROUP);
      SkipEncodedGroup(depth - 1, f.number, f.group, t);
      JoinInAnyOrder(EncodeFields(f.group), EncodeVarint(MakeTag(f.number, WIRETYPE_END_GROUP)), t);
    } else {
      TagParts(f.number, FieldTag(f) - 8 * f.number);
      SkipEncodedPlain(depth, f, t);
    }
  }

  lemma {:induction false} SkipEncodedGroup(depth: nat, number: FieldNumber, g: seq<UnknownField>, t: Bytes)
    requires forall x | x in g :: Wire(depth, x)
    ensures var end := EncodeVarint(MakeTag(number, WIRETYPE_END_GROUP));
            SkipGroup(depth, number, EncodeFields(g) + (end + t)) == Got(g, t)
    decreases g
  {
    var tail := EncodeVarint(MakeTag(number, WIRETYPE_END_GROUP)) + t;
    if g == [] {
      TagParts(number, WIRETYPE_END_GROUP);
      Varint32RoundTrip(MakeTag(number, WIRETYPE_END_GROUP), t);
      assert EncodeFields(g) + tail == tail;
    } else {
      var rest := EncodeFields(g[1..]) + tail;
      assert EncodeFields(g) + tail == EncodeField(g[0]) + rest;
      FieldTagFacts(depth, g[0], rest);
      SkipEncodedField(depth, g[0], rest);
      SkipEncodedGroup(depth, number, g[1..], t);
      assert [g[0]] + g[1..] == g;
    }
  }

  // ---------------------------------------------------------------- lengths

  lemma SkipPlainLength(tag: uint32, s: Bytes)
    requires SkipPlain(tag, s).Got?
    ensures |EncodePayload(SkipPlain(tag, s).value)| + |SkipPlain(tag, s).rest| <= |s|
  {
    match TagWireType(tag)
    case 0 => VarintLength(s);
    case 1 =>
    case 2 =>
      VarintLength(s);
      var Got(len, rest) := ReadVarint32(s);
      assert |rest[..len]| == len && |rest[len..]| == |rest| - len;
    case 5 =>
  }

  /** A field is never skipped from fewer bytes than writing it takes. */
  lemma {:induction false} SkipFieldLength(depth: nat, tag: uint32, s: Bytes)
    requires SkipField(depth, tag, s).Got?
    ensures |EncodePayload(SkipField(depth, tag, s).value)| + |SkipField(depth, tag, s).rest| <= |s|
    decreases |s|, 1
  {
    if TagWireType(tag) != WIRETYPE_START_GROUP {
      SkipPlainLength(tag, s);
    } else {
      SkipGroupLength(depth - 1, TagNumber(tag), s);
    }
  }

  lemma {:induction false} SkipGroupLength(depth: nat, number: FieldNumber, s: Bytes)
    requires SkipGroup(depth, number, s).Got?
    ensures var Got(fs, rest) := SkipGroup(depth, number, s);
            |EncodeFields(fs)| + |EncodeVarint(MakeTag(number, WIRETYPE_END_GROUP))| + |rest| <= |s|
    decreases |s|, 0
  {
    VarintLength(s);
    var Got(tag, body) := ReadVarint32(s);
    if TagWireType(tag) == WIRETYPE_END_GROUP {
      assert tag == MakeTag(number, WIRETYPE_END_GROUP);
    } else {
      SkipFieldLength(depth, tag, body);
      SkipFieldKind(depth, tag, body);
      var Got(f, next) := SkipField(depth, tag, body);
      SkipGroupLength(depth, number, next);
      var fs := SkipGroup(depth, number, next).value;
      assert ([f] + fs)[0] == f && ([f] + fs)[1..] == fs;
    }
  }
}
