/** The loop every generated parser runs, stated once for all messages: read a
    tag, read the field it announces, give the field to the message. What a
    message does with a field is its `step`; `subs` are the numbers of its
    submessage fields. */
module MessageEngine {
  import opened Prelude
  import opened Varint
  import opened WireFormat

  /** `kDefaultRecursionLimit`. */
  const DEFAULT_RECURSION_LIMIT: nat := 64

  /** `short` tells that a submessage declared more bytes than were left. */
  datatype Next = Halt | Found(field: UnknownField, rest: Bytes, short: bool)

  predicate IsSubmessage(subs: set<nat>, f: UnknownField)
  {
    f.LengthDelimited? && f.number in subs
  }

  /** `ReadMessageNoVirtual` up to the nested parse: the declared length is cut
      to what the enclosing limit leaves (`PushLimit` takes the minimum). The
      result is the submessage's bytes and how many were declared. */
  function CutSubmessage(s: Bytes): (r: Read<(Bytes, nat)>)
    ensures r.Got? ==> |r.rest| < |s| && |r.value.0| < |s|
  {
    match ReadVarint32(s)
    case Fail => Fail
    case Got(len, body) =>
      var n := Min(len, |body|);
      Got((body[..n], len), body[n..])
  }

  function ReadSubmessage(depth: nat, number: FieldNumber, s: Bytes): (r: Next)
    ensures r.Found? ==> |r.rest| < |s|
  {
    match CutSubmessage(s)
    case Fail => Halt
    case Got((data, len), rest) =>
      if depth == 0 then Halt else Found(LengthDelimited(number, data), rest, len > |data|)
  }

  /** The field that starts `s`. A zero tag, an unreadable tag and a stray
      END_GROUP tag stop the parser before the end of its input. */
  function NextField(subs: set<nat>, depth: nat, s: Bytes): (r: Next)
    ensures r.Found? ==> |r.rest| < |s|
  {
    match ReadVarint32(s)
    case Fail => Halt
    case Got(tag, body) =>
      if tag == 0 || TagWireType(tag) == WIRETYPE_END_GROUP then Halt
      else FieldAfterTag(subs, depth, tag, body)
  }

  function FieldAfterTag(subs: set<nat>, depth: nat, tag: uint32, body: Bytes): (r: Next)
    ensures r.Found? ==> |r.rest| < |body|
  {
    if TagWireType(tag) == WIRETYPE_LENGTH_DELIMITED && TagNumber(tag) in subs then
      ReadSubmessage(depth, TagNumber(tag), body)
    else
      match SkipField(depth, tag, body)
      case Fail => Halt
      case Got(f, rest) => Found(f, rest, false)
  }

  /** The whole parse; `None` when the input is not accepted, that is when the
      parser fails or stops before the end. */
  function Run<M>(step: (M, UnknownField) -> Option<M>, subs: set<nat>, depth: nat, m: M, s: Bytes): Option<M>
    decreases |s|
  {
    if s == [] then Some(m)
    else match NextField(subs, depth, s)
      case Halt => None
      case Found(f, rest, _) =>
        match step(m, f)
        case None => None
        case Some(m') => Run(step, subs, depth, m', rest)
  }

  // The field that comes next, for each way it can be read.

  predicate StartsSubmessage(subs: set<nat>, s: Bytes)
  {
    ReadVarint32(s).Got? &&
    var tag := ReadVarint32(s).value;
    TagWireType(tag) == WIRETYPE_LENGTH_DELIMITED && TagNumber(tag) in subs && tag != 0
  }

  lemma VarintNext(subs: set<nat>, depth: nat, s: Bytes, number: FieldNumber, body: Bytes)
    requires ReadVarint32(s) == Got(MakeTag(number, WIRETYPE_VARINT), body) && number > 0
    ensures !StartsSubmessage(subs, s)
    ensures match ReadVarint64(body)
            case Fail => ReadVarint32(body).Fail? && NextField(subs, depth, s).Halt?
            case Got(v, rest) =>
              ReadVarint32(body) == Got(v % TWO_32, rest)
              && NextField(subs, depth, s) == Found(VarintField(number, v), rest, false)
  {
    TagParts(number, WIRETYPE_VARINT);
  }

  lemma Fixed32Next(subs: set<nat>, depth: nat, s: Bytes, number: FieldNumber, body: Bytes)
    requires ReadVarint32(s) == Got(MakeTag(number, WIRETYPE_FIXED32), body)
    ensures !StartsSubmessage(subs, s)
    ensures match ReadFixed32(body)
            case Fail => NextField(subs, depth, s).Halt?
            case Got(v, rest) => NextField(subs, depth, s) == Found(Fixed32Field(number, v), rest, false)
  {
    TagParts(number, WIRETYPE_FIXED32);
  }

  lemma StringNext(subs: set<nat>, depth: nat, s: Bytes, number: FieldNumber, body: Bytes)
    requires ReadVarint32(s) == Got(MakeTag(number, WIRETYPE_LENGTH_DELIMITED), body) && number > 0 && number !in subs
    ensures !StartsSubmessage(subs, s)
    ensures match ReadString(body)
            case Fail => NextField(subs, depth, s).Halt?
            case Got(v, rest) => NextField(subs, depth, s) == Found(LengthDelimited(number, v), rest, false)
  {
    TagParts(number, WIRETYPE_LENGTH_DELIMITED);
  }

  lemma SkippedNext(subs: set<nat>, depth: nat, s: Bytes, tag: uint32, body: Bytes)
    requires ReadVarint32(s) == Got(tag, body) && tag != 0 && TagWireType(tag) != WIRETYPE_END_GROUP
    requires !(TagWireType(tag) == WIRETYPE_LENGTH_DELIMITED && TagNumber(tag) in subs)
    ensures !StartsSubmessage(subs, s)
    ensures match SkipField(depth, tag, body)
            case Fail => NextField(subs, depth, s).Halt?
            case Got(f, rest) => NextField(subs, depth, s) == Found(f, rest, false) && FieldTag(f) == tag
  {
    if SkipField(depth, tag, body).Got? {
      SkipFieldKind(depth, tag, body);
    }
  }

  /** An input of a single field. */
  lemma RunOneField<M>(step: (M, UnknownField) -> Option<M>, subs: set<nat>, depth: nat, m: M, s: Bytes,
                       f: UnknownField, short: bool)
    requires NextField(subs, depth, s) == Found(f, [], short)
    ensures Run(step, subs, depth, m, s) == step(m, f)
  {
  }

  /** The last field of `s` is a submessage cut short by the end of `s`. */
  predicate Overruns(subs: set<nat>, depth: nat, s: Bytes)
    decreases |s|
  {
    s != [] &&
    match NextField(subs, depth, s)
    case Halt => false
    case Found(_, rest, short) => short || Overruns(subs, depth, rest)
  }

  function Fold<M>(step: (M, UnknownField) -> Option<M>, m: M, fs: seq<UnknownField>): Option<M>
  {
    if fs == [] then Some(m)
    else match step(m, fs[0])
      case None => None
      case Some(m') => Fold(step, m', fs[1..])
  }

  lemma FoldOne<M>(step: (M, UnknownField) -> Option<M>, m: M, f: UnknownField)
    ensures Fold(step, m, [f]) == step(m, f)
  {
    match step(m, f)
    case None =>
    case Some(m') => assert Fold(step, m', []) == Some(m');
  }

  lemma {:induction false} FoldConcat<M>(step: (M, UnknownField) -> Option<M>, m: M,
                                         fs: seq<UnknownField>, gs: seq<UnknownField>)
    ensures Fold(step, m, fs + gs)
         == match Fold(step, m, fs) case None => None case Some(m') => Fold(step, m', gs)
  {
    if fs == [] {
      assert fs + gs == gs;
    } else {
      assert (fs + gs)[1..] == fs[1..] + gs;
      match step(m, fs[0])
      case None =>
      case Some(m') => FoldConcat(step, m', fs[1..], gs);
    }
  }

  // ------------------------------------------------- concatenation of inputs

  lemma NextFieldExtend(subs: set<nat>, depth: nat, s: Bytes, t: Bytes)
    requires NextField(subs, depth, s).Found? && !NextField(subs, depth, s).short
    ensures var r := NextField(subs, depth, s);
            NextField(subs, depth, s + t) == Found(r.field, r.rest + t, false)
  {
    VarintExtend(s, t);
    var Got(tag, body) := ReadVarint32(s);
    if TagWireType(tag) == WIRETYPE_LENGTH_DELIMITED && TagNumber(tag) in subs {
      VarintExtend(body, t);
      var Got(len, data) := ReadVarint32(body);
      assert (data + t)[..len] == data[..len] && (data + t)[len..] == data[len..] + t;
    } else {
      SkipFieldExtend(depth, tag, body, t);
    }
  }

  lemma CutAbsorbs(body: Bytes, t: Bytes) returns (n: nat)
    requires CutSubmessage(body).Got? && CutSubmessage(body).value.1 > |CutSubmessage(body).value.0| && t != []
    ensures CutSubmessage(body).rest == [] && 1 <= n <= |t|
    ensures CutSubmessage(body + t) == Got((CutSubmessage(body).value.0 + t[..n], CutSubmessage(body).value.1), t[n..])
  {
    VarintExtend(body, t);
    var Got(len, data) := ReadVarint32(body);
    n := Min(len, |data + t|) - |data|;
    assert data[..|data|] == data;
    assert (data + t)[..|data| + n] == data + t[..n] && (data + t)[|data| + n..] == t[n..];
  }

  /** A submessage cut short takes bytes from whatever is appended. */
  lemma NextFieldAbsorb(subs: set<nat>, depth: nat, s: Bytes, t: Bytes)
    requires NextField(subs, depth, s).Found? && NextField(subs, depth, s).short && t != []
    ensures NextField(subs, depth, s).rest == []
    ensures exists n: nat | 1 <= n <= |t| ::
              var f := NextField(subs, depth, s).field;
              && IsSubmessage(subs, f)
              && NextField(subs, depth, s + t).Found?
              && NextField(subs, depth, s + t).field == LengthDelimited(f.number, f.data + t[..n])
              && NextField(subs, depth, s + t).rest == t[n..]
  {
    VarintExtend(s, t);
    var n := CutAbsorbs(ReadVarint32(s).rest, t);
  }

  /** An input whose last field does not overrun can be followed by anything. */
  lemma {:induction false} RunConcat<M>(step: (M, UnknownField) -> Option<M>, subs: set<nat>, depth: nat,
                                        m: M, s: Bytes, t: Bytes)
    requires Run(step, subs, depth, m, s).Some? && !Overruns(subs, depth, s)
    ensures Run(step, subs, depth, m, s + t)
         == Run(step, subs, depth, Run(step, subs, depth, m, s).value, t)
    decreases |s|
  {
    if s == [] {
      assert s + t == t;
    } else {
      NextFieldExtend(subs, depth, s, t);
      var Found(f, rest, _) := NextField(subs, depth, s);
      RunConcat(step, subs, depth, step(m, f).value, rest, t);
    }
  }

  /** A two-byte field that no message of this file interprets: number 1, empty
      and length-delimited. */
  const PROBE: Bytes := [0x0A, 0x00]

  lemma ProbeIsOneField(subs: set<nat>, depth: nat)
    requires 1 !in subs
    ensures NextField(subs, depth, PROBE) == Found(LengthDelimited(1, []), [], false)
  {
    var f := LengthDelimited(1, []);
    assert EncodeVarint(10) == [10] && EncodeVarint(0) == [0];
    assert EncodeField(f) + [] == PROBE;
    FieldTagFacts(depth, f, []);
    SkipEncodedField(depth, f, []);
  }

  lemma StrayZeroHalts(subs: set<nat>, depth: nat)
    ensures NextField(subs, depth, [0]) == Halt
  {
    assert EncodeVarint(0) + [] == [0];
    Varint32RoundTrip(0, []);
  }

  /** Appending the probe to an input that overruns never adds an unknown field
      to the message itself: the submessage swallows it, or the parse fails. */
  lemma {:induction false} RunAbsorbs<M(!new)>(step: (M, UnknownField) -> Option<M>, unknowns: M -> nat,
                                               subs: set<nat>, depth: nat, m: M, s: Bytes)
    requires forall m, f | IsSubmessage(subs, f) && step(m, f).Some? :: unknowns(step(m, f).value) == unknowns(m)
    requires Run(step, subs, depth, m, s).Some? && Overruns(subs, depth, s)
    ensures var r := Run(step, subs, depth, m, s + PROBE);
            r.Some? ==> unknowns(r.value) == unknowns(Run(step, subs, depth, m, s).value)
    decreases |s|
  {
    var Found(f, rest, short) := NextField(subs, depth, s);
    if !short {
      NextFieldExtend(subs, depth, s, PROBE);
      RunAbsorbs(step, unknowns, subs, depth, step(m, f).value, rest);
    } else {
      NextFieldAbsorb(subs, depth, s, PROBE);
      var next := NextField(subs, depth, s + PROBE);
      assert Run(step, subs, depth, m, s) == step(m, f);
      if |next.rest| > 0 {
        assert next.rest == [0];
        StrayZeroHalts(subs, depth);
      }
    }
  }

  // ---------------------------------------------------------------- merging

  /** Giving a field to a merged message merges the message that got the field. */
  ghost predicate StepMerges<M(!new)>(step: (M, UnknownField) -> Option<M>, merge: (M, M) -> M)
  {
    forall a, b, f {:trigger step(merge(a, b), f)} ::
      step(merge(a, b), f) == match step(b, f) case None => None case Some(b') => Some(merge(a, b'))
  }

  lemma {:induction false} RunMerge<M(!new)>(step: (M, UnknownField) -> Option<M>, merge: (M, M) -> M,
                                             subs: set<nat>, depth: nat, a: M, b: M, s: Bytes)
    requires StepMerges(step, merge)
    ensures Run(step, subs, depth, merge(a, b), s)
         == match Run(step, subs, depth, b, s) case None => None case Some(b') => Some(merge(a, b'))
    decreases |s|
  {
    if s != [] {
      match NextField(subs, depth, s)
      case Halt =>
      case Found(f, rest, _) =>
        assert step(merge(a, b), f) == match step(b, f) case None => None case Some(b') => Some(merge(a, b'));
        match step(b, f)
        case None =>
        case Some(b') => RunMerge(step, merge, subs, depth, a, b', rest);
    }
  }

  // ---------------------------------------------------------- malformed fields

  /** Which fields can be read, groups aside: the tag is a varint and not zero, its
      wire type is a known one, and what follows is long enough; a string announces
      less than 2^31 bytes, and a submessage is not too deep. */
  lemma NextFieldIff(subs: set<nat>, depth: nat, s: Bytes)
    requires ReadVarint32(s).Got? ==> ReadVarint32(s).value % 8 != 3
    ensures NextField(subs, depth, s).Found? <==>
      && ReadVarint32(s).Got? && ReadVarint32(s).value != 0
      && var tag, body := ReadVarint32(s).value, ReadVarint32(s).rest;
         var len := ReadVarint32(body);
         match tag % 8
         case 0 => ReadVarint64(body).Got?
         case 1 => |body| >= 8
         case 2 => len.Got? && if tag / 8 in subs then depth > 0 else len.value < 0x8000_0000 && len.value <= |len.rest|
         case 5 => |body| >= 4
         case _ => false
  {
  }

  /** A group that another group's END_GROUP tag ends cannot be read. */
  lemma OtherGroupEnds(subs: set<nat>, depth: nat, n: FieldNumber, s: Bytes, end: uint32, body: Bytes, t: Bytes)
    requires ReadVarint32(s) == Got(8 * n + 3, body) && ReadVarint32(body) == Got(end, t)
    requires end % 8 == 4 && end / 8 != n
    ensures NextField(subs, depth, s) == Halt
  {
    TagParts(n, WIRETYPE_START_GROUP);
    if depth > 0 {
      assert SkipGroup(depth - 1, n, body) == Fail;
    }
    assert SkipField(depth, 8 * n + 3, body) == Fail;
  }

  // ------------------------------------------------ the fields of an input

  /** The fields of an input up to its end, or up to where the parser halts. */
  function FieldsOf(subs: set<nat>, depth: nat, s: Bytes): seq<UnknownField>
    decreases |s|
  {
    if s == [] then []
    else match NextField(subs, depth, s)
      case Halt => []
      case Found(f, rest, _) => [f] + FieldsOf(subs, depth, rest)
  }

  /** An accepted parse is the fold of its fields: their order on the wire and
      nothing else decides the message. */
  lemma {:induction false} RunFolds<M>(step: (M, UnknownField) -> Option<M>, subs: set<nat>, depth: nat, m: M, s: Bytes)
    requires Run(step, subs, depth, m, s).Some?
    ensures Fold(step, m, FieldsOf(subs, depth, s)) == Run(step, subs, depth, m, s)
    decreases |s|
  {
    if s != [] {
      var Found(f, rest, _) := NextField(subs, depth, s);
      RunFolds(step, subs, depth, step(m, f).value, rest);
    }
  }

  // ---------------------------------------------------- writing then reading

  /** A field that `NextField` can return. */
  predicate Readable(subs: set<nat>, depth: nat, f: UnknownField)
  {
    if IsSubmessage(subs, f) then depth > 0 else Wire(depth, f)
  }

  /** A field whose length also fits the `int` sizes of the serializer. */
  predicate Writable(subs: set<nat>, depth: nat, f: UnknownField)
  {
    Readable(subs, depth, f) && (f.LengthDelimited? ==> |f.data| < TWO_31)
  }

  lemma NextFieldReadable(subs: set<nat>, depth: nat, s: Bytes)
    requires NextField(subs, depth, s).Found?
    ensures Readable(subs, depth, NextField(subs, depth, s).field)
  {
    var Got(tag, body) := ReadVarint32(s);
    if !(TagWireType(tag) == WIRETYPE_LENGTH_DELIMITED && TagNumber(tag) in subs) {
      SkipFieldWire(depth, tag, body);
      SkipFieldKind(depth, tag, body);
    }
  }

  lemma CutEncoded(d: Bytes, t: Bytes)
    requires |d| < TWO_31
    ensures CutSubmessage(EncodeVarint(|d|) + d + t) == Got((d, |d|), t)
  {
    var prefix, rest := EncodeVarint(|d|), d + t;
    Varint32RoundTrip(|d|, rest);
    assert prefix + d + t == prefix + rest;
    assert rest[..|d|] == d && rest[|d|..] == t;
  }

  lemma NextFieldEncoded(subs: set<nat>, depth: nat, f: UnknownField, t: Bytes)
    requires Writable(subs, depth, f)
    ensures NextField(subs, depth, EncodeField(f) + t) == Found(f, t, false)
  {
    FieldTagFacts(depth, f, t);
    if IsSubmessage(subs, f) {
      CutEncoded(f.data, t);
    } else {
      SkipEncodedField(depth, f, t);
    }
  }

  /** Parsing serialized fields gives the message each field in turn. */
  lemma {:induction false} RunEncoded<M>(step: (M, UnknownField) -> Option<M>, subs: set<nat>, depth: nat,
                                         m: M, fs: seq<UnknownField>)
    requires forall f | f in fs :: Writable(subs, depth, f)
    ensures Run(step, subs, depth, m, EncodeFields(fs)) == Fold(step, m, fs)
    decreases fs
  {
    if fs != [] {
      NextFieldEncoded(subs, depth, fs[0], EncodeFields(fs[1..]));
      match step(m, fs[0])
      case None =>
      case Some(m') => RunEncoded(step, subs, depth, m', fs[1..]);
    }
  }

  /** What every step keeps, every parse keeps. */
  lemma {:induction false} RunKeeps<M(!new)>(step: (M, UnknownField) -> Option<M>, inv: M -> bool,
                                             subs: set<nat>, depth: nat, m: M, s: Bytes)
    requires forall m, f | inv(m) && Readable(subs, depth, f) && step(m, f).Some? :: inv(step(m, f).value)
    requires inv(m) && Run(step, subs, depth, m, s).Some?
    ensures inv(Run(step, subs, depth, m, s).value)
    decreases |s|
  {
    if s != [] {
      NextFieldReadable(subs, depth, s);
      var Found(f, rest, _) := NextField(subs, depth, s);
      RunKeeps(step, inv, subs, depth, step(m, f).value, rest);
    }
  }

  // ------------------------------------------------ inputs that are cut short

  /** Every field of `s` can be read. */
  predicate Whole(subs: set<nat>, depth: nat, s: Bytes)
    decreases |s|
  {
    s == [] || (NextField(subs, depth, s).Found? && Whole(subs, depth, NextField(subs, depth, s).rest))
  }

  lemma {:induction false} RunIsWhole<M>(step: (M, UnknownField) -> Option<M>, subs: set<nat>, depth: nat, m: M, s: Bytes)
    requires Run(step, subs, depth, m, s).Some?
    ensures Whole(subs, depth, s)
    decreases |s|
  {
    if s != [] {
      var Found(f, rest, _) := NextField(subs, depth, s);
      RunIsWhole(step, subs, depth, step(m, f).value, rest);
    }
  }

  /** A serialized field that is cut short is unreadable, or a submessage that has
      lost the end of its data. */
  lemma CutField(subs: set<nat>, depth: nat, f: UnknownField, s: Bytes)
    requires Writable(subs, depth, f) && s != [] && s < EncodeField(f)
    requires NextField(subs, depth, s).Found?
    ensures var Found(g, rest, short) := NextField(subs, depth, s);
            short && rest == [] && IsSubmessage(subs, f) && IsSubmessage(subs, g) && g.number == f.number && g.data < f.data
  {
    var t := EncodeField(f)[|s|..];
    assert s + t == EncodeField(f) + [];
    NextFieldEncoded(subs, depth, f, []);
    if NextField(subs, depth, s).short {
      NextFieldAbsorb(subs, depth, s, t);
    } else {
      NextFieldExtend(subs, depth, s, t);
    }
  }

  /** Some of the fields of `fs` are lost where their encoding is cut short: they
      are fewer, or the last is a submessage that has lost the end of its data. */
  lemma {:induction false} CutFields(subs: set<nat>, depth: nat, fs: seq<UnknownField>, s: Bytes)
    requires forall f | f in fs :: Writable(subs, depth, f)
    requires s < EncodeFields(fs) && Whole(subs, depth, s)
    ensures var gs := FieldsOf(subs, depth, s);
      || |gs| < |fs|
      || (&& |gs| == |fs| > 0 && Overruns(subs, depth, s)
          && var f, g := fs[|fs| - 1], gs[|gs| - 1];
             IsSubmessage(subs, f) && IsSubmessage(subs, g) && g.number == f.number && g.data < f.data)
    decreases fs
  {
    if s != [] {
      var e, after := EncodeField(fs[0]), EncodeFields(fs[1..]);
      assert EncodeFields(fs) == e + after;
      if |s| < |e| {
        assert s == (e + after)[..|s|] == e[..|s|];
        CutField(subs, depth, fs[0], s);
        assert FieldsOf(subs, depth, s) == [NextField(subs, depth, s).field];
      } else {
        var rest := s[|e|..];
        assert s == e + rest && rest < after;
        NextFieldEncoded(subs, depth, fs[0], rest);
        CutFields(subs, depth, fs[1..], rest);
      }
    }
  }

  /** If every field adds at most one to `count`, all together add no more than
      they are. */
  lemma {:induction false} FoldCounts<M(!new)>(step: (M, UnknownField) -> Option<M>, count: M -> nat, m: M,
                                               fs: seq<UnknownField>)
    requires forall m, f {:trigger step(m, f)} | step(m, f).Some? :: count(step(m, f).value) <= count(m) + 1
    requires Fold(step, m, fs).Some?
    ensures count(Fold(step, m, fs).value) <= count(m) + |fs|
    decreases fs
  {
    if fs != [] {
      FoldCounts(step, count, step(m, fs[0]).value, fs[1..]);
    }
  }

  // ------------------------------------------------- fields written as read

  lemma CutLength(s: Bytes)
    requires CutSubmessage(s).Got?
    ensures var ((data, _), rest) := (CutSubmessage(s).value, CutSubmessage(s).rest);
            |EncodeVarint(|data|)| + |data| + |rest| <= |s|
  {
    VarintLength(s);
    var Got(len, body) := ReadVarint32(s);
    VarintMonotone(Min(len, |body|), len);
  }

  /** A field, cut short or not, is never read from fewer bytes than writing it
      takes. */
  lemma NextFieldLength(subs: set<nat>, depth: nat, s: Bytes)
    requires NextField(subs, depth, s).Found?
    ensures |EncodeField(NextField(subs, depth, s).field)| + |NextField(subs, depth, s).rest| <= |s|
  {
    VarintLength(s);
    var Got(tag, body) := ReadVarint32(s);
    if TagWireType(tag) == WIRETYPE_LENGTH_DELIMITED && TagNumber(tag) in subs {
      CutLength(body);
    } else {
      SkipFieldLength(depth, tag, body);
      SkipFieldKind(depth, tag, body);
    }
  }

  /** Writing the fields of an input never takes more bytes than they had there. */
  lemma {:induction false} FieldsLength(subs: set<nat>, depth: nat, s: Bytes)
    ensures |EncodeFields(FieldsOf(subs, depth, s))| <= |s|
    decreases |s|
  {
    if s != [] && NextField(subs, depth, s).Found? {
      var Found(f, rest, _) := NextField(subs, depth, s);
      NextFieldLength(subs, depth, s);
      FieldsLength(subs, depth, rest);
      assert ([f] + FieldsOf(subs, depth, rest))[1..] == FieldsOf(subs, depth, rest);
    }
  }
}
