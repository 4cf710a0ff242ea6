/** What `ParseFromArray` accepts with the limits its stream starts with: 64 levels of
    nesting and 64 MiB. */
module DefaultLimits {
  import opened Prelude
  import opened Varint
  import opened WireFormat
  import opened MessageEngine
  import opened TotalLimit
  import opened PointCodec
  import opened OperationDataCodec
  import opened OperationCodec
  import opened OperationsCodec
  import opened ArrayParsing
  import opened CodecTheorems
  import opened WireMeaning

  // --------------------------------------------------------- what is accepted

  /** Within 64 MiB an array is accepted exactly if every field of the whole tree,
      up to 64 levels deep, can be read; it then holds what its fields mean, and is
      initialized exactly if every required number is among them. */
  lemma AcceptsWithin(s: Bytes)
    requires |s| <= 0x400_0000
    ensures var fs := FieldsOf({2}, 64, s);
      && OperationsFromArray(DEFAULT_RECURSION_LIMIT, s)
         == (if OperationsWhole(64, s) then Accepted(OperationsOf(64, fs)) else Rejected)
      && (OperationsInitialized(OperationsOf(64, fs)) <==> OperationsComplete(64, fs))
  {
    OperationsMeans(64, s);
    OperationsInitializedIff(64, FieldsOf(OPERATIONS_SUBS, 64, s));
  }

  /** A serialized message of less than 2^31 bytes is read back exactly if it takes no
      more than 64 MiB and its unknown fields are ones the parser leaves unknown and
      that nest no deeper than 64 levels, those of the messages included. */
  lemma RoundTripWithin(m: OperationsMsg)
    requires |SerializeOperations(m)| < 0x8000_0000
    ensures OperationsFromArray(DEFAULT_RECURSION_LIMIT, SerializeOperations(m)) == Accepted(m)
       <==> OperationsCanonical(64, m) && |SerializeOperations(m)| <= 0x400_0000
  {
    OperationsRoundTripIff(64, m);
  }

  // ----------------------------------------------------- arrays over the limit

  /** All of the data can be read, and `is_start` comes last. */
  predicate EndsInFlag(depth: nat, s: Bytes)
  {
    var fs := FieldsOf(DATA_SUBS, depth, s);
    Whole(DATA_SUBS, depth, s) && fs != [] && fs[|fs| - 1].VarintField? && fs[|fs| - 1].number == 15
  }

  /** All of the operation can be read, and its data come last: complete, or cut
      short where they end in their flag. */
  predicate EndsInData(depth: nat, s: Bytes)
  {
    var fs := FieldsOf({2}, depth, s);
    && Whole({2}, depth, s) && fs != [] && fs[|fs| - 1].LengthDelimited? && fs[|fs| - 1].number == 2
    && (Overruns({2}, depth, s) && depth > 0 ==> EndsInFlag(depth - 1, fs[|fs| - 1].data))
  }

  /** All of the list can be read, and an element comes last: complete, or cut short
      where it ends in its data. */
  predicate EndsInElement(depth: nat, s: Bytes)
  {
    var fs := FieldsOf({2}, depth, s);
    && Whole({2}, depth, s) && fs != [] && fs[|fs| - 1].LengthDelimited? && fs[|fs| - 1].number == 2
    && (Overruns({2}, depth, s) && depth > 0 ==> EndsInData(depth - 1, fs[|fs| - 1].data))
  }

  lemma FlagCloses(depth: nat, s: Bytes)
    ensures LastCloses(DataCloses, DATA_SUBS, depth, s) <==> EndsInFlag(depth, s)
  {
    LastClosesIff(DataCloses, DATA_SUBS, depth, s);
  }

  lemma DataCloseAt(depth: nat, f: UnknownField, short: bool)
    ensures OperationClosesAt(depth, f, short)
       <==> f.LengthDelimited? && f.number == 2 && (short && depth > 0 ==> EndsInFlag(depth - 1, f.data))
  {
    if f.LengthDelimited? && depth > 0 {
      FlagCloses(depth - 1, f.data);
    }
  }

  lemma DataCloseIff(depth: nat, s: Bytes)
    ensures LastCloses(OperationCloses(depth), OPERATION_SUBS, depth, s) <==> EndsInData(depth, s)
  {
    LastClosesIff(OperationCloses(depth), OPERATION_SUBS, depth, s);
    var fs := FieldsOf(OPERATION_SUBS, depth, s);
    if fs != [] {
      DataCloseAt(depth, fs[|fs| - 1], Overruns(OPERATION_SUBS, depth, s));
    }
  }

  lemma ElementCloseAt(depth: nat, f: UnknownField, short: bool)
    ensures OperationsClosesAt(depth, f, short)
       <==> f.LengthDelimited? && f.number == 2 && (short && depth > 0 ==> EndsInData(depth - 1, f.data))
  {
    if f.LengthDelimited? && depth > 0 {
      DataCloseIff(depth - 1, f.data);
    }
  }

  lemma ElementCloseIff(depth: nat, s: Bytes)
    ensures LastCloses(OperationsCloses(depth), OPERATIONS_SUBS, depth, s) <==> EndsInElement(depth, s)
  {
    LastClosesIff(OperationsCloses(depth), OPERATIONS_SUBS, depth, s);
    var fs := FieldsOf(OPERATIONS_SUBS, depth, s);
    if fs != [] {
      ElementCloseAt(depth, fs[|fs| - 1], Overruns(OPERATIONS_SUBS, depth, s));
    }
  }

  /** Beyond 64 MiB an array is accepted exactly if its first 64 MiB could be read and
      end in an element; it then holds what these mean. */
  lemma AcceptsBeyond(s: Bytes)
    requires |s| > 0x400_0000
    ensures var below, r := s[..0x400_0000], OperationsFromArray(DEFAULT_RECURSION_LIMIT, s);
      && (r.Accepted? <==> EndsInElement(64, below) && OperationsWhole(64, below))
      && (r.Accepted? ==> r.message == OperationsOf(64, FieldsOf({2}, 64, below)))
  {
    var below := s[..0x400_0000];
    OperationsOverLimit(64, s);
    ElementCloseIff(64, below);
    OperationsMeans(64, below);
  }

  /** The first submessage of an array over the limit: fields before it that hold
      none, and an element. */
  function FirstElement(fs: seq<UnknownField>, data: Bytes, t: Bytes): Bytes
  {
    EncodeFields(fs) + (EncodeField(LengthDelimited(2, data)) + t)
  }

  lemma {:induction false} FlatFields(m: OperationsMsg, fs: seq<UnknownField>, t: Bytes, size: LongSize)
    returns (m': OperationsMsg)
    requires forall f | f in fs :: Writable(OPERATIONS_SUBS, 64, f) && !IsSubmessage(OPERATIONS_SUBS, f)
    ensures ParseOperationsTo(64, m, EncodeFields(fs) + t, Open(size)) == ParseOperationsTo(64, m', t, Open(size))
    decreases fs
  {
    m' := m;
    if fs == [] {
      assert EncodeFields(fs) + t == t;
    } else {
      var f, rest := fs[0], EncodeFields(fs[1..]) + t;
      assert EncodeFields(fs) == EncodeField(f) + EncodeFields(fs[1..]);
      JoinInAnyOrder(EncodeField(f), EncodeFields(fs[1..]), t);
      NextFieldEncoded(OPERATIONS_SUBS, 64, f, rest);
      FieldTagFacts(64, f, rest);
      m' := OperationsStepAt(64, m, f).value;
      m' := FlatFields(m', fs[1..], t, size);
    }
  }

  lemma ElementStarts(data: Bytes, t: Bytes) returns (body: Bytes)
    requires |data| < TWO_31
    ensures ReadVarint32(EncodeField(LengthDelimited(2, data)) + t) == Got(18, body)
    ensures ReadVarint32(body) == Got(|data|, data + t)
    ensures |EncodeField(LengthDelimited(2, data))| == 1 + |EncodeVarint(|data|)| + |data|
  {
    var length := EncodeVarint(|data|);
    body := length + (data + t);
    FieldBytes(LengthDelimited(2, data));
    assert EncodeVarint(18) == [18];
    JoinInAnyOrder(length, data, t);
    JoinInAnyOrder(EncodeVarint(18), length + data, t);
    Varint32RoundTrip(18, body);
    Varint32RoundTrip(|data|, data + t);
  }

  lemma ElementTurn(m: OperationsMsg, s: Bytes, body: Bytes, size: LongSize)
    requires ReadVarint32(s) == Got(18, body) && ReadVarint32(body).Got?
    ensures ParseOperationsTo(64, m, s, Open(size)) == Undefined
       <==> |ReadVarint32(body).rest| < size - 0x400_0000
  {
    assert StartsSubmessage(OPERATIONS_SUBS, s);
  }

  /** What follows the first submessage of an array over the limit is defined exactly
      if that submessage, after its tag and its length, begins within 64 MiB. */
  lemma UndefinedIff(fs: seq<UnknownField>, data: Bytes, t: Bytes)
    requires forall f | f in fs :: Writable(OPERATIONS_SUBS, 64, f) && !IsSubmessage(OPERATIONS_SUBS, f)
    requires |data| < TWO_31 && |FirstElement(fs, data, t)| > 0x400_0000
    ensures OperationsFromArray(DEFAULT_RECURSION_LIMIT, FirstElement(fs, data, t)) == Undefined
       <==> |EncodeFields(fs)| + 1 + |EncodeVarint(|data|)| > 0x400_0000
  {
    var s, element := FirstElement(fs, data, t), EncodeField(LengthDelimited(2, data)) + t;
    var m := FlatFields(EMPTY_OPERATIONS, fs, element, |s|);
    var body := ElementStarts(data, t);
    ElementTurn(m, element, body, |s|);
  }

  // ------------------------------------------------- messages without groups

  predicate NoGroups(fs: seq<UnknownField>)
  {
    forall f | f in fs :: !f.GroupField?
  }

  predicate DataWithoutGroups(m: OperationDataMsg)
  {
    NoGroups(m.unknown) && forall n | n in DATA_SUBS && DataPoint(m, n).Some? :: NoGroups(DataPoint(m, n).value.unknown)
  }

  predicate OperationWithoutGroups(m: OperationMsg)
  {
    NoGroups(m.unknown) && (m.data.Some? ==> DataWithoutGroups(m.data.value))
  }

  predicate WithoutGroups(m: OperationsMsg)
  {
    NoGroups(m.unknown) && forall op | op in m.operations :: OperationWithoutGroups(op)
  }

  lemma DataCanonicalAt(depth: nat, deep: nat, m: OperationDataMsg)
    requires DataCanonical(depth, m) && DataWithoutGroups(m) && deep > 0
    ensures DataCanonical(deep, m)
  {
    forall n | n in DATA_SUBS
      ensures DataPointCanonical(deep, DataPoint(m, n))
    {
      assert DataPointCanonical(depth, DataPoint(m, n));
    }
  }

  lemma OperationCanonicalAt(depth: nat, deep: nat, m: OperationMsg)
    requires OperationCanonical(depth, m) && OperationWithoutGroups(m) && deep > 1
    ensures OperationCanonical(deep, m)
  {
    if m.data.Some? {
      DataCanonicalAt(depth - 1, deep - 1, m.data.value);
    }
  }

  /** Without groups a message that is canonical at any depth is canonical at 64. */
  lemma CanonicalWithoutGroups(depth: nat, m: OperationsMsg)
    requires OperationsCanonical(depth, m) && WithoutGroups(m)
    ensures OperationsCanonical(64, m)
  {
    forall op | op in m.operations
      ensures OperationCanonical(63, op)
    {
      OperationCanonicalAt(depth - 1, 63, op);
    }
  }

  // ------------------------------------------------------------ nested groups

  /** `n` START_GROUP tags of field 3. */
  function Opening(n: nat): Bytes
  {
    seq(n, i => 0x1B)
  }

  /** `n` END_GROUP tags of field 3. */
  function Closing(n: nat): Bytes
  {
    seq(n, i => 0x1C)
  }

  /** `n` groups, each inside the one before. */
  function Groups(n: nat): seq<UnknownField>
  {
    if n == 0 then [] else [GroupField(3, Groups(n - 1))]
  }

  lemma OpensNext(n: nat, t: Bytes)
    requires n > 0
    ensures Opening(n) + t == [0x1B] + (Opening(n - 1) + t)
    ensures ReadVarint32(Opening(n) + t) == Got(0x1B, Opening(n - 1) + t)
  {
    assert EncodeVarint(0x1B) == [0x1B];
    assert Opening(n) + t == [0x1B] + (Opening(n - 1) + t);
    Varint32RoundTrip(0x1B, Opening(n - 1) + t);
  }

  lemma {:induction false} TooDeep(depth: nat, n: nat, t: Bytes)
    requires n >= depth
    ensures SkipField(depth, 0x1B, Opening(n) + t) == Fail
    decreases depth
  {
    if depth > 0 {
      OpensNext(n, t);
      TooDeep(depth - 1, n - 1, t);
    }
  }

  /** Groups nested 65 deep are rejected, whatever is in them and follows. */
  lemma SixtyFiveGroups(t: Bytes)
    ensures OperationsFromArray(DEFAULT_RECURSION_LIMIT, Opening(65) + t) == Rejected
  {
    var s := Opening(65) + t;
    OpensNext(65, t);
    TooDeep(64, 64, t);
    assert NextField(OPERATIONS_SUBS, 64, s) == Halt;
  }

  lemma OneGroupBytes(g: seq<UnknownField>)
    ensures EncodeFields([GroupField(3, g)]) == [0x1B] + (EncodeFields(g) + [0x1C])
  {
    var f := GroupField(3, g);
    FieldBytes(f);
    assert EncodeVarint(27) == [0x1B] && EncodeVarint(28) == [0x1C];
    assert EncodeFields([f]) == EncodeField(f) + EncodeFields([]);
  }

  lemma OpenedAndClosed(n: nat)
    requires n > 0
    ensures [0x1B] + (Opening(n - 1) + Closing(n - 1) + [0x1C]) == Opening(n) + Closing(n)
  {
    assert Opening(n) == [0x1B] + Opening(n - 1) && Closing(n) == Closing(n - 1) + [0x1C];
  }

  lemma {:induction false} GroupsBytes(n: nat)
    ensures EncodeFields(Groups(n)) == Opening(n) + Closing(n)
  {
    if n > 0 {
      GroupsBytes(n - 1);
      OneGroupBytes(Groups(n - 1));
      OpenedAndClosed(n);
    }
  }

  lemma {:induction false} GroupsAreWire(depth: nat, n: nat)
    requires n <= depth
    ensures forall f | f in Groups(n) :: Wire(depth, f)
    decreases n
  {
    if n > 0 {
      GroupsAreWire(depth - 1, n - 1);
    }
  }

  /** Nested no deeper than 64 they are accepted, and kept. */
  lemma SixtyFourGroups(n: nat)
    requires n <= 64
    ensures OperationsFromArray(DEFAULT_RECURSION_LIMIT, Opening(n) + Closing(n))
         == Accepted(OperationsMsg(None, [], Groups(n)))
  {
    var m := OperationsMsg(None, [], Groups(n));
    GroupsBytes(n);
    GroupsAreWire(64, n);
    assert Int32Field(1, m.avaliable) + OperationFields(m.operations) + m.unknown == Groups(n);
    assert OperationsCanonical(64, m);
    RoundTripWithin(m);
  }
}
