/** What a parser makes of an input when its stream stops at the total bytes limit.
    `MessageEngine.Run` is the plain loop on the bytes that can be read, whose end
    it takes for the end of the message. Here the end can also be the limit. */
module TotalLimit {
  import opened Prelude
  import opened Varint
  import opened WireFormat
  import opened MessageEngine

  /** `kDefaultTotalBytesLimit`. */
  const TOTAL_BYTES_LIMIT: nat := 0x400_0000

  type LongSize = n: nat | n > TOTAL_BYTES_LIMIT witness TOTAL_BYTES_LIMIT + 1

  /** What the end of the readable bytes is: the end of the message; the total
      limit, before the end of the message; or the end of an array of `size` bytes,
      more than the total limit, which nothing has cut yet. */
  datatype End = Legit | Cut | Open(size: LongSize)

  datatype Outcome<+M> = Accepted(message: M) | Rejected | Undefined

  function ToOutcome<M>(r: Option<M>): Outcome<M>
  {
    if r.Some? then Accepted(r.value) else Rejected
  }

  /** How a parse ends that has reached `m`: accepted or not, or not defined. */
  function Ended<M>(accepted: bool, broken: bool, m: M): Outcome<M>
  {
    if accepted then Accepted(m) else if broken then Undefined else Rejected
  }

  /** The last field of `s` closes the message: its case ends in `ExpectAtEnd`,
      which takes the total limit for the end. For a submessage that the limit cuts
      short, `closes` also tells that it has been closed itself. */
  predicate LastCloses(closes: (UnknownField, bool) -> bool, subs: set<nat>, depth: nat, s: Bytes)
    decreases |s|
  {
    s != [] &&
    match NextField(subs, depth, s)
    case Halt => false
    case Found(f, rest, short) => if rest == [] then closes(f, short) else LastCloses(closes, subs, depth, rest)
  }

  /** The bytes of `s`, the end of an array of `size` bytes, that lie below the
      total limit. */
  function BelowLimit(s: Bytes, size: LongSize): Bytes
  {
    var beyond := size - TOTAL_BYTES_LIMIT;
    if |s| >= beyond then s[..|s| - beyond] else []
  }

  /** Limits cut the stream only once a submessage is entered. If its first byte
      lies beyond the total limit, the buffer ends before it begins. */
  predicate Breaks(depth: nat, body: Bytes, end: End)
  {
    && end.Open? && depth > 0
    && ReadVarint32(body).Got? && |ReadVarint32(body).rest| < end.size - TOTAL_BYTES_LIMIT
  }

  /** The parse of what is left of the input, given what its end is. */
  function RunTo<M>(step: (M, UnknownField) -> Option<M>, closes: (UnknownField, bool) -> bool, subs: set<nat>,
                    depth: nat, m: M, s: Bytes, end: End): Outcome<M>
    decreases |s|
  {
    match end
    case Legit => ToOutcome(Run(step, subs, depth, m, s))
    case Cut => RunCut(step, closes, subs, depth, m, s)
    case Open(size) =>
      if s == [] then Rejected
      else if StartsSubmessage(subs, s) then
        if Breaks(depth, ReadVarint32(s).rest, end) then Undefined
        else RunCut(step, closes, subs, depth, m, BelowLimit(s, size))
      else match NextField(subs, depth, s)
        case Halt => Rejected
        case Found(f, rest, _) =>
          match step(m, f)
          case None => Rejected
          case Some(m') => RunTo(step, closes, subs, depth, m', rest, end)
  }

  function RunCut<M>(step: (M, UnknownField) -> Option<M>, closes: (UnknownField, bool) -> bool, subs: set<nat>,
                     depth: nat, m: M, s: Bytes): Outcome<M>
  {
    if LastCloses(closes, subs, depth, s) then ToOutcome(Run(step, subs, depth, m, s)) else Rejected
  }

  /** The parse after a field that leaves `rest`; `closed` tells that the field
      closes the message if nothing is left. */
  function Onward<M>(step: (M, UnknownField) -> Option<M>, closes: (UnknownField, bool) -> bool, subs: set<nat>,
                     depth: nat, m: M, rest: Bytes, end: End, closed: bool): Outcome<M>
  {
    if closed && rest == [] && end.Cut? then Accepted(m) else RunTo(step, closes, subs, depth, m, rest, end)
  }

  /** A turn of the loop over a field that is not a submessage. */
  lemma FieldTurn<M>(step: (M, UnknownField) -> Option<M>, closes: (UnknownField, bool) -> bool, subs: set<nat>,
                     depth: nat, m: M, s: Bytes, end: End, m': M)
    requires s != [] && !StartsSubmessage(subs, s)
    ensures match NextField(subs, depth, s)
            case Halt => RunTo(step, closes, subs, depth, m, s, end) == Rejected
            case Found(f, rest, _) =>
              && (step(m, f).None? ==> RunTo(step, closes, subs, depth, m, s, end) == Rejected)
              && (step(m, f) == Some(m') ==>
                    RunTo(step, closes, subs, depth, m, s, end)
                    == Onward(step, closes, subs, depth, m', rest, end, closes(f, false)))
  {
    if NextField(subs, depth, s).Found? {
      var Found(f, rest, short) := NextField(subs, depth, s);
      assert !short;
      assert Run(step, subs, depth, m, s)
          == match step(m, f) case None => None case Some(m') => Run(step, subs, depth, m', rest);
      if rest == [] {
        assert Run(step, subs, depth, m', rest) == Some(m');
      }
    }
  }

  /** The readable bytes once a limit has been pushed, and what their end is then. */
  function Settled(s: Bytes, end: End): Bytes
  {
    if end.Open? then BelowLimit(s, end.size) else s
  }

  function SettledEnd(end: End): End
  {
    if end.Open? then Cut else end
  }

  /** Dropping the bytes beyond the limit before or after a tag is the same, unless
      the limit lies before or inside the tag. */
  lemma SettledAfterTag(s: Bytes, end: End)
    requires ReadVarint32(s).Got?
    ensures var Got(tag, body) := ReadVarint32(s);
      || ReadVarint32(Settled(s, end)) == Got(tag, Settled(body, end))
      || (end.Open? && ReadVarint32(Settled(s, end)).Fail? && Settled(body, end) == [])
  {
    if end.Open? {
      var below := BelowLimit(s, end.size);
      var Got(tag, body) := ReadVarint32(s);
      var beyond := s[|below|..];
      assert below + beyond == s;
      if ReadVarint32(below).Got? {
        VarintExtend(below, beyond);
        assert body == ReadVarint32(below).rest + beyond;
      } else if |body| >= |beyond| {
        VarintPrefix(below, beyond);
      }
    }
  }

  /** Where a submessage is cut once its limit has been pushed. */
  lemma SettledCut(s: Bytes, end: End)
    ensures match ReadVarint32(s)
            case Fail => CutSubmessage(Settled(s, end)).Fail?
            case Got(len, body) =>
              (end.Open? ==> |body| >= end.size - TOTAL_BYTES_LIMIT) ==>
                var b := Settled(body, end);
                CutSubmessage(Settled(s, end)) == Got((b[..Min(len, |b|)], len), b[Min(len, |b|)..])
  {
    if ReadVarint32(s).Got? {
      SettledAfterTag(s, end);
      if end.Open? && |ReadVarint32(s).rest| >= end.size - TOTAL_BYTES_LIMIT {
        var below := BelowLimit(s, end.size);
        var beyond := s[|below|..];
        assert below + beyond == s;
        if ReadVarint32(below).Fail? {
          VarintPrefix(below, beyond);
        }
      }
    } else if end.Open? {
      var below := BelowLimit(s, end.size);
      if ReadVarint32(below).Got? {
        var beyond := s[|below|..];
        assert below + beyond == s;
        VarintExtend(below, beyond);
        assert false;
      }
    }
  }

  /** A turn over a submessage: what `ReadSubmessage` makes of the bytes that can
      be read once its limit is pushed decides. */
  lemma SubmessageTurn<M>(step: (M, UnknownField) -> Option<M>, closes: (UnknownField, bool) -> bool, subs: set<nat>,
                          depth: nat, m: M, s: Bytes, end: End, number: FieldNumber, body: Bytes, m': M)
    requires ReadVarint32(s) == Got(MakeTag(number, WIRETYPE_LENGTH_DELIMITED), body) && number in subs
    requires !Breaks(depth, body, end)
    ensures match ReadSubmessage(depth, number, Settled(body, end))
            case Halt => RunTo(step, closes, subs, depth, m, s, end) == Rejected
            case Found(f, rest, short) =>
              && (step(m, f).None? ==> RunTo(step, closes, subs, depth, m, s, end) == Rejected)
              && (SettledEnd(end).Cut? && rest == [] && !closes(f, short) ==>
                    RunTo(step, closes, subs, depth, m, s, end) == Rejected)
              && (step(m, f) == Some(m') ==>
                    RunTo(step, closes, subs, depth, m, s, end)
                    == Onward(step, closes, subs, depth, m', rest, SettledEnd(end), closes(f, short)))
  {
    var tag := MakeTag(number, WIRETYPE_LENGTH_DELIMITED);
    TagParts(number, WIRETYPE_LENGTH_DELIMITED);
    SettledAfterTag(s, end);
    var t, e := Settled(s, end), SettledEnd(end);
    assert RunTo(step, closes, subs, depth, m, s, end) == RunTo(step, closes, subs, depth, m, t, e);
    if ReadVarint32(t).Fail? {
      assert !LastCloses(closes, subs, depth, t);
    } else {
      SettledTurn(step, closes, subs, depth, m, t, e, m');
      assert NextField(subs, depth, t) == ReadSubmessage(depth, number, Settled(body, end));
    }
  }

  /** A turn over any field, once limits cut the stream. */
  lemma SettledTurn<M>(step: (M, UnknownField) -> Option<M>, closes: (UnknownField, bool) -> bool, subs: set<nat>,
                       depth: nat, m: M, s: Bytes, end: End, m': M)
    requires s != [] && !end.Open?
    ensures match NextField(subs, depth, s)
            case Halt => RunTo(step, closes, subs, depth, m, s, end) == Rejected
            case Found(f, rest, short) =>
              && (step(m, f).None? ==> RunTo(step, closes, subs, depth, m, s, end) == Rejected)
              && (end.Cut? && rest == [] && !closes(f, short) ==> RunTo(step, closes, subs, depth, m, s, end) == Rejected)
              && (step(m, f) == Some(m') ==>
                    RunTo(step, closes, subs, depth, m, s, end)
                    == Onward(step, closes, subs, depth, m', rest, end, closes(f, short)))
  {
    if NextField(subs, depth, s).Found? {
      var Found(f, rest, short) := NextField(subs, depth, s);
      assert Run(step, subs, depth, m, s)
          == match step(m, f) case None => None case Some(m') => Run(step, subs, depth, m', rest);
      if rest == [] {
        assert Run(step, subs, depth, m', rest) == Some(m');
      }
    }
  }

  /** A zero tag, an unreadable one or a stray END_GROUP stops the parser short. */
  lemma HaltTurn<M>(step: (M, UnknownField) -> Option<M>, closes: (UnknownField, bool) -> bool, subs: set<nat>,
                    depth: nat, m: M, s: Bytes, end: End)
    requires s != []
    requires ReadVarint32(s).Fail? || ReadVarint32(s).value == 0
             || TagWireType(ReadVarint32(s).value) == WIRETYPE_END_GROUP
    ensures RunTo(step, closes, subs, depth, m, s, end) == Rejected
  {
    FieldTurn(step, closes, subs, depth, m, s, end, m);
  }

  /** Where the loop stops: at the end, or at a tag that ends it. */
  lemma StopTurn<M>(step: (M, UnknownField) -> Option<M>, closes: (UnknownField, bool) -> bool, subs: set<nat>,
                    depth: nat, m: M, s: Bytes, end: End)
    requires s == [] || ReadVarint32(s).Fail? || ReadVarint32(s).value == 0
             || TagWireType(ReadVarint32(s).value) == WIRETYPE_END_GROUP
    ensures RunTo(step, closes, subs, depth, m, s, end) == Ended(s == [] && end.Legit?, false, m)
  {
    if s != [] {
      HaltTurn(step, closes, subs, depth, m, s, end);
    }
  }

  /** Once limits cut the stream, no parse breaks it. */
  lemma SettledRuns<M>(step: (M, UnknownField) -> Option<M>, closes: (UnknownField, bool) -> bool, subs: set<nat>,
                       depth: nat, m: M, s: Bytes, end: End)
    requires !end.Open?
    ensures !RunTo(step, closes, subs, depth, m, s, end).Undefined?
  {
  }

  // ------------------------------------------------------------- submessages

  /** What the end of a submessage is: the total limit only if that cuts it short. */
  function NestedEnd(end: End, short: bool): End
  {
    if short && end.Cut? then Cut else Legit
  }

  /** A submessage's bytes, what their end is, and what follows. */
  datatype Submessage = Submessage(data: Bytes, end: End, rest: Bytes)

  /** The submessage whose length starts `s`; `None` if the length or the recursion
      limit stops the parser. */
  function Enter(depth: nat, s: Bytes, end: End): (sub: Option<Submessage>)
    ensures sub.Some? ==> depth > 0 && |sub.value.rest| < |s|
  {
    var cut := CutSubmessage(Settled(s, end));
    if cut.Fail? || depth == 0 then None
    else Some(Submessage(cut.value.0, NestedEnd(SettledEnd(end), cut.value.1 > |cut.value.0|), cut.rest))
  }

  /** `ReadMessageNoVirtual`: the submessage after its parse, and what follows it.
      `step` and `closes` are those one level down. */
  function ReadTo<M>(step: (M, UnknownField) -> Option<M>, closes: (UnknownField, bool) -> bool, subs: set<nat>,
                     depth: nat, m: M, sub: Option<Submessage>): Outcome<(M, Bytes)>
  {
    if sub.None? || depth == 0 then Rejected
    else Followed(RunTo(step, closes, subs, depth - 1, m, sub.value.data, sub.value.end), sub.value.rest)
  }

  function Followed<M>(r: Outcome<M>, rest: Bytes): Outcome<(M, Bytes)>
  {
    if r.Accepted? then Accepted((r.message, rest)) else Rejected
  }

  /** The step puts the parse of the submessage's bytes back with `put`. */
  ghost predicate StepNests<M, N>(step: (M, UnknownField) -> Option<M>, inner: (N, UnknownField) -> Option<N>,
                                  innerSubs: set<nat>, put: N -> M, depth: nat, m: M, n: N, number: FieldNumber, data: Bytes)
  {
    step(m, LengthDelimited(number, data))
    == if depth == 0 then None
       else match Run(inner, innerSubs, depth - 1, n, data) case None => None case Some(n') => Some(put(n'))
  }

  ghost predicate ClosesNests(closes: (UnknownField, bool) -> bool, innerCloses: (UnknownField, bool) -> bool,
                              innerSubs: set<nat>, closing: bool, depth: nat, number: FieldNumber, data: Bytes, short: bool)
  {
    closes(LengthDelimited(number, data), short)
    == (closing && (short && depth > 0 ==> LastCloses(innerCloses, innerSubs, depth - 1, data)))
  }

  /** A turn over a submessage that is parsed by a loop of its own, from `n`, and
      put back with `put`. `closing`: the case of its tag ends in `ExpectAtEnd`. */
  lemma NestedTurn<M, N>(step: (M, UnknownField) -> Option<M>, closes: (UnknownField, bool) -> bool, subs: set<nat>,
                         inner: (N, UnknownField) -> Option<N>, innerCloses: (UnknownField, bool) -> bool,
                         innerSubs: set<nat>, put: N -> M, closing: bool,
                         depth: nat, m: M, n: N, s: Bytes, end: End, number: FieldNumber, body: Bytes)
    requires ReadVarint32(s) == Got(MakeTag(number, WIRETYPE_LENGTH_DELIMITED), body) && number in subs
    requires forall data :: StepNests(step, inner, innerSubs, put, depth, m, n, number, data)
    requires forall data, short :: ClosesNests(closes, innerCloses, innerSubs, closing, depth, number, data, short)
    ensures var read := ReadTo(inner, innerCloses, innerSubs, depth, n, Enter(depth, body, end));
      RunTo(step, closes, subs, depth, m, s, end)
      == if Breaks(depth, body, end) then Undefined
         else if read.Accepted?
         then Onward(step, closes, subs, depth, put(read.message.0), read.message.1, SettledEnd(end), closing)
         else Rejected
  {
    if Breaks(depth, body, end) {
      TagParts(number, WIRETYPE_LENGTH_DELIMITED);
      return;
    }
    var read := ReadTo(inner, innerCloses, innerSubs, depth, n, Enter(depth, body, end));
    SubmessageTurn(step, closes, subs, depth, m, s, end, number, body, if read.Accepted? then put(read.message.0) else m);
    var cut := CutSubmessage(Settled(body, end));
    if depth > 0 && cut.Got? {
      var data, len := cut.value.0, cut.value.1;
      assert StepNests(step, inner, innerSubs, put, depth, m, n, number, data);
      assert ClosesNests(closes, innerCloses, innerSubs, closing, depth, number, data, len > |data|);
      assert ReadSubmessage(depth, number, Settled(body, end)) == Found(LengthDelimited(number, data), cut.rest, len > |data|);
      assert len > |data| ==> cut.rest == [];
    }
  }

  // -------------------------------------------- what an array can be parsed as

  function EndOf(s: Bytes): End
  {
    if |s| > TOTAL_BYTES_LIMIT then Open(|s|) else Legit
  }

  /** `ParseFromArray` but for the required fields: the parse of a whole array. */
  function FromArray<M>(step: (M, UnknownField) -> Option<M>, closes: (UnknownField, bool) -> bool, subs: set<nat>,
                        depth: nat, m: M, s: Bytes): Outcome<M>
  {
    RunTo(step, closes, subs, depth, m, s, EndOf(s))
  }
}
