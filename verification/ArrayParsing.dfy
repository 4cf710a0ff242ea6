/** What arrays can be parsed as, for every message: below the total bytes limit,
    beyond it, cut short and put together. */
module ArrayParsing {
  import opened Prelude
  import opened Varint
  import opened WireFormat
  import opened MessageEngine
  import opened TotalLimit

  /** Some field of `s` is a submessage. */
  predicate HasSubmessage(subs: set<nat>, depth: nat, s: Bytes)
    decreases |s|
  {
    s != [] &&
    match NextField(subs, depth, s)
    case Halt => false
    case Found(f, rest, _) => IsSubmessage(subs, f) || HasSubmessage(subs, depth, rest)
  }

  /** An array over the limit is accepted exactly if its first 64 MiB are an
      accepted input that has a submessage and whose last field closes the message;
      it is then parsed as these. */
  lemma {:induction false} OpenAccepts<M>(step: (M, UnknownField) -> Option<M>, closes: (UnknownField, bool) -> bool,
                                          subs: set<nat>, depth: nat, m: M, s: Bytes, size: LongSize)
    ensures var below := BelowLimit(s, size);
            var r := RunTo(step, closes, subs, depth, m, s, Open(size));
      && (r.Accepted? <==> LastCloses(closes, subs, depth, below) && HasSubmessage(subs, depth, below)
                           && Run(step, subs, depth, m, below).Some?)
      && (r.Accepted? ==> Run(step, subs, depth, m, below) == Some(r.message))
    decreases |s|
  {
    var below := BelowLimit(s, size);
    if s == [] {
    } else if StartsSubmessage(subs, s) {
      OpenSubmessage(subs, depth, s, size);
    } else {
      OpenField(subs, depth, s, size);
      match NextField(subs, depth, s)
      case Halt =>
      case Found(f, rest, _) =>
        match step(m, f)
        case None =>
        case Some(m') =>
          OpenAccepts(step, closes, subs, depth, m', rest, size);
    }
  }

  /** A field that is not a submessage is the same below the limit, or is not
      complete there and nothing after it is either. */
  lemma OpenField(subs: set<nat>, depth: nat, s: Bytes, size: LongSize)
    requires s != [] && !StartsSubmessage(subs, s)
    ensures var below := BelowLimit(s, size);
      match NextField(subs, depth, s)
      case Halt => below == [] || NextField(subs, depth, below).Halt?
      case Found(f, rest, short) =>
        || (below != [] && NextField(subs, depth, below) == Found(f, BelowLimit(rest, size), false) && !IsSubmessage(subs, f))
        || (BelowLimit(rest, size) == [] && (below == [] || NextField(subs, depth, below).Halt?))
  {
    var below := BelowLimit(s, size);
    var beyond := s[|below|..];
    assert below + beyond == s;
    if below != [] {
      OpenFieldBelow(subs, depth, below, beyond);
      if NextField(subs, depth, s).Found? {
        var rest := NextField(subs, depth, s).rest;
        if NextField(subs, depth, below).Found? {
          assert rest == NextField(subs, depth, below).rest + beyond;
        }
      }
    }
  }

  lemma OpenFieldBelow(subs: set<nat>, depth: nat, below: Bytes, beyond: Bytes)
    requires below != [] && !StartsSubmessage(subs, below + beyond)
    ensures match NextField(subs, depth, below)
            case Halt =>
              NextField(subs, depth, below + beyond).Found? ==> |NextField(subs, depth, below + beyond).rest| < |beyond|
            case Found(f, rest, short) =>
              !IsSubmessage(subs, f) && NextField(subs, depth, below + beyond) == Found(f, rest + beyond, false)
  {
    var s := below + beyond;
    if NextField(subs, depth, below).Found? {
      VarintExtend(below, beyond);
      var Got(tag, body) := ReadVarint32(below);
      SkipFieldExtend(depth, tag, body, beyond);
      SkipFieldKind(depth, tag, body);
    } else if NextField(subs, depth, s).Found? && |NextField(subs, depth, s).rest| >= |beyond| {
      VarintPrefix(below, beyond);
      var Got(tag, body) := ReadVarint32(below);
      SkipFieldPrefix(depth, tag, body, beyond);
    }
  }

  lemma OpenSubmessage(subs: set<nat>, depth: nat, s: Bytes, size: LongSize)
    requires StartsSubmessage(subs, s)
    ensures var below := BelowLimit(s, size);
      && (below != [] && NextField(subs, depth, below).Found? ==> IsSubmessage(subs, NextField(subs, depth, below).field))
      && (Breaks(depth, ReadVarint32(s).rest, Open(size)) ==> below == [] || NextField(subs, depth, below).Halt?)
  {
    var end, below := Open(size), BelowLimit(s, size);
    SettledAfterTag(s, end);
    var body := ReadVarint32(s).rest;
    if ReadVarint32(below).Got? && Breaks(depth, body, end) && CutSubmessage(BelowLimit(body, size)).Got? {
      var b := BelowLimit(body, size);
      var beyond := body[|b|..];
      assert b + beyond == body;
      VarintExtend(b, beyond);
    }
  }

  // ------------------------------------------------- jumps and the plain loop

  /** The plain loop reads every tag, so nothing closes it at the total limit. */
  function Never(f: UnknownField, short: bool): bool
  {
    false
  }

  /** The parser with its jumps has the outcome of the plain loop, unless it takes
      the total limit for the end of an array that goes on. */
  lemma {:induction false} JumpsAgree<M>(step: (M, UnknownField) -> Option<M>, closes: (UnknownField, bool) -> bool,
                                         subs: set<nat>, depth: nat, m: M, s: Bytes, size: LongSize)
    ensures var jumps := RunTo(step, closes, subs, depth, m, s, Open(size));
      var plain := RunTo(step, Never, subs, depth, m, s, Open(size));
      !plain.Accepted? && (jumps == plain || (jumps.Accepted? && plain.Rejected?))
    decreases |s|
  {
    if s == [] {
    } else if StartsSubmessage(subs, s) {
      if LastCloses(Never, subs, depth, BelowLimit(s, size)) {
        LastClosesLast(Never, subs, depth, BelowLimit(s, size));
      }
    } else if NextField(subs, depth, s).Found? {
      var Found(f, rest, _) := NextField(subs, depth, s);
      match step(m, f)
      case None =>
      case Some(m') => JumpsAgree(step, closes, subs, depth, m', rest, size);
    }
  }

  /** Where the two differ: over the limit, if the first 64 MiB are an accepted input
      that has a submessage and whose last field closes the message. */
  lemma ArrayJumpsAgree<M>(step: (M, UnknownField) -> Option<M>, closes: (UnknownField, bool) -> bool,
                           subs: set<nat>, depth: nat, m: M, s: Bytes)
    ensures var jumps, plain := FromArray(step, closes, subs, depth, m, s), FromArray(step, Never, subs, depth, m, s);
      && (jumps != plain <==>
            |s| > TOTAL_BYTES_LIMIT
            && var below := s[..TOTAL_BYTES_LIMIT];
               LastCloses(closes, subs, depth, below) && HasSubmessage(subs, depth, below)
               && Run(step, subs, depth, m, below).Some?)
      && (jumps != plain ==> jumps.Accepted? && plain.Rejected?)
  {
    if |s| > TOTAL_BYTES_LIMIT {
      assert BelowLimit(s, |s|) == s[..TOTAL_BYTES_LIMIT];
      JumpsAgree(step, closes, subs, depth, m, s, |s|);
      OpenAccepts(step, closes, subs, depth, m, s, |s|);
    }
  }

  // ------------------------------------------------------------ closing fields

  /** What closes an input is its last field. */
  lemma {:induction false} LastClosesLast(closes: (UnknownField, bool) -> bool, subs: set<nat>, depth: nat, s: Bytes)
    requires LastCloses(closes, subs, depth, s)
    ensures var fs := FieldsOf(subs, depth, s); fs != [] && closes(fs[|fs| - 1], Overruns(subs, depth, s))
    decreases |s|
  {
    var Found(f, rest, short) := NextField(subs, depth, s);
    if rest != [] {
      LastClosesLast(closes, subs, depth, rest);
    } else {
      assert FieldsOf(subs, depth, s) == [f];
    }
  }

  /** An input is closed exactly if all of it can be read and its last field closes
      it. */
  lemma {:induction false} LastClosesIff(closes: (UnknownField, bool) -> bool, subs: set<nat>, depth: nat, s: Bytes)
    ensures var fs := FieldsOf(subs, depth, s);
      LastCloses(closes, subs, depth, s)
      <==> Whole(subs, depth, s) && fs != [] && closes(fs[|fs| - 1], Overruns(subs, depth, s))
    decreases |s|
  {
    if s != [] && NextField(subs, depth, s).Found? {
      var Found(f, rest, short) := NextField(subs, depth, s);
      LastClosesIff(closes, subs, depth, rest);
      if rest == [] {
        assert FieldsOf(subs, depth, s) == [f];
      } else {
        assert short ==> rest == [];
      }
    }
  }

  /** Serialized fields end as the last of them does. */
  lemma {:induction false} EncodedCloses(closes: (UnknownField, bool) -> bool, subs: set<nat>, depth: nat,
                                         fs: seq<UnknownField>)
    requires forall f | f in fs :: Writable(subs, depth, f)
    ensures LastCloses(closes, subs, depth, EncodeFields(fs)) <==> fs != [] && closes(fs[|fs| - 1], false)
    decreases fs
  {
    if fs != [] {
      NextFieldEncoded(subs, depth, fs[0], EncodeFields(fs[1..]));
      EncodedCloses(closes, subs, depth, fs[1..]);
    }
  }

  lemma {:induction false} LastClosesConcat(closes: (UnknownField, bool) -> bool, subs: set<nat>, depth: nat,
                                            s: Bytes, t: Bytes)
    requires Whole(subs, depth, s) && !Overruns(subs, depth, s) && t != []
    ensures LastCloses(closes, subs, depth, s + t) == LastCloses(closes, subs, depth, t)
    decreases |s|
  {
    if s == [] {
      assert s + t == t;
    } else {
      NextFieldExtend(subs, depth, s, t);
      LastClosesConcat(closes, subs, depth, NextField(subs, depth, s).rest, t);
    }
  }

  /** If only submessages close, what is closed has one. */
  lemma {:induction false} ClosedHasSubmessage(closes: (UnknownField, bool) -> bool, subs: set<nat>, depth: nat, s: Bytes)
    requires LastCloses(closes, subs, depth, s)
    requires forall f, short | closes(f, short) :: IsSubmessage(subs, f)
    ensures HasSubmessage(subs, depth, s)
    decreases |s|
  {
    var Found(f, rest, short) := NextField(subs, depth, s);
    if rest != [] {
      ClosedHasSubmessage(closes, subs, depth, rest);
    }
  }

  /** Serialized fields that are no submessages are rejected beyond the limit:
      nothing ever cuts the array, and its own end is not legitimate. */
  lemma {:induction false} FlatOverLimit<M>(step: (M, UnknownField) -> Option<M>, closes: (UnknownField, bool) -> bool,
                                            subs: set<nat>, depth: nat, m: M, fs: seq<UnknownField>, size: LongSize)
    requires forall f | f in fs :: Writable(subs, depth, f) && !IsSubmessage(subs, f)
    ensures RunTo(step, closes, subs, depth, m, EncodeFields(fs), Open(size)) == Rejected
    decreases fs
  {
    if fs != [] {
      var f, rest := fs[0], EncodeFields(fs[1..]);
      NextFieldEncoded(subs, depth, f, rest);
      FieldTagFacts(depth, f, rest);
      if step(m, f).Some? {
        FlatOverLimit(step, closes, subs, depth, step(m, f).value, fs[1..], size);
      }
    }
  }

  lemma FoldLast<M>(step: (M, UnknownField) -> Option<M>, m: M, fs: seq<UnknownField>) returns (front: M)
    requires fs != [] && Fold(step, m, fs).Some?
    ensures Fold(step, m, fs[..|fs| - 1]) == Some(front) && step(front, fs[|fs| - 1]) == Fold(step, m, fs)
  {
    var n := |fs| - 1;
    assert fs == fs[..n] + [fs[n]];
    FoldConcat(step, m, fs[..n], [fs[n]]);
    front := Fold(step, m, fs[..n]).value;
  }

  /** Serialized fields cut short, closed all the same, and parsed as a message
      with as many: then the last of them is a submessage that has lost the end of
      its data. */
  lemma CutRun<M(!new)>(step: (M, UnknownField) -> Option<M>, closes: (UnknownField, bool) -> bool, subs: set<nat>,
                        depth: nat, unit: M, count: M -> nat, fs: seq<UnknownField>, s: Bytes, m: M)
    returns (front: M, g: UnknownField)
    requires forall f | f in fs :: Writable(subs, depth, f)
    requires s < EncodeFields(fs) && LastCloses(closes, subs, depth, s) && Run(step, subs, depth, unit, s) == Some(m)
    requires forall m, f {:trigger step(m, f)} | step(m, f).Some? :: count(step(m, f).value) <= count(m) + 1
    requires count(unit) == 0 && count(m) == |fs|
    ensures fs != [] && step(front, g) == Some(m) && count(front) < |fs| && closes(g, true)
    ensures var f := fs[|fs| - 1];
            IsSubmessage(subs, f) && IsSubmessage(subs, g) && g.number == f.number && g.data < f.data
  {
    var gs := FieldsOf(subs, depth, s);
    RunIsWhole(step, subs, depth, unit, s);
    RunFolds(step, subs, depth, unit, s);
    CutFields(subs, depth, fs, s);
    FoldCounts(step, count, unit, gs);
    LastClosesLast(closes, subs, depth, s);
    g := gs[|gs| - 1];
    front := FoldLast(step, unit, gs);
    FoldCounts(step, count, unit, gs[..|gs| - 1]);
  }

  /** So such fields are never parsed as the message that was written if the last of
      them, once it has lost the end of its data, never gives that message. */
  lemma CutDiffers<M(!new)>(step: (M, UnknownField) -> Option<M>, closes: (UnknownField, bool) -> bool, subs: set<nat>,
                            depth: nat, unit: M, count: M -> nat, fs: seq<UnknownField>, s: Bytes, m: M)
    requires forall f | f in fs :: Writable(subs, depth, f)
    requires s < EncodeFields(fs) && LastCloses(closes, subs, depth, s)
    requires forall m, f {:trigger step(m, f)} | step(m, f).Some? :: count(step(m, f).value) <= count(m) + 1
    requires count(unit) == 0 && count(m) == |fs|
    requires fs != [] && IsSubmessage(subs, fs[|fs| - 1]) ==>
      forall front, g {:trigger step(front, g)} | count(front) < |fs| && CutShort(closes, subs, fs[|fs| - 1], g) ::
        step(front, g) != Some(m)
    ensures Run(step, subs, depth, unit, s) != Some(m)
  {
    if Run(step, subs, depth, unit, s) == Some(m) {
      var front, g := CutRun(step, closes, subs, depth, unit, count, fs, s, m);
      assert false;
    }
  }

  /** The submessage `g` is `f` without the end of its data, and has been closed. */
  ghost predicate CutShort(closes: (UnknownField, bool) -> bool, subs: set<nat>, f: UnknownField, g: UnknownField)
    requires f.LengthDelimited?
  {
    IsSubmessage(subs, g) && g.data < f.data && closes(g, true)
  }

  // ------------------------------------------------ concatenation and merging

  /** Merging in the message of a one-field input that no message interprets adds
      one unknown field; submessages add none. */
  ghost predicate Probes<M(!new)>(step: (M, UnknownField) -> Option<M>, merge: (M, M) -> M, unit: M, probe: M,
                                  unknowns: M -> nat, subs: set<nat>)
  {
    && 1 !in subs && step(unit, LengthDelimited(1, [])) == Some(probe)
    && (forall a :: unknowns(merge(a, probe)) == unknowns(a) + 1)
    && (forall m, f {:trigger step(m, f)} | IsSubmessage(subs, f) && step(m, f).Some? ::
          unknowns(step(m, f).value) == unknowns(m))
  }

  /** An accepted `s`, and whatever accepted input is appended within the limit:
      the whole parses as the merge of the two messages. */
  ghost predicate ConcatMerges<M>(step: (M, UnknownField) -> Option<M>, merge: (M, M) -> M, unit: M,
                                  subs: set<nat>, depth: nat, s: Bytes)
    requires Run(step, subs, depth, unit, s).Some?
  {
    forall t {:trigger s + t} | |s + t| <= TOTAL_BYTES_LIMIT && Run(step, subs, depth, unit, t).Some? ::
      Run(step, subs, depth, unit, s + t)
      == Some(merge(Run(step, subs, depth, unit, s).value, Run(step, subs, depth, unit, t).value))
  }

  /** No accepted input is one byte long. */
  lemma OneByteRejected<M>(step: (M, UnknownField) -> Option<M>, subs: set<nat>, depth: nat, m: M, t: Bytes)
    requires |t| == 1
    ensures Run(step, subs, depth, m, t).None?
  {
  }

  lemma {:induction false} ConcatRuns<M(!new)>(step: (M, UnknownField) -> Option<M>, merge: (M, M) -> M, unit: M,
                                               subs: set<nat>, depth: nat, s: Bytes, t: Bytes)
    requires StepMerges(step, merge) && forall a :: merge(a, unit) == a
    requires Run(step, subs, depth, unit, s).Some? && !Overruns(subs, depth, s)
    ensures Run(step, subs, depth, unit, s + t)
         == match Run(step, subs, depth, unit, t)
            case None => None
            case Some(b) => Some(merge(Run(step, subs, depth, unit, s).value, b))
  {
    var a := Run(step, subs, depth, unit, s).value;
    RunConcat(step, subs, depth, unit, s, t);
    RunMerge(step, merge, subs, depth, a, unit, t);
    assert merge(a, unit) == a;
  }

  /** The probe swallowed: an input that overruns and the probe do not merge. */
  lemma OverrunDiffers<M(!new)>(step: (M, UnknownField) -> Option<M>, merge: (M, M) -> M, unit: M, probe: M,
                                unknowns: M -> nat, subs: set<nat>, depth: nat, s: Bytes)
    requires Probes(step, merge, unit, probe, unknowns, subs)
    requires Run(step, subs, depth, unit, s).Some? && Overruns(subs, depth, s)
    ensures Run(step, subs, depth, unit, PROBE) == Some(probe)
    ensures Run(step, subs, depth, unit, s + PROBE) != Some(merge(Run(step, subs, depth, unit, s).value, probe))
  {
    ProbeIsOneField(subs, depth);
    RunOneField(step, subs, depth, unit, PROBE, LengthDelimited(1, []), false);
    RunAbsorbs(step, unknowns, subs, depth, unit, s);
  }

  /** Whatever is appended to `s` within the limit parses as the merge exactly when
      the last field of `s` is not a submessage that runs past its end, or when the
      limit leaves no room to append anything. */
  lemma {:induction false} ConcatIff<M(!new)>(step: (M, UnknownField) -> Option<M>, merge: (M, M) -> M, unit: M,
                                              probe: M, unknowns: M -> nat, subs: set<nat>, depth: nat, s: Bytes)
    requires StepMerges(step, merge) && forall a :: merge(a, unit) == a
    requires Probes(step, merge, unit, probe, unknowns, subs)
    requires Run(step, subs, depth, unit, s).Some?
    ensures ConcatMerges(step, merge, unit, subs, depth, s)
       <==> !Overruns(subs, depth, s) || |s| + |PROBE| > TOTAL_BYTES_LIMIT
  {
    if !Overruns(subs, depth, s) {
      forall t | |s + t| <= TOTAL_BYTES_LIMIT && Run(step, subs, depth, unit, t).Some?
        ensures Run(step, subs, depth, unit, s + t)
             == Some(merge(Run(step, subs, depth, unit, s).value, Run(step, subs, depth, unit, t).value))
      {
        ConcatRuns(step, merge, unit, subs, depth, s, t);
      }
    } else if |s| + |PROBE| <= TOTAL_BYTES_LIMIT {
      OverrunDiffers(step, merge, unit, probe, unknowns, subs, depth, s);
      assert |s + PROBE| <= TOTAL_BYTES_LIMIT;
    } else {
      forall t | |s + t| <= TOTAL_BYTES_LIMIT && Run(step, subs, depth, unit, t).Some?
        ensures t == [] && s + t == s && Run(step, subs, depth, unit, t) == Some(unit)
      {
        if |t| == 1 {
          OneByteRejected(step, subs, depth, unit, t);
        }
      }
    }
  }
}
