/** RCF's call marshaling: what the client and the server parameter packs write
    to and read from an archive, for any signature and runtime version. */
module Marshal {
  import opened Prelude

  /** How one type is serialized, as a value and through a pointer, and what its
      default constructor makes. `values` are the values of the type. */
  datatype Codec<!V(!new)> = Codec(
    values: V -> bool,
    default: V,
    writeValue: V -> Bytes,
    readValue: Bytes -> Read<V>,
    writePointer: Option<V> -> Bytes,
    readPointer: Bytes -> Read<Option<V>>)
  {
    /** A value can be read where a pointer to it was written. */
    ghost predicate Interchangeable()
    {
      forall v, rest | values(v) :: readValue(writePointer(Some(v)) + rest) == Got(v, rest)
    }

    predicate IsPointer(p: Option<V>)
    {
      p.Some? ==> values(p.value)
    }

    /** Deserializing takes what serializing wrote, and no more. Nothing relates
        the two modes. */
    ghost predicate Lawful()
    {
      && values(default)
      && (forall v, rest | values(v) :: readValue(writeValue(v) + rest) == Got(v, rest))
      && (forall p, rest | IsPointer(p) :: readPointer(writePointer(p) + rest) == Got(p, rest))
    }
  }

  /** The forms of return values and parameters: `R`, `T`, `T *`, `const T &`,
      `T &`, `Out<T &>` and none. */
  datatype Kind = ReturnKind | ValueKind | PointerKind | ConstRefKind | RefKind | OutKind | VoidKind

  /** `cached` is whether the type's objects come from the object pool under an SF
      protocol. */
  datatype Param<!V(!new)> = Param(kind: Kind, codec: Codec<V>, cached: bool)

  predicate IsInParameter(kind: Kind)
  {
    kind in {ValueKind, PointerKind, ConstRefKind, RefKind}
  }

  /** The return value counts as the first of them. */
  predicate IsOutParameter(kind: Kind)
  {
    kind in {ReturnKind, RefKind, OutKind}
  }

  /** An argument or a parameter store: null, or an object. */
  type Slot<V(!new)> = Option<V>

  /** Only pointers can be null. */
  predicate Holds<V(!new)>(p: Param<V>, slot: Slot<V>)
  {
    match p.kind
    case VoidKind => slot.None?
    case PointerKind => p.codec.IsPointer(slot)
    case _ => slot.Some? && p.codec.values(slot.value)
  }

  // ------------------------------------------------------------- one parameter

  /** `Cm_Value`, `Cm_Ptr`, `Cm_CRef` and `Cm_Ref::write`. */
  function WriteIn<V(!new)>(p: Param<V>, version: int, slot: Slot<V>): Bytes
    requires IsInParameter(p.kind) && Holds(p, slot)
  {
    if p.kind == ValueKind || (p.kind != PointerKind && version == 8) then p.codec.writeValue(slot.value)
    else p.codec.writePointer(slot)
  }

  /** What the server's store holds when it is made. */
  function Initial<V(!new)>(p: Param<V>): Slot<V>
  {
    match p.kind
    case ReturnKind => Some(p.codec.default)
    case ValueKind => Some(p.codec.default)
    case OutKind => Some(p.codec.default)
    case _ => None
  }

  /** What it holds after a read that finds the archive empty. */
  function Missing<V(!new)>(p: Param<V>): Slot<V>
  {
    if p.kind in {ConstRefKind, RefKind} then Some(p.codec.default) else Initial(p)
  }

  /** `Sm_Value`, `Sm_Ptr`, `Sm_CRef` and `Sm_Ref::read`. A null pointer where a
      reference is needed is an error only from version 9 on. */
  function ReadIn<V(!new)>(p: Param<V>, version: int, s: Bytes): Read<Slot<V>>
    requires IsInParameter(p.kind)
  {
    if s == [] then Got(Missing(p), s)
    else match p.kind
      case ValueKind => ReadAsValue(p.codec, s)
      case PointerKind => p.codec.readPointer(s)
      case _ =>
        if version < 8 then p.codec.readPointer(s)
        else if version == 8 || p.cached then ReadAsValue(p.codec, s)
        else match p.codec.readPointer(s)
          case Fail => Fail
          case Got(slot, rest) => if slot.None? then Fail else Got(slot, rest)
  }

  function ReadAsValue<V(!new)>(codec: Codec<V>, s: Bytes): Read<Slot<V>>
  {
    match codec.readValue(s) case Fail => Fail case Got(v, rest) => Got(Some(v), rest)
  }

  /** `Sm_Ret`, `Sm_Ref` and `Sm_OutRef::write`: always as a value. */
  function WriteOut<V(!new)>(p: Param<V>, slot: Slot<V>): Bytes
    requires IsOutParameter(p.kind) && slot.Some?
  {
    p.codec.writeValue(slot.value)
  }

  /** `Cm_Ret`, `Cm_Ref` and `Cm_OutRef::read`: an empty archive leaves the
      client's object as it is. */
  function ReadOut<V(!new)>(p: Param<V>, s: Bytes, slot: Slot<V>): Read<Slot<V>>
    requires IsOutParameter(p.kind)
  {
    if s == [] then Got(slot, s) else ReadAsValue(p.codec, s)
  }

  /** An empty encoding belongs to a type with a single value, so that leaving a
      default or an old object in place is reading it. No pointer has one. */
  lemma EmptyEncoding<V(!new)>(c: Codec<V>, v: V)
    requires c.Lawful() && c.values(v) && c.writeValue(v) == []
    ensures forall w | c.values(w) :: w == v
  {
    forall w | c.values(w)
      ensures w == v
    {
      var s := c.writeValue(w);
      assert c.writeValue(v) + s == s == s + [];
      assert c.readValue(c.writeValue(v) + s) == Got(v, s);
      assert c.readValue(c.writeValue(w) + []) == Got(w, []);
    }
  }

  lemma PointersAreWritten<V(!new)>(c: Codec<V>, p: Option<V>)
    requires c.Lawful() && c.IsPointer(p)
    ensures c.writePointer(p) != []
  {
    var q := if p.None? then Some(c.default) else None;
    var s := c.writePointer(q);
    assert [] + s == s == s + [];
    assert c.readPointer(c.writePointer(p) + s) == Got(p, s);
    assert c.readPointer(c.writePointer(q) + []) == Got(q, []);
  }

  /** A reference to a pooled object, which is written as a pointer and read as a
      value. */
  predicate Mixed<V(!new)>(p: Param<V>, version: int)
  {
    p.cached && p.kind in {ConstRefKind, RefKind} && version > 8
  }

  lemma InRoundTrip<V(!new)>(p: Param<V>, version: int, slot: Slot<V>, rest: Bytes)
    requires p.codec.Lawful() && IsInParameter(p.kind) && Holds(p, slot)
    requires Mixed(p, version) ==> p.codec.Interchangeable()
    ensures ReadIn(p, version, WriteIn(p, version, slot) + rest) == Got(slot, rest)
  {
    var s := WriteIn(p, version, slot);
    if p.kind == PointerKind || (p.kind != ValueKind && version != 8) {
      PointersAreWritten(p.codec, slot);
    } else if s + rest == [] {
      assert s == [] && rest == [];
      EmptyEncoding(p.codec, slot.value);
    }
  }

  /** The server reads every argument of a parameter as the client wrote it exactly
      if that is in the same mode, or the modes are interchangeable. */
  lemma InRoundTripIff<V(!new)>(p: Param<V>, version: int)
    requires p.codec.Lawful() && IsInParameter(p.kind)
    ensures (Mixed(p, version) ==> p.codec.Interchangeable()) <==>
      forall slot: Slot<V>, rest: Bytes | Holds(p, slot) ::
        ReadIn(p, version, WriteIn(p, version, slot) + rest) == Got(slot, rest)
  {
    if Mixed(p, version) && !p.codec.Interchangeable() {
      var v, rest :| p.codec.values(v) && p.codec.readValue(p.codec.writePointer(Some(v)) + rest) != Got(v, rest);
      PointersAreWritten(p.codec, Some(v));
      assert Holds(p, Some(v));
      assert ReadIn(p, version, WriteIn(p, version, Some(v)) + rest) != Got(Some(v), rest);
    } else {
      forall slot: Slot<V>, rest: Bytes | Holds(p, slot)
        ensures ReadIn(p, version, WriteIn(p, version, slot) + rest) == Got(slot, rest)
      {
        InRoundTrip(p, version, slot, rest);
      }
    }
  }

  lemma OutRoundTrip<V(!new)>(p: Param<V>, slot: Slot<V>, old_: Slot<V>, rest: Bytes)
    requires p.codec.Lawful() && IsOutParameter(p.kind) && Holds(p, slot) && Holds(p, old_)
    ensures ReadOut(p, WriteOut(p, slot) + rest, old_) == Got(slot, rest)
  {
    if WriteOut(p, slot) + rest == [] {
      assert WriteOut(p, slot) == [] && rest == [];
      EmptyEncoding(p.codec, slot.value);
    }
  }

  // ----------------------------------------------------------- whole signatures

  type Signature<!V(!new)> = seq<Param<V>>

  ghost predicate AllLawful<V(!new)>(sig: Signature<V>)
  {
    forall p | p in sig :: p.codec.Lawful()
  }

  /** Every in parameter is read as it was written. */
  ghost predicate AllAgree<V(!new)>(sig: Signature<V>, version: int)
  {
    forall p | p in sig :: p.codec.Lawful() && (Mixed(p, version) ==> p.codec.Interchangeable())
  }

  predicate AllHold<V(!new)>(sig: Signature<V>, slots: seq<Slot<V>>)
  {
    |slots| == |sig| && forall i | 0 <= i < |sig| :: Holds(sig[i], slots[i])
  }

  /** `ClientParameters::write` from parameter `i` on. */
  function WriteIns<V(!new)>(sig: Signature<V>, version: int, slots: seq<Slot<V>>, i: nat): Bytes
    requires AllHold(sig, slots) && i <= |sig|
    decreases |sig| - i
  {
    if i == |sig| then []
    else if IsInParameter(sig[i].kind) then WriteIn(sig[i], version, slots[i]) + WriteIns(sig, version, slots, i + 1)
    else WriteIns(sig, version, slots, i + 1)
  }

  /** `ServerParameters::read` from parameter `i` on. */
  function ReadIns<V(!new)>(sig: Signature<V>, version: int, s: Bytes, slots: seq<Slot<V>>, i: nat): Read<seq<Slot<V>>>
    requires |slots| == |sig| && i <= |sig|
    decreases |sig| - i
  {
    if i == |sig| then Got(slots, s)
    else if !IsInParameter(sig[i].kind) then ReadIns(sig, version, s, slots, i + 1)
    else match ReadIn(sig[i], version, s)
      case Fail => Fail
      case Got(slot, rest) => ReadIns(sig, version, rest, slots[i := slot], i + 1)
  }

  /** `ServerParameters::write` from parameter `i` on. */
  function WriteOuts<V(!new)>(sig: Signature<V>, slots: seq<Slot<V>>, i: nat): Bytes
    requires AllHold(sig, slots) && i <= |sig|
    decreases |sig| - i
  {
    if i == |sig| then []
    else if IsOutParameter(sig[i].kind) then WriteOut(sig[i], slots[i]) + WriteOuts(sig, slots, i + 1)
    else WriteOuts(sig, slots, i + 1)
  }

  /** `ClientParameters::read` from parameter `i` on. */
  function ReadOuts<V(!new)>(sig: Signature<V>, s: Bytes, slots: seq<Slot<V>>, i: nat): Read<seq<Slot<V>>>
    requires |slots| == |sig| && i <= |sig|
    decreases |sig| - i
  {
    if i == |sig| then Got(slots, s)
    else if !IsOutParameter(sig[i].kind) then ReadOuts(sig, s, slots, i + 1)
    else match ReadOut(sig[i], s, slots[i])
      case Fail => Fail
      case Got(slot, rest) => ReadOuts(sig, rest, slots[i := slot], i + 1)
  }

  /** The server's stores before a request is read. */
  function Initials<V(!new)>(sig: Signature<V>): (slots: seq<Slot<V>>)
    ensures |slots| == |sig|
  {
    seq(|sig|, i requires 0 <= i < |sig| => Initial(sig[i]))
  }

  /** The server's stores once it has read `sent`, the in parameters of a client
      that knows `n` parameters, and found the archive empty for the others. */
  function Received<V(!new)>(sig: Signature<V>, sent: seq<Slot<V>>, n: nat): (slots: seq<Slot<V>>)
    requires |sent| == n <= |sig|
    ensures |slots| == |sig|
  {
    seq(|sig|, i requires 0 <= i < |sig| =>
      if !IsInParameter(sig[i].kind) then Initial(sig[i]) else if i < n then sent[i] else Missing(sig[i]))
  }

  /** Stores that have been read up to parameter `i` and not from there on. */
  ghost predicate ReadTo<V(!new)>(sig: Signature<V>, slots: seq<Slot<V>>, goal: seq<Slot<V>>, i: nat)
  {
    && |slots| == |goal| == |sig|
    && (forall j | 0 <= j < i && j < |sig| :: slots[j] == goal[j])
    && (forall j | i <= j < |sig| :: slots[j] == Initial(sig[j]))
  }

  lemma ReadToNext<V(!new)>(sig: Signature<V>, slots: seq<Slot<V>>, goal: seq<Slot<V>>, i: nat)
    requires ReadTo(sig, slots, goal, i) && i < |sig|
    ensures ReadTo(sig, slots[i := goal[i]], goal, i + 1)
    ensures goal[i] == Initial(sig[i]) ==> slots[i := goal[i]] == slots
  {
  }

  /** One parameter of a request. */
  lemma ReadInsNext<V(!new)>(sig: Signature<V>, version: int, slot: Slot<V>, rest: Bytes, slots: seq<Slot<V>>, i: nat)
    requires AllAgree(sig, version) && |slots| == |sig| && i < |sig|
    requires IsInParameter(sig[i].kind) && Holds(sig[i], slot)
    ensures ReadIns(sig, version, WriteIn(sig[i], version, slot) + rest, slots, i)
         == ReadIns(sig, version, rest, slots[i := slot], i + 1)
  {
    assert sig[i] in sig;
    InRoundTrip(sig[i], version, slot, rest);
  }

  /** What a client that knows the first `n` parameters has still to write from
      parameter `i` on. */
  function Remaining<V(!new)>(sig: Signature<V>, n: nat, version: int, sent: seq<Slot<V>>, i: nat): Bytes
    requires n <= |sig| && AllHold(sig[..n], sent)
  {
    if i <= n then WriteIns(sig[..n], version, sent, i) else []
  }

  lemma RemainingNext<V(!new)>(sig: Signature<V>, n: nat, version: int, sent: seq<Slot<V>>, i: nat)
    requires n <= |sig| && AllHold(sig[..n], sent) && i < |sig|
    ensures i < n ==> Holds(sig[i], sent[i])
    ensures Remaining(sig, n, version, sent, i)
         == if i < n && IsInParameter(sig[i].kind)
            then WriteIn(sig[i], version, sent[i]) + Remaining(sig, n, version, sent, i + 1)
            else Remaining(sig, n, version, sent, i + 1)
  {
    if i < n {
      assert sig[..n][i] == sig[i];
    }
  }

  /** Every signature, every version: the server reads exactly the parameters the
      client wrote, and a client that knows only the first ones leaves the others
      default or null. */
  lemma {:induction false} RequestRoundTrip<V(!new)>(sig: Signature<V>, n: nat, version: int, sent: seq<Slot<V>>,
                                                     slots: seq<Slot<V>>, i: nat)
    requires AllAgree(sig, version) && n <= |sig| && AllHold(sig[..n], sent) && i <= |sig|
    requires ReadTo(sig, slots, Received(sig, sent, n), i)
    ensures ReadIns(sig, version, Remaining(sig, n, version, sent, i), slots, i) == Got(Received(sig, sent, n), [])
    decreases |sig| - i
  {
    if i == |sig| {
      assert slots == Received(sig, sent, n);
    } else {
      RemainingNext(sig, n, version, sent, i);
      ReadToNext(sig, slots, Received(sig, sent, n), i);
      if !IsInParameter(sig[i].kind) {
        RequestRoundTrip(sig, n, version, sent, slots, i + 1);
      } else if i < n {
        ReadInsNext(sig, version, sent[i], Remaining(sig, n, version, sent, i + 1), slots, i);
        RequestRoundTrip(sig, n, version, sent, slots[i := sent[i]], i + 1);
      } else {
        RequestRoundTrip(sig, n, version, sent, slots[i := Missing(sig[i])], i + 1);
      }
    }
  }

  /** A server that knows only the first parameters of its client reads these and
      leaves the bytes of the others. */
  lemma {:induction false} RequestToOlder<V(!new)>(sig: Signature<V>, older: Signature<V>, version: int,
                                                   sent: seq<Slot<V>>, goal: seq<Slot<V>>, slots: seq<Slot<V>>, i: nat)
    requires older <= sig && AllAgree(older, version) && AllHold(sig, sent) && i <= |older|
    requires ReadTo(older, slots, goal, i)
    requires forall j | 0 <= j < |older| :: goal[j] == if IsInParameter(older[j].kind) then sent[j] else Initial(older[j])
    ensures ReadIns(older, version, WriteIns(sig, version, sent, i), slots, i)
         == Got(goal, WriteIns(sig, version, sent, |older|))
    decreases |older| - i
  {
    if i == |older| {
      assert slots == goal;
    } else {
      ReadToNext(older, slots, goal, i);
      if !IsInParameter(older[i].kind) {
        RequestToOlder(sig, older, version, sent, goal, slots, i + 1);
      } else {
        ReadInsNext(older, version, sent[i], WriteIns(sig, version, sent, i + 1), slots, i);
        RequestToOlder(sig, older, version, sent, goal, slots[i := sent[i]], i + 1);
      }
    }
  }

  /** The client's objects after a reply that holds the first `m` parameters, read
      from parameter `i` on: those of the out parameters among them are the
      server's, the others are as they were. */
  function Replied<V(!new)>(sig: Signature<V>, own: seq<Slot<V>>, sent: seq<Slot<V>>, i: nat): (slots: seq<Slot<V>>)
    requires |own| == |sig|
    ensures |slots| == |sig|
  {
    seq(|sig|, j requires 0 <= j < |sig| =>
      if i <= j < |sent| && IsOutParameter(sig[j].kind) then sent[j] else own[j])
  }

  /** One parameter of a reply. */
  lemma ReadOutsNext<V(!new)>(sig: Signature<V>, slot: Slot<V>, rest: Bytes, own: seq<Slot<V>>, i: nat)
    requires AllLawful(sig) && AllHold(sig, own) && i < |sig|
    requires IsOutParameter(sig[i].kind) && Holds(sig[i], slot)
    ensures ReadOuts(sig, WriteOut(sig[i], slot) + rest, own, i) == ReadOuts(sig, rest, own[i := slot], i + 1)
  {
    assert sig[i] in sig;
    OutRoundTrip(sig[i], slot, own[i], rest);
  }

  lemma RepliedNext<V(!new)>(sig: Signature<V>, own: seq<Slot<V>>, sent: seq<Slot<V>>, i: nat)
    requires |own| == |sig| && i < |sig|
    ensures i < |sent| && IsOutParameter(sig[i].kind) ==>
              Replied(sig, own, sent, i) == Replied(sig, own[i := sent[i]], sent, i + 1)
    ensures !(i < |sent| && IsOutParameter(sig[i].kind)) ==>
              Replied(sig, own, sent, i) == Replied(sig, own, sent, i + 1)
  {
  }

  /** The server writes the return value and every out parameter of its own; a
      client that knows the first `n` parameters reads exactly these and leaves the
      bytes of the others. */
  lemma {:induction false} ReplyRoundTrip<V(!new)>(sig: Signature<V>, n: nat, sent: seq<Slot<V>>, own: seq<Slot<V>>, i: nat)
    requires i <= n <= |sig| && AllLawful(sig[..n]) && AllHold(sig, sent) && AllHold(sig[..n], own)
    ensures ReadOuts(sig[..n], WriteOuts(sig, sent, i), own, i)
         == Got(Replied(sig[..n], own, sent[..n], i), WriteOuts(sig, sent, n))
    decreases n - i
  {
    if i == n {
      assert Replied(sig[..n], own, sent[..n], i) == own;
    } else {
      assert sig[..n][i] == sig[i];
      RepliedNext(sig[..n], own, sent[..n], i);
      if !IsOutParameter(sig[i].kind) {
        ReplyRoundTrip(sig, n, sent, own, i + 1);
      } else {
        ReadOutsNext(sig[..n], sent[i], WriteOuts(sig, sent, i + 1), own, i);
        ReplyRoundTrip(sig, n, sent, own[i := sent[i]], i + 1);
      }
    }
  }

  /** A client that knows more than the server's `n` parameters: it finds the
      archive empty for the others, and its objects stay as they were. */
  lemma {:induction false} ReplyFromOlder<V(!new)>(sig: Signature<V>, n: nat, sent: seq<Slot<V>>, own: seq<Slot<V>>, i: nat)
    requires n <= |sig| && i <= |sig| && AllLawful(sig) && AllHold(sig[..n], sent) && AllHold(sig, own)
    ensures ReadOuts(sig, if i <= n then WriteOuts(sig[..n], sent, i) else [], own, i)
         == Got(Replied(sig, own, sent, i), [])
    decreases |sig| - i
  {
    if i == |sig| {
      assert Replied(sig, own, sent, i) == own;
    } else {
      assert i < n ==> sig[..n][i] == sig[i];
      RepliedNext(sig, own, sent, i);
      if i >= n || !IsOutParameter(sig[i].kind) {
        assert own[i := own[i]] == own;
        ReplyFromOlder(sig, n, sent, own, i + 1);
      } else {
        ReadOutsNext(sig, sent[i], WriteOuts(sig[..n], sent, i + 1), own, i);
        ReplyFromOlder(sig, n, sent, own[i := sent[i]], i + 1);
      }
    }
  }

  /** A call there and back, by a client that knows the first `n` parameters of the
      server's. */
  lemma CallRoundTrip<V(!new)>(sig: Signature<V>, n: nat, version: int, sent: seq<Slot<V>>, results: seq<Slot<V>>)
    requires AllAgree(sig, version) && n <= |sig| && AllHold(sig[..n], sent) && AllHold(sig, results)
    ensures ReadIns(sig, version, WriteIns(sig[..n], version, sent, 0), Initials(sig), 0) == Got(Received(sig, sent, n), [])
    ensures ReadOuts(sig[..n], WriteOuts(sig, results, 0), sent, 0)
         == Got(Replied(sig[..n], sent, results[..n], 0), WriteOuts(sig, results, n))
  {
    RequestRoundTrip(sig, n, version, sent, Initials(sig), 0);
    assert forall p | p in sig[..n] :: p in sig;
    ReplyRoundTrip(sig, n, results, sent, 0);
  }

  /** A call there and back, to a server that knows the first `n` parameters of the
      client's. */
  lemma CallToOlder<V(!new)>(sig: Signature<V>, n: nat, version: int, sent: seq<Slot<V>>, results: seq<Slot<V>>)
    requires AllAgree(sig, version) && n <= |sig| && AllHold(sig, sent) && AllHold(sig[..n], results)
    ensures ReadIns(sig[..n], version, WriteIns(sig, version, sent, 0), Initials(sig[..n]), 0)
         == Got(Received(sig[..n], sent[..n], n), WriteIns(sig, version, sent, n))
    ensures ReadOuts(sig, WriteOuts(sig[..n], results, 0), sent, 0) == Got(Replied(sig, sent, results, 0), [])
  {
    assert forall p | p in sig[..n] :: p in sig;
    RequestToOlder(sig, sig[..n], version, sent, Received(sig[..n], sent[..n], n), Initials(sig[..n]), 0);
    ReplyFromOlder(sig, n, results, sent, 0);
  }

  // ------------------------------------------------------------- kind by kind

  /** A null pointer for a reference: before version 8 it is taken, from version 9 on
      it is an error, unless the object comes from a pool. */
  lemma NullReference<V(!new)>(p: Param<V>, version: int, rest: Bytes)
    requires p.codec.Lawful() && p.kind in {ConstRefKind, RefKind} && (version >= 9 ==> !p.cached) && version != 8
    ensures ReadIn(p, version, p.codec.writePointer(None) + rest) == if version >= 9 then Fail else Got(None, rest)
  {
    PointersAreWritten(p.codec, None);
    assert p.codec.readPointer(p.codec.writePointer(None) + rest) == Got(None, rest);
  }

  /** What the server's parameter holds after a request: what came from the client
      that knows it, and otherwise a default object or null. */
  ghost predicate Arrives<V(!new)>(p: Param<V>, known: bool, sent: Slot<V>, slot: Slot<V>)
  {
    match p.kind
    case ValueKind => slot == if known then sent else Some(p.codec.default)
    case ConstRefKind => slot == if known then sent else Some(p.codec.default)
    case RefKind => slot == if known then sent else Some(p.codec.default)
    case PointerKind => slot == if known then sent else None
    case OutKind => slot == Some(p.codec.default)
    case ReturnKind => slot == Some(p.codec.default)
    case VoidKind => slot == None
  }

  /** What the client's object is after a reply: the server's if it is a return value
      or goes out, and the server knows it; and what it was otherwise. */
  ghost predicate Returns<V(!new)>(p: Param<V>, known: bool, own: Slot<V>, result: Slot<V>, slot: Slot<V>)
  {
    match p.kind
    case ReturnKind => slot == if known then result else own
    case RefKind => slot == if known then result else own
    case OutKind => slot == if known then result else own
    case ValueKind => slot == own
    case PointerKind => slot == own
    case ConstRefKind => slot == own
    case VoidKind => slot == own
  }

  /** A call there and back, parameter by parameter, by a client that knows the first
      `n` parameters of the server's. */
  lemma CallByKind<V(!new)>(sig: Signature<V>, n: nat, version: int, sent: seq<Slot<V>>, results: seq<Slot<V>>)
    requires AllAgree(sig, version) && n <= |sig| && AllHold(sig[..n], sent) && AllHold(sig, results)
    ensures var request := ReadIns(sig, version, WriteIns(sig[..n], version, sent, 0), Initials(sig), 0);
      && request.Got? && request.rest == [] && |request.value| == |sig|
      && forall j | 0 <= j < |sig| :: Arrives(sig[j], j < n, if j < n then sent[j] else None, request.value[j])
    ensures var reply := ReadOuts(sig[..n], WriteOuts(sig, results, 0), sent, 0);
      && reply.Got? && reply.rest == WriteOuts(sig, results, n) && |reply.value| == n
      && forall j | 0 <= j < n :: Returns(sig[j], true, sent[j], results[j], reply.value[j])
  {
    CallRoundTrip(sig, n, version, sent, results);
    forall j | 0 <= j < |sig|
      ensures Arrives(sig[j], j < n, if j < n then sent[j] else None, Received(sig, sent, n)[j])
    {
    }
    forall j | 0 <= j < n
      ensures Returns(sig[j], true, sent[j], results[j], Replied(sig[..n], sent, results[..n], 0)[j])
    {
      assert sig[..n][j] == sig[j];
    }
  }

  /** The same to a server that knows the first `n` parameters of the client's. */
  lemma CallToOlderByKind<V(!new)>(sig: Signature<V>, n: nat, version: int, sent: seq<Slot<V>>, results: seq<Slot<V>>)
    requires AllAgree(sig, version) && n <= |sig| && AllHold(sig, sent) && AllHold(sig[..n], results)
    ensures var request := ReadIns(sig[..n], version, WriteIns(sig, version, sent, 0), Initials(sig[..n]), 0);
      && request.Got? && request.rest == WriteIns(sig, version, sent, n) && |request.value| == n
      && forall j | 0 <= j < n :: Arrives(sig[j], true, sent[j], request.value[j])
    ensures var reply := ReadOuts(sig, WriteOuts(sig[..n], results, 0), sent, 0);
      && reply.Got? && reply.rest == [] && |reply.value| == |sig|
      && forall j | 0 <= j < |sig| ::
           Returns(sig[j], j < n, sent[j], if j < n then results[j] else None, reply.value[j])
  {
    CallToOlder(sig, n, version, sent, results);
    forall j | 0 <= j < n
      ensures Arrives(sig[j], true, sent[j], Received(sig[..n], sent[..n], n)[j])
    {
      assert sig[..n][j] == sig[j];
    }
    forall j | 0 <= j < |sig|
      ensures Returns(sig[j], j < n, sent[j], if j < n then results[j] else None, Replied(sig, sent, results, 0)[j])
    {
    }
  }
}
