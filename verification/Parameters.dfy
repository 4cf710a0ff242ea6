/** The parameter packs of a remote call, `ClientParameters` and
    `ServerParameters`, which go over their parameters in order. */
module Parameters {
  import opened Prelude
  import opened Marshal

  class ArchiveOut {
    var data: Bytes

    constructor ()
      ensures data == []
    {
      data := [];
    }

    method Write(s: Bytes)
      modifies this
      ensures data == old(data) + s
    {
      data := data + s;
    }
  }

  class ArchiveIn {
    var rest: Bytes  // what getRemainingArchiveLength() counts

    constructor (data: Bytes)
      ensures rest == data
    {
      rest := data;
    }
  }

  class ClientParameters<V(!new)> {
    const sig: Signature<V>
    var slots: seq<Slot<V>>

    constructor (sig: Signature<V>, arguments: seq<Slot<V>>)
      requires AllHold(sig, arguments)
      ensures this.sig == sig && slots == arguments
    {
      this.sig, slots := sig, arguments;
    }

    method Write(out: ArchiveOut, version: int)
      requires AllHold(sig, slots)
      modifies out
      ensures out.data == old(out.data) + WriteIns(sig, version, slots, 0)
    {
      for i := 0 to |sig|
        invariant out.data + WriteIns(sig, version, slots, i) == old(out.data) + WriteIns(sig, version, slots, 0)
      {
        if IsInParameter(sig[i].kind) {
          ghost var before := out.data;
          out.Write(WriteIn(sig[i], version, slots[i]));
          assert before + WriteIns(sig, version, slots, i) == out.data + WriteIns(sig, version, slots, i + 1);
        }
      }
    }

    method Read(input: ArchiveIn) returns (ok: bool)
      requires |slots| == |sig|
      modifies this, input
      ensures match ReadOuts(sig, old(input.rest), old(slots), 0)
              case Fail => !ok
              case Got(read, rest) => ok && slots == read && input.rest == rest
    {
      for i := 0 to |sig|
        invariant |slots| == |sig|
        invariant ReadOuts(sig, old(input.rest), old(slots), 0) == ReadOuts(sig, input.rest, slots, i)
      {
        if IsOutParameter(sig[i].kind) {
          match ReadOut(sig[i], input.rest, slots[i])
          case Fail => return false;
          case Got(slot, rest) =>
            slots := slots[i := slot];
            input.rest := rest;
        }
      }
      return true;
    }
  }

  class ServerParameters<V(!new)> {
    const sig: Signature<V>
    var slots: seq<Slot<V>>

    constructor (sig: Signature<V>)
      ensures this.sig == sig && slots == Initials(sig)
    {
      this.sig, slots := sig, Initials(sig);
    }

    method Read(input: ArchiveIn, version: int) returns (ok: bool)
      requires slots == Initials(sig)
      modifies this, input
      ensures match ReadIns(sig, version, old(input.rest), Initials(sig), 0)
              case Fail => !ok
              case Got(read, rest) => ok && slots == read && input.rest == rest
    {
      for i := 0 to |sig|
        invariant |slots| == |sig|
        invariant ReadIns(sig, version, old(input.rest), Initials(sig), 0) == ReadIns(sig, version, input.rest, slots, i)
      {
        if IsInParameter(sig[i].kind) {
          match ReadIn(sig[i], version, input.rest)
          case Fail => return false;
          case Got(slot, rest) =>
            slots := slots[i := slot];
            input.rest := rest;
        }
      }
      return true;
    }

    method Write(out: ArchiveOut)
      requires AllHold(sig, slots)
      modifies out
      ensures out.data == old(out.data) + WriteOuts(sig, slots, 0)
    {
      for i := 0 to |sig|
        invariant out.data + WriteOuts(sig, slots, i) == old(out.data) + WriteOuts(sig, slots, 0)
      {
        if IsOutParameter(sig[i].kind) {
          ghost var before := out.data;
          out.Write(WriteOut(sig[i], slots[i]));
          assert before + WriteOuts(sig, slots, i) == out.data + WriteOuts(sig, slots, i + 1);
        }
      }
    }
  }
}
