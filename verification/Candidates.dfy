/** RCF's `Candidates`: which future waits at which address, as a list of pairs. */
module Candidates {
  import opened Prelude

  class Candidates<K(==), F> {
    var list: seq<(K, F)>

    /** No address is listed twice. */
    ghost predicate Valid()
      reads this
    {
      Distinct(list)
    }

    constructor ()
      ensures Valid() && Contents(list) == map[]
    {
      list := [];
    }

    /** The future at an address, looked for through the whole list: there is never
        a second one. */
    method Find(pv: K) returns (future: Option<F>)
      requires Valid()
      ensures future == Lookup(Contents(list), pv)
    {
      future := None;
      ContentsHasKeys(list);
      for i := 0 to |list|
        invariant future == Lookup(Contents(list[..i]), pv)
      {
        ContentsNext(list, i);
        if list[i].0 == pv {
          ContentsHasKeys(list[..i]);
          assert future.None?;
          future := Some(list[i].1);
        }
      }
      assert list[..|list|] == list;
    }

    /** The address must be listed: the assertion at the end of the loop is never
        reached then. */
    method Erase(pv: K)
      requires Valid() && pv in Contents(list)
      modifies this
      ensures Valid() && Contents(list) == old(Contents(list)) - {pv}
    {
      ContentsHasKeys(list);
      for i := 0 to |list|
        invariant list == old(list) && forall j | 0 <= j < i :: list[j].0 != pv
      {
        if list[i].0 == pv {
          ContentsWithout(list, i);
          list := list[..i] + list[i + 1..];
          return;
        }
      }
      assert false;
    }

    method Add(pv: K, future: F)
      requires Valid()
      modifies this
      ensures Valid() && Contents(list) == old(Contents(list))[pv := future]
    {
      for i := 0 to |list|
        invariant list == old(list) && forall j | 0 <= j < i :: list[j].0 != pv
      {
        if list[i].0 == pv {
          ContentsWith(list, i, future);
          list := list[i := (pv, future)];
          return;
        }
      }
      ContentsAppend(list, pv, future);
      list := list + [(pv, future)];
    }

    /** `unregisterFromCandidates`. */
    method Unregister(pv: K)
      requires Valid()
      modifies this
      ensures Valid() && Contents(list) == old(Contents(list)) - {pv}
    {
      var future := Find(pv);
      if future.Some? {
        Erase(pv);
      } else {
        assert Contents(list) == Contents(list) - {pv};
      }
    }

    /** `enrolFutures`: takes out the future of every argument that has one, in the
        order of the arguments. */
    method EnrolFutures(arguments: seq<K>) returns (enrolled: bool, futures: seq<F>)
      requires Valid()
      modifies this
      ensures Valid()
      ensures Enrolled(old(Contents(list)), arguments) == (Contents(list), futures)
      ensures enrolled <==> futures != []
    {
      enrolled, futures := false, [];
      ghost var m := Contents(list);
      for i := 0 to |arguments|
        invariant Valid() && Enrolled(m, arguments[..i]) == (Contents(list), futures)
        invariant enrolled <==> futures != []
      {
        assert arguments[..i + 1][..i] == arguments[..i];
        var pv := arguments[i];
        var future := Find(pv);
        if future.Some? {
          Erase(pv);
          enrolled, futures := true, futures + [future.value];
        }
      }
      assert arguments[..|arguments|] == arguments;
    }
  }

  function Lookup<K, F>(m: map<K, F>, k: K): Option<F>
  {
    if k in m then Some(m[k]) else None
  }

  /** The map that a list of pairs stands for. */
  function Contents<K, F>(list: seq<(K, F)>): map<K, F>
  {
    if list == [] then map[]
    else Contents(list[..|list| - 1])[list[|list| - 1].0 := list[|list| - 1].1]
  }

  lemma ContentsNext<K, F>(list: seq<(K, F)>, i: nat)
    requires i < |list|
    ensures Contents(list[..i + 1]) == Contents(list[..i])[list[i].0 := list[i].1]
  {
    assert list[..i + 1][..i] == list[..i];
  }

  lemma {:induction false} ContentsHasKeys<K, F>(list: seq<(K, F)>)
    ensures forall k :: k in Contents(list) <==> Listed(list, k)
    decreases list
  {
    if list != [] {
      ContentsHasKeys(list[..|list| - 1]);
      forall k
        ensures k in Contents(list) <==> Listed(list, k)
      {
        ListedFront(list, k);
      }
    }
  }

  ghost predicate Listed<K, F>(list: seq<(K, F)>, k: K)
  {
    exists i :: 0 <= i < |list| && list[i].0 == k
  }

  lemma ListedFront<K, F>(list: seq<(K, F)>, k: K)
    requires list != []
    ensures Listed(list, k) <==> Listed(list[..|list| - 1], k) || list[|list| - 1].0 == k
  {
    var front := list[..|list| - 1];
    if Listed(front, k) {
      var i :| 0 <= i < |front| && front[i].0 == k;
      assert list[i].0 == k;
    }
    if Listed(list, k) {
      var i :| 0 <= i < |list| && list[i].0 == k;
      if i < |front| {
        assert front[i].0 == k;
      }
    }
  }

  ghost predicate Distinct<K, F>(list: seq<(K, F)>)
  {
    forall i, j | 0 <= i < j < |list| :: list[i].0 != list[j].0
  }

  lemma {:induction false} ContentsWithout<K, F>(list: seq<(K, F)>, i: nat)
    requires i < |list| && Distinct(list)
    ensures Contents(list[..i] + list[i + 1..]) == Contents(list) - {list[i].0}
    decreases |list|
  {
    var front, last := list[..|list| - 1], list[|list| - 1];
    if i == |front| {
      assert list[..i] + list[i + 1..] == front;
      ContentsHasKeys(front);
      assert last.0 !in Contents(front);
    } else {
      ContentsWithout(front, i);
      assert (list[..i] + list[i + 1..])[..|list| - 2] == front[..i] + front[i + 1..];
    }
  }

  lemma ContentsAppend<K, F>(list: seq<(K, F)>, pv: K, future: F)
    requires Distinct(list) && forall j | 0 <= j < |list| :: list[j].0 != pv
    ensures Contents(list + [(pv, future)]) == Contents(list)[pv := future]
    ensures Distinct(list + [(pv, future)])
  {
    assert (list + [(pv, future)])[..|list|] == list;
  }

  lemma {:induction false} ContentsWith<K, F>(list: seq<(K, F)>, i: nat, future: F)
    requires i < |list| && Distinct(list)
    ensures Contents(list[i := (list[i].0, future)]) == Contents(list)[list[i].0 := future]
    ensures Distinct(list[i := (list[i].0, future)])
    decreases |list|
  {
    var front := list[..|list| - 1];
    if i < |front| {
      ContentsWith(front, i, future);
      assert list[i := (list[i].0, future)][..|front|] == front[i := (list[i].0, future)];
    } else {
      assert list[i := (list[i].0, future)][..|front|] == front;
    }
  }

  /** What enrolling leaves and takes: the futures of the arguments that are
      listed, each at its first occurrence. */
  function Enrolled<K, F>(m: map<K, F>, arguments: seq<K>): (map<K, F>, seq<F>)
  {
    if arguments == [] then (m, [])
    else
      var (rest, futures) := Enrolled(m, arguments[..|arguments| - 1]);
      var pv := arguments[|arguments| - 1];
      if pv in rest then (rest - {pv}, futures + [rest[pv]]) else (rest, futures)
  }

  function Elements<K>(s: seq<K>): set<K>
  {
    set k | k in s
  }

  lemma ElementsOfFront<K>(s: seq<K>)
    requires s != []
    ensures Elements(s) == Elements(s[..|s| - 1]) + {s[|s| - 1]}
  {
  }

  /** Enrolling takes out every address among the arguments and no other. */
  lemma {:induction false} EnrolledLeaves<K, F>(m: map<K, F>, arguments: seq<K>)
    ensures Enrolled(m, arguments).0 == m - Elements(arguments)
    decreases arguments
  {
    if arguments == [] {
      assert m - Elements(arguments) == m;
    } else {
      var front, pv := arguments[..|arguments| - 1], arguments[|arguments| - 1];
      EnrolledLeaves(m, front);
      ElementsOfFront(arguments);
      assert m - (Elements(front) + {pv}) == (m - Elements(front)) - {pv};
      assert pv !in m - Elements(front) ==> (m - Elements(front)) - {pv} == m - Elements(front);
    }
  }

  /** It hands over as many futures as it takes out addresses. */
  lemma {:induction false} EnrolledCounts<K, F>(m: map<K, F>, arguments: seq<K>)
    ensures |Enrolled(m, arguments).1| + |Enrolled(m, arguments).0| == |m|
    decreases arguments
  {
    if arguments != [] {
      EnrolledCounts(m, arguments[..|arguments| - 1]);
      RemoveOne(Enrolled(m, arguments[..|arguments| - 1]).0, arguments[|arguments| - 1]);
    }
  }

  lemma RemoveOne<K, F>(m: map<K, F>, k: K)
    ensures |m - {k}| == if k in m then |m| - 1 else |m|
  {
    assert (m - {k}).Keys == m.Keys - {k};
    assert |m| == |m.Keys| && |m - {k}| == |(m - {k}).Keys|;
  }

  /** The futures handed over are those of the arguments. */
  lemma {:induction false} EnrolledTakes<K, F>(m: map<K, F>, arguments: seq<K>, f: F)
    ensures f in Enrolled(m, arguments).1 <==> exists pv :: pv in arguments && pv in m && m[pv] == f
    decreases arguments
  {
    if arguments != [] {
      var front, last := arguments[..|arguments| - 1], arguments[|arguments| - 1];
      EnrolledTakes(m, front, f);
      EnrolledLeaves(m, front);
      var (rest, futures) := Enrolled(m, front);
      if f in futures {
        var pv :| pv in front && pv in m && m[pv] == f;
        assert pv in arguments;
      } else if exists pv :: pv in arguments && pv in m && m[pv] == f {
        var pv :| pv in arguments && pv in m && m[pv] == f;
        assert pv in front || pv == last;
      }
    }
  }
}
