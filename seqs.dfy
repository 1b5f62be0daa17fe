/** Order-preserving filters over sequences: what a scan that keeps or drops
    each element in turn produces. */
module Seqs {

  /** The elements `keep` accepts, in their original order. */
  function Filter<T(==,!new)>(s: seq<T>, keep: T -> bool): (r: seq<T>)
    ensures |r| <= |s|
  {
    if s == [] then []
    else
      var last := s[|s| - 1];
      Filter(s[..|s| - 1], keep) + if keep(last) then [last] else []
  }

  /** The elements `keep` refuses, in their original order. */
  function Reject<T(==,!new)>(s: seq<T>, keep: T -> bool): (r: seq<T>)
    ensures |r| <= |s|
  {
    if s == [] then []
    else
      var last := s[|s| - 1];
      Reject(s[..|s| - 1], keep) + if keep(last) then [] else [last]
  }

  /** The kept elements are exactly the elements `keep` accepts. */
  lemma {:induction false} FilterMembers<T(!new)>(s: seq<T>, keep: T -> bool)
    ensures forall x :: x in Filter(s, keep) <==> x in s && keep(x)
  {
    if s != [] {
      FilterMembers(s[..|s| - 1], keep);
      assert s == s[..|s| - 1] + [s[|s| - 1]];
    }
  }

  /** The refused elements are exactly the elements `keep` does not accept. */
  lemma {:induction false} RejectMembers<T(!new)>(s: seq<T>, keep: T -> bool)
    ensures forall x :: x in Reject(s, keep) <==> x in s && !keep(x)
  {
    if s != [] {
      RejectMembers(s[..|s| - 1], keep);
      assert s == s[..|s| - 1] + [s[|s| - 1]];
    }
  }

  /** Every element goes to exactly one of the two sides. */
  lemma {:induction false} FilterRejectPartition<T(!new)>(s: seq<T>, keep: T -> bool)
    ensures multiset(Filter(s, keep)) + multiset(Reject(s, keep)) == multiset(s)
  {
    if s != [] {
      var init, last := s[..|s| - 1], s[|s| - 1];
      FilterRejectPartition(init, keep);
      assert s == init + [last];
      assert multiset(s) == multiset(init) + multiset{last};
      if keep(last) {
        assert Filter(s, keep) == Filter(init, keep) + [last];
        assert Reject(s, keep) == Reject(init, keep);
      } else {
        assert Filter(s, keep) == Filter(init, keep);
        assert Reject(s, keep) == Reject(init, keep) + [last];
      }
    }
  }

  /** An accepted element after a run of refused ones is the first one kept. */
  lemma {:induction false} FilterFirst<T(!new)>(s: seq<T>, k: nat, keep: T -> bool)
    requires k < |s| && Filter(s[..k], keep) == [] && keep(s[k])
    ensures Filter(s, keep) != [] && Filter(s, keep)[0] == s[k]
    decreases |s|
  {
    if |s| == k + 1 {
      assert s[..|s| - 1] == s[..k];
    } else {
      var init := s[..|s| - 1];
      assert init[..k] == s[..k];
      FilterFirst(init, k, keep);
    }
  }

  /** Nothing is kept when `keep` refuses every element. */
  lemma {:induction false} FilterNone<T(!new)>(s: seq<T>, keep: T -> bool)
    requires forall i :: 0 <= i < |s| ==> !keep(s[i])
    ensures Filter(s, keep) == []
  {
    if s != [] {
      FilterNone(s[..|s| - 1], keep);
    }
  }

  /** When `keep` accepts exactly one element, that element alone is kept. */
  lemma {:induction false} FilterSingle<T(!new)>(s: seq<T>, keep: T -> bool, i: nat)
    requires i < |s| && keep(s[i])
    requires forall j :: 0 <= j < |s| && j != i ==> !keep(s[j])
    ensures Filter(s, keep) == [s[i]]
  {
    var init := s[..|s| - 1];
    if i == |s| - 1 {
      FilterNone(init, keep);
    } else {
      FilterSingle(init, keep, i);
    }
  }

  /** Scanning one more element extends the kept elements by it, if kept. */
  lemma FilterStep<T(!new)>(s: seq<T>, k: nat, keep: T -> bool)
    requires k < |s|
    ensures s[..k + 1] == s[..k] + [s[k]]
    ensures Filter(s[..k + 1], keep) == Filter(s[..k], keep) + if keep(s[k]) then [s[k]] else []
  {
    assert s[..k + 1][..k] == s[..k];
  }

  /** Scanning one more element extends the refused elements by it, if refused. */
  lemma RejectStep<T(!new)>(s: seq<T>, k: nat, keep: T -> bool)
    requires k < |s|
    ensures s[..k + 1] == s[..k] + [s[k]]
    ensures Reject(s[..k + 1], keep) == Reject(s[..k], keep) + if keep(s[k]) then [] else [s[k]]
  {
    assert s[..k + 1][..k] == s[..k];
  }

  /** `f` applied to every element, in order. */
  function Map<A, B>(s: seq<A>, f: A --> B): (r: seq<B>)
    requires forall i :: 0 <= i < |s| ==> f.requires(s[i])
    ensures |r| == |s|
  {
    if s == [] then [] else Map(s[..|s| - 1], f) + [f(s[|s| - 1])]
  }

  lemma {:induction false} MapAt<A, B>(s: seq<A>, f: A --> B, i: nat)
    requires forall i :: 0 <= i < |s| ==> f.requires(s[i])
    requires i < |s|
    ensures Map(s, f)[i] == f(s[i])
  {
    if i < |s| - 1 {
      MapAt(s[..|s| - 1], f, i);
    }
  }

  lemma {:induction false} MapAppend<A, B>(a: seq<A>, b: seq<A>, f: A --> B)
    requires forall i :: 0 <= i < |a| ==> f.requires(a[i])
    requires forall i :: 0 <= i < |b| ==> f.requires(b[i])
    ensures forall i :: 0 <= i < |a + b| ==> f.requires((a + b)[i])
    ensures Map(a + b, f) == Map(a, f) + Map(b, f)
  {
    if b == [] {
      assert a + b == a;
    } else {
      var init := b[..|b| - 1];
      MapAppend(a, init, f);
      assert (a + b)[..|a + b| - 1] == a + init;
    }
  }

  /** Refusing elements before or after mapping them gives the same result
      when the two tests agree on every element. */
  lemma {:induction false} MapReject<A(!new), B(!new)>(s: seq<A>, f: A --> B, keepA: A -> bool, keepB: B -> bool)
    requires forall i :: 0 <= i < |s| ==> f.requires(s[i]) && keepA(s[i]) == keepB(f(s[i]))
    ensures forall i :: 0 <= i < |Reject(s, keepA)| ==> f.requires(Reject(s, keepA)[i])
    ensures Map(Reject(s, keepA), f) == Reject(Map(s, f), keepB)
  {
    if s != [] {
      var init, last := s[..|s| - 1], s[|s| - 1];
      MapReject(init, f, keepA, keepB);
      var k := Reject(init, keepA);
      var m := Map(s, f);
      assert m[..|m| - 1] == Map(init, f) && m[|m| - 1] == f(last);
      assert keepA(last) == keepB(f(last));
      if keepA(last) {
        assert Reject(s, keepA) == k;
        assert Reject(m, keepB) == Reject(Map(init, f), keepB);
      } else {
        assert Reject(s, keepA) == k + [last];
        assert Reject(m, keepB) == Reject(Map(init, f), keepB) + [f(last)];
        assert (k + [last])[..|k|] == k;
        assert Map(k + [last], f) == Map(k, f) + [f(last)];
      }
    }
  }
}
