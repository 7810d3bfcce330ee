/** Small facts about sequences used by several components. */
module Sequences {

  predicate Distinct<T(==)>(s: seq<T>) {
    forall i, j :: 0 <= i < j < |s| ==> s[i] != s[j]
  }

  /**
   * The distinct elements of `s` in order of first occurrence: the order in
   * which a `Dictionary` enumerates keys that were written in the order of `s`.
   */
  function Dedup<T(==)>(s: seq<T>): (r: seq<T>)
    ensures Distinct(r)
    ensures forall i :: 0 <= i < |r| ==> r[i] in s
    ensures forall i :: 0 <= i < |s| ==> s[i] in r
    ensures |r| <= |s|
  {
    if s == [] then []
    else
      var d := Dedup(s[..|s| - 1]);
      var last := s[|s| - 1];
      assert s == s[..|s| - 1] + [last];
      if last in d then d else d + [last]
  }

  /** Two different members of a sequence need at least two places. */
  lemma TwoMembers<T>(s: seq<T>, x: T, y: T)
    requires x in s && y in s && x != y
    ensures |s| >= 2
  {
  }

  /** A distinct sequence with at least two places has a member other than `x`. */
  lemma OtherMember<T>(s: seq<T>, x: T) returns (y: T)
    requires Distinct(s) && x in s && |s| >= 2
    ensures y in s && y != x
  {
    if s[0] == x { y := s[1]; } else { y := s[0]; }
  }

  /** A distinct sequence drawn from `universe` is no longer than the number of its members. */
  lemma {:induction false} DistinctWithin<T>(s: seq<T>, universe: set<T>)
    requires Distinct(s) && forall i :: 0 <= i < |s| ==> s[i] in universe
    ensures |s| <= |universe|
  {
    if s != [] {
      var rest := universe - {s[0]};
      assert forall i :: 0 <= i < |s[1..]| ==> s[1..][i] in rest by {
        forall i | 0 <= i < |s[1..]|
          ensures s[1..][i] in rest
        {
          assert s[1..][i] == s[i + 1] && s[i + 1] != s[0];
        }
      }
      DistinctWithin(s[1..], rest);
    }
  }

  /** `List.RemoveAt(k)`: the element at `k` is gone and the rest close up in order. */
  function RemoveAt<T>(s: seq<T>, k: nat): (r: seq<T>)
    requires k < |s|
    ensures |r| == |s| - 1
    ensures forall i :: 0 <= i < k ==> r[i] == s[i]
    ensures forall i :: k <= i < |r| ==> r[i] == s[i + 1]
    ensures multiset(r) + multiset{s[k]} == multiset(s)
  {
    assert s == s[..k] + [s[k]] + s[k + 1..];
    s[..k] + s[k + 1..]
  }

  /** `List.Insert(k, x)`: `x` lands at `k` and what was from `k` on moves up one place. */
  function Insert<T>(s: seq<T>, k: nat, x: T): (r: seq<T>)
    requires k <= |s|
    ensures |r| == |s| + 1 && r[k] == x
    ensures forall i :: 0 <= i < k ==> r[i] == s[i]
    ensures forall i :: k < i < |r| ==> r[i] == s[i - 1]
    ensures multiset(r) == multiset(s) + multiset{x}
  {
    assert s == s[..k] + s[k..];
    s[..k] + [x] + s[k..]
  }

  /** Two lists kept in lockstep, read as one list of pairs. */
  function Zip<A, B>(a: seq<A>, b: seq<B>): (r: seq<(A, B)>)
    requires |a| == |b|
    ensures |r| == |a|
    ensures forall i :: 0 <= i < |r| ==> r[i] == (a[i], b[i])
  {
    seq(|a|, i requires 0 <= i < |a| => (a[i], b[i]))
  }

  /** Removing the same place from both lists removes that pair. */
  lemma ZipRemoveAt<A, B>(a: seq<A>, b: seq<B>, k: nat)
    requires |a| == |b| && k < |a|
    ensures Zip(RemoveAt(a, k), RemoveAt(b, k)) == RemoveAt(Zip(a, b), k)
  {
  }
}
