/** Facts about sequences that several modules use. */
module Sequences {

  ghost predicate Distinct<T>(s: seq<T>) {
    forall a, b :: 0 <= a < b < |s| ==> s[a] != s[b]
  }

  ghost predicate Increasing(s: seq<int>) {
    forall a, b :: 0 <= a < b < |s| ==> s[a] < s[b]
  }

  ghost predicate SameElements(p: seq<nat>, q: seq<nat>) {
    forall i: nat :: i in p <==> i in q
  }

  function Iota(n: nat): (s: seq<nat>)
    ensures |s| == n && forall k :: 0 <= k < n ==> s[k] == k
    ensures forall i: nat :: i in s <==> i < n
  {
    var s := seq(n, k requires 0 <= k => k);
    assert forall i: nat :: i in s <==> i < n by {
      forall i: nat | i < n ensures i in s { assert s[i] == i; }
    }
    s
  }

  function Constant(n: nat, x: nat): (s: seq<nat>)
    ensures |s| == n && forall k :: 0 <= k < n ==> s[k] == x
  {
    seq(n, _ => x)
  }

  function IndexOf<T(==)>(s: seq<T>, x: T): (k: nat)
    requires x in s
    ensures k < |s| && s[k] == x && forall j :: 0 <= j < k ==> s[j] != x
  {
    if s[0] == x then 0 else 1 + IndexOf(s[1..], x)
  }

  lemma Reassociate<T>(a: seq<T>, b: seq<T>, c: seq<T>)
    ensures a + (b + c) == a + b + c
  {
  }

  lemma LastOfConcat<T>(a: seq<T>, b: seq<T>)
    requires b != []
    ensures var ab := a + b;
            ab[..|ab| - 1] == a + b[..|b| - 1] && ab[|ab| - 1] == b[|b| - 1]
  {
  }

  lemma FirstIsMember(q: seq<nat>)
    ensures q != [] ==> q[0] in q
  {
  }

  lemma RemoveElement(p: seq<nat>, q: seq<nat>, k: nat)
    requires p != [] && k < |q| && q[k] == p[|p| - 1]
    requires Distinct(p) && Distinct(q) && SameElements(p, q)
    ensures Distinct(q[..k] + q[k + 1..]) && SameElements(p[..|p| - 1], q[..k] + q[k + 1..])
  {
    var n, q' := |p| - 1, q[..k] + q[k + 1..];
    forall i: nat ensures i in p[..n] <==> i in q' {
      assert i in p[..n] <==> i in p && i != p[n];
      assert i in q' <==> i in q && i != q[k];
    }
  }
}
