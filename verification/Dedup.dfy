/** Making the dependency lists of an operation disjoint and free of duplicates: DeduplicateVarHandle in
    include/mxnet/engine.h. */
module Dedup {
  import opened Sequences

  ghost predicate Ordered(s: seq<int>) { forall a, b :: 0 <= a < b < |s| ==> s[a] <= s[b] }

  // ---------- Sorting, as the standard library promises it ----------

  lemma OrderedCons(x: int, s: seq<int>)
    requires Ordered(s) && (s != [] ==> x <= s[0])
    ensures Ordered([x] + s)
  {
  }

  function InsertInto(x: int, s: seq<int>): (r: seq<int>)
    requires Ordered(s)
    ensures multiset(r) == multiset(s) + multiset{x}
    ensures Ordered(r) && |r| > 0 && r[0] == if s == [] || x <= s[0] then x else s[0]
  {
    if s == [] || x <= s[0] then
      OrderedCons(x, s);
      [x] + s
    else
      assert s == [s[0]] + s[1..];
      var rest := InsertInto(x, s[1..]);
      OrderedCons(s[0], rest);
      [s[0]] + rest
  }

  function Sorted(s: seq<int>): (r: seq<int>)
    ensures Ordered(r) && multiset(r) == multiset(s)
  {
    if s == [] then [] else assert s == [s[0]] + s[1..]; InsertInto(s[0], Sorted(s[1..]))
  }

  lemma SortedMembers(s: seq<int>, x: int)
    ensures x in Sorted(s) <==> x in s
  {
    assert x in Sorted(s) <==> x in multiset(Sorted(s));
    assert x in s <==> x in multiset(s);
  }

  // ---------- Compaction in place ----------

  /** Writing has reached `top`, reading has reached `pos`; nothing unread has been overwritten, and what has
      been written is the increasing list of the elements read so far that are not to be dropped. */
  ghost predicate Compacted(was: seq<int>, now: seq<int>, top: nat, pos: nat, dropped: seq<int>) {
    && top <= pos <= |was| == |now|
    && now[pos..] == was[pos..]
    && Increasing(now[..top])
    && (forall x :: x in now[..top] <==> x in was[..pos] && x !in dropped)
  }

  lemma IncreasingAppend(s: seq<int>, x: int)
    requires Increasing(s) && forall y :: y in s ==> y < x
    ensures Increasing(s + [x])
  {
    assert forall k :: 0 <= k < |s| ==> s[k] in s;
  }

  /** Keeping the element at `pos`. */
  lemma KeepElement(was: seq<int>, now: seq<int>, top: nat, pos: nat, dropped: seq<int>)
    requires Compacted(was, now, top, pos, dropped) && pos < |was| && was[pos] !in dropped
    requires forall x :: x in now[..top] ==> x < was[pos]
    ensures Compacted(was, now[top := now[pos]], top + 1, pos + 1, dropped)
  {
    var next := now[top := now[pos]];
    assert now[pos] == now[pos..][0] == was[pos];
    assert next[..top + 1] == now[..top] + [was[pos]];
    IncreasingAppend(now[..top], was[pos]);
    assert next[pos + 1..] == now[pos..][1..] == was[pos + 1..];
    assert was[..pos + 1] == was[..pos] + [was[pos]];
  }

  /** Passing over the element at `pos`, which is to be dropped or already kept. */
  lemma SkipElement(was: seq<int>, now: seq<int>, top: nat, pos: nat, dropped: seq<int>)
    requires Compacted(was, now, top, pos, dropped) && pos < |was| && (was[pos] in dropped || was[pos] in now[..top])
    ensures Compacted(was, now, top, pos + 1, dropped)
  {
    assert now[pos + 1..] == now[pos..][1..] == was[pos + 1..];
    assert was[..pos + 1] == was[..pos] + [was[pos]];
  }

  lemma AllCompacted(was: seq<int>, now: seq<int>, top: nat, dropped: seq<int>)
    requires Compacted(was, now, top, |was|, dropped)
    ensures Increasing(now[..top]) && forall x :: x in now[..top] <==> x in was && x !in dropped
  {
    assert was[..|was|] == was;
  }

  /** A growable list of handles, changed in place. */
  class HandleList {
    var items: seq<int>

    constructor (items: seq<int>)
      ensures this.items == items
    {
      this.items := items;
    }

    method Sort()
      modifies this
      ensures Ordered(items) && multiset(items) == multiset(old(items)) && forall x :: x in items <==> x in old(items)
    {
      forall x ensures x in Sorted(items) <==> x in items {
        SortedMembers(items, x);
      }
      items := Sorted(items);
    }

    method Resize(n: nat)
      requires n <= |items|
      modifies this
      ensures items == old(items)[..n]
    {
      items := items[..n];
    }

    /** std::unique and the resize after it, on an ordered list. */
    method DropRepeats()
      requires Ordered(items)
      modifies this
      ensures Increasing(items) && forall x :: x in items <==> x in old(items)
    {
      ghost var was := items;
      var top, pos := 0, 0;
      while pos < |items|
        invariant Compacted(was, items, top, pos, [])
        invariant pos > 0 ==> top > 0 && items[top - 1] == was[pos - 1]
      {
        assert items[pos] == items[pos..][0] == was[pos];
        if top > 0 && items[top - 1] == items[pos] {
          assert was[pos] == items[..top][top - 1];
          SkipElement(was, items, top, pos, []);
        } else {
          LastIsLargest(was, items, top, pos, []);
          KeepElement(was, items, top, pos, []);
          items := items[top := items[pos]];
          top := top + 1;
        }
        pos := pos + 1;
      }
      AllCompacted(was, items, top, []);
      Resize(top);
    }
  }

  lemma LastIsLargest(was: seq<int>, now: seq<int>, top: nat, pos: nat, dropped: seq<int>)
    requires Ordered(was) && Compacted(was, now, top, pos, dropped) && pos < |was|
    requires top > 0 ==> now[top - 1] != was[pos]
    requires pos > 0 ==> top > 0 && now[top - 1] == was[pos - 1]
    ensures forall x :: x in now[..top] ==> x < was[pos]
  {
    forall x | x in now[..top] ensures x < was[pos] {
      assert x in was[..pos];
      assert was[pos - 1] < was[pos];
    }
  }

  // ---------- The whole operation ----------

  /** What the scan of the write list knows before read number pos: the writes before wit are all smaller. */
  ghost predicate Behind(writes: seq<int>, wit: nat, was: seq<int>, pos: nat) {
    wit <= |writes| && (pos < |was| ==> forall k :: 0 <= k < wit ==> writes[k] < was[pos])
  }

  lemma FoundOrAbsent(writes: seq<int>, wit: nat, r: int)
    requires Increasing(writes) && wit <= |writes| && (forall k :: 0 <= k < wit ==> writes[k] < r)
    requires wit < |writes| ==> writes[wit] >= r
    ensures r in writes <==> wit < |writes| && writes[wit] == r
  {
  }

  /** Both lists end up increasing; the writes keep their elements, the reads lose those that are also written. */
  method Deduplicate(readVars: HandleList, writeVars: HandleList)
    requires readVars != writeVars
    modifies readVars, writeVars
    ensures Increasing(writeVars.items) && forall x :: x in writeVars.items <==> x in old(writeVars.items)
    ensures Increasing(readVars.items)
    ensures forall x :: x in readVars.items <==> x in old(readVars.items) && x !in old(writeVars.items)
  {
    writeVars.Sort();
    writeVars.DropRepeats();
    readVars.Sort();
    readVars.DropRepeats();
    ghost var was := readVars.items;
    var w := writeVars.items;
    var wit, top, pos := 0, 0, 0;
    while pos < |readVars.items|
      invariant writeVars.items == w
      invariant Compacted(was, readVars.items, top, pos, w) && Behind(w, wit, was, pos)
    {
      assert readVars.items[pos] == readVars.items[pos..][0] == was[pos];
      while wit < |w| && w[wit] < readVars.items[pos]
        invariant wit <= |w| && forall k :: 0 <= k < wit ==> w[k] < was[pos]
      {
        wit := wit + 1;
      }
      FoundOrAbsent(w, wit, was[pos]);
      if wit == |w| || w[wit] != readVars.items[pos] {
        KeptAreSmaller(was, readVars.items, top, pos, w);
        KeepElement(was, readVars.items, top, pos, w);
        readVars.items := readVars.items[top := readVars.items[pos]];
        top := top + 1;
      } else {
        SkipElement(was, readVars.items, top, pos, w);
      }
      pos := pos + 1;
    }
    AllCompacted(was, readVars.items, top, w);
    readVars.Resize(top);
  }

  lemma KeptAreSmaller(was: seq<int>, now: seq<int>, top: nat, pos: nat, dropped: seq<int>)
    requires Increasing(was) && Compacted(was, now, top, pos, dropped) && pos < |was|
    ensures forall x :: x in now[..top] ==> x < was[pos]
  {
    forall x | x in now[..top] ensures x < was[pos] {
      assert x in was[..pos];
    }
  }
}
