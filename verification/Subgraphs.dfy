/** Cutting an ordered graph into supported runs: supportsModel in 3rdparty/onnx-tensorrt/ModelImporter.cpp. */
module Subgraphs {
  import opened Sequences
  import opened Toposort

  /** One entry of the collection handed back to the caller. */
  datatype SubGraph = SubGraph(nodes: seq<nat>, supported: bool)

  /** What the earlier attempt to parse left behind; node -1 marks a fault in a graph input named `file`. */
  datatype ParserError = ParserError(node: int, file: string)

  const NO_NODE: nat := 0xFFFF_FFFF_FFFF_FFFF

  // ---------- Specification ----------

  function Flatten<T>(runs: seq<seq<T>>): seq<T> {
    if runs == [] then [] else Flatten(runs[..|runs| - 1]) + runs[|runs| - 1]
  }

  function NodesOf(collection: seq<SubGraph>): seq<seq<nat>> {
    seq(|collection|, k requires 0 <= k < |collection| => collection[k].nodes)
  }

  /** The elements of `order` that satisfy `keep`, in order. */
  function Kept(order: seq<nat>, keep: nat -> bool): seq<nat> {
    if order == [] then []
    else Kept(order[..|order| - 1], keep) + (if keep(order[|order| - 1]) then [order[|order| - 1]] else [])
  }

  ghost predicate NonEmpty(runs: seq<seq<nat>>) {
    forall g :: 0 <= g < |runs| ==> |runs[g]| > 0
  }

  /** Blocks of consecutive indices, each separated from the next by at least one missing index. */
  ghost predicate Intervals(runs: seq<seq<nat>>) {
    && NonEmpty(runs)
    && (forall g, k :: 0 <= g < |runs| && 0 <= k < |runs[g]| ==> runs[g][k] == runs[g][0] + k)
    && (forall g, h :: 0 <= g < h < |runs| ==> runs[g][0] + |runs[g]| < runs[h][0])
  }

  /** What becomes of one block when node `e` is cut out: blocks before `e` count as supported, blocks after it
      do not, except that a block which began with `e` passes its mark on to its tail. */
  ghost function Pieces(run: seq<nat>, e: nat): seq<SubGraph>
    requires |run| > 0
  {
    if run[0] > e then [SubGraph(run, false)]
    else if run[0] + |run| <= e then [SubGraph(run, true)]
    else
      var before, after := run[..e - run[0]], run[e - run[0] + 1..];
      (if before == [] then [] else [SubGraph(before, true)]) +
      (if after == [] then [] else [SubGraph(after, before == [])])
  }

  ghost function Split(runs: seq<seq<nat>>, e: nat): seq<SubGraph>
    requires NonEmpty(runs)
  {
    if runs == [] then [] else Split(runs[..|runs| - 1], e) + Pieces(runs[|runs| - 1], e)
  }

  function Unmarked(runs: seq<seq<nat>>): seq<SubGraph> {
    seq(|runs|, k requires 0 <= k < |runs| => SubGraph(runs[k], false))
  }

  ghost function Marked(runs: seq<seq<nat>>): seq<SubGraph> {
    seq(|runs|, k requires 0 <= k < |runs| => SubGraph(runs[k], true))
  }

  // ---------- Properties of the specification ----------

  lemma {:induction false} SplitConcat(a: seq<seq<nat>>, b: seq<seq<nat>>, e: nat)
    requires NonEmpty(a) && NonEmpty(b)
    ensures NonEmpty(a + b) && Split(a + b, e) == Split(a, e) + Split(b, e)
  {
    if b == [] {
      assert a + b == a;
    } else {
      var init, last := b[..|b| - 1], b[|b| - 1];
      SplitConcat(a, init, e);
      LastOfConcat(a, b);
      Reassociate(Split(a, e), Split(init, e), Pieces(last, e));
    }
  }

  /** Blocks that all start after the cut stay as they are, unmarked. */
  lemma {:induction false} SplitAfter(runs: seq<seq<nat>>, e: nat)
    requires NonEmpty(runs) && forall g :: 0 <= g < |runs| ==> runs[g][0] > e
    ensures Split(runs, e) == Unmarked(runs)
  {
    if runs != [] {
      SplitAfter(runs[..|runs| - 1], e);
      assert Unmarked(runs) == Unmarked(runs[..|runs| - 1]) + [SubGraph(runs[|runs| - 1], false)];
    }
  }

  /** Blocks that all end before the cut stay as they are, marked. */
  lemma {:induction false} SplitBefore(runs: seq<seq<nat>>, e: nat)
    requires NonEmpty(runs) && forall g :: 0 <= g < |runs| ==> runs[g][0] + |runs[g]| <= e
    ensures Split(runs, e) == Marked(runs)
  {
    if runs != [] {
      SplitBefore(runs[..|runs| - 1], e);
      assert Marked(runs) == Marked(runs[..|runs| - 1]) + [SubGraph(runs[|runs| - 1], true)];
    }
  }

  // ---------- Building the runs ----------

  /** Node x joins the last run, or opens a new one. */
  ghost function Grown(runs: seq<seq<nat>>, newRun: bool, x: nat): seq<seq<nat>>
    requires newRun || runs != []
  {
    if newRun then runs + [[x]] else runs[..|runs| - 1] + [runs[|runs| - 1] + [x]]
  }

  /** The runs of supported nodes of any order. */
  ghost function Runs(order: seq<nat>, keep: nat -> bool): (runs: seq<seq<nat>>)
    ensures order != [] && keep(order[|order| - 1]) ==> runs != []
  {
    if order == [] then []
    else
      var init, x := order[..|order| - 1], order[|order| - 1];
      if keep(x) then Grown(Runs(init, keep), StartsNew(init, keep), x) else Runs(init, keep)
  }

  /** A supported node after these nodes opens a new run. */
  ghost predicate StartsNew(order: seq<nat>, keep: nat -> bool) {
    order == [] || !keep(order[|order| - 1])
  }

  lemma RunsNext(order: seq<nat>, keep: nat -> bool, p: nat)
    requires p < |order|
    ensures StartsNew(order[..p + 1], keep) == !keep(order[p])
    ensures Runs(order[..p + 1], keep) ==
              if keep(order[p]) then Grown(Runs(order[..p], keep), StartsNew(order[..p], keep), order[p])
              else Runs(order[..p], keep)
  {
    assert order[..p + 1][..p] == order[..p];
  }

  lemma GrownFlattens(runs: seq<seq<nat>>, newRun: bool, x: nat)
    requires (newRun || runs != []) && NonEmpty(runs)
    ensures NonEmpty(Grown(runs, newRun, x)) && Flatten(Grown(runs, newRun, x)) == Flatten(runs) + [x]
  {
    var next := Grown(runs, newRun, x);
    assert next[..|next| - 1] == if newRun then runs else runs[..|runs| - 1];
  }

  lemma GrowInPlace(runs: seq<seq<nat>>, newRun: bool, x: nat)
    requires newRun || runs != []
    ensures var wider := if newRun then runs + [[]] else runs;
            wider[|wider| - 1 := wider[|wider| - 1] + [x]] == Grown(runs, newRun, x)
  {
    assert [] + [x] == [x];
  }

  /** The runs built from 0..p-1: intervals, the last one still open at p unless a gap was just met. */
  ghost predicate OpenAt(runs: seq<seq<nat>>, newRun: bool, p: nat) {
    && Intervals(runs)
    && (runs != [] ==>
          var last := runs[|runs| - 1];
          if newRun then last[0] + |last| < p else last[0] + |last| == p)
  }

  lemma GrownStaysOpen(runs: seq<seq<nat>>, newRun: bool, p: nat)
    requires (newRun || runs != []) && OpenAt(runs, newRun, p)
    ensures OpenAt(Grown(runs, newRun, p), false, p + 1)
  {
    if newRun {
      OpensNew(runs, p);
    } else {
      GrowsLast(runs, p);
    }
  }

  lemma OpensNew(runs: seq<seq<nat>>, p: nat)
    requires OpenAt(runs, true, p)
    ensures OpenAt(runs + [[p]], false, p + 1)
  {
  }

  lemma GrowsLast(runs: seq<seq<nat>>, p: nat)
    requires runs != [] && OpenAt(runs, false, p)
    ensures OpenAt(runs[..|runs| - 1] + [runs[|runs| - 1] + [p]], false, p + 1)
  {
    var n, next := |runs| - 1, runs[..|runs| - 1] + [runs[|runs| - 1] + [p]];
    assert next[n] == runs[n] + [p] && forall g :: 0 <= g < n ==> next[g] == runs[g];
  }

  /** The runs built from the first p nodes of the order. */
  ghost predicate RunsOf(order: seq<nat>, keep: nat -> bool, p: nat, runs: seq<seq<nat>>, newRun: bool, all: bool)
    requires p <= |order|
  {
    && NonEmpty(runs) && (newRun || runs != [])
    && Flatten(runs) == Kept(order[..p], keep)
    && (all ==> newRun == (p == 0) && runs == if p == 0 then [] else [order[..p]])
    && (order == Iota(|order|) ==> OpenAt(runs, newRun, p))
  }

  lemma KeptNext(order: seq<nat>, keep: nat -> bool, p: nat)
    requires p < |order|
    ensures Kept(order[..p + 1], keep) == Kept(order[..p], keep) + (if keep(order[p]) then [order[p]] else [])
  {
    var next := order[..p + 1];
    assert next[..|next| - 1] == order[..p] && next[|next| - 1] == order[p];
  }

  /** As long as every node is kept there is one run. */
  lemma OneRunGrows(order: seq<nat>, p: nat, runs: seq<seq<nat>>)
    requires p < |order| && runs == if p == 0 then [] else [order[..p]]
    ensures Grown(runs, p == 0, order[p]) == [order[..p + 1]]
  {
    assert order[..p + 1] == order[..p] + [order[p]];
    if p > 0 {
      assert runs[..0] == [];
    } else {
      assert order[..1] == [order[0]];
    }
  }

  lemma KeepNode(order: seq<nat>, keep: nat -> bool, p: nat, runs: seq<seq<nat>>, newRun: bool, all: bool)
    requires p < |order| && RunsOf(order, keep, p, runs, newRun, all) && keep(order[p])
    ensures RunsOf(order, keep, p + 1, Grown(runs, newRun, order[p]), false, all)
  {
    KeptNext(order, keep, p);
    GrownFlattens(runs, newRun, order[p]);
    if all {
      OneRunGrows(order, p, runs);
    }
    if order == Iota(|order|) {
      GrownStaysOpen(runs, newRun, p);
    }
  }

  lemma SkipNode(order: seq<nat>, keep: nat -> bool, p: nat, runs: seq<seq<nat>>, newRun: bool, all: bool)
    requires p < |order| && RunsOf(order, keep, p, runs, newRun, all) && !keep(order[p])
    ensures RunsOf(order, keep, p + 1, runs, true, false)
  {
    KeptNext(order, keep, p);
  }

  ghost predicate AllKept(order: seq<nat>, keep: nat -> bool) {
    forall x :: x in order ==> keep(x)
  }

  lemma AllKeptNext(order: seq<nat>, keep: nat -> bool, p: nat)
    requires p < |order|
    ensures AllKept(order[..p + 1], keep) <==> AllKept(order[..p], keep) && keep(order[p])
  {
    assert order[..p + 1] == order[..p] + [order[p]];
  }

  /** The runs have what the loop below keeps about them. */
  lemma {:induction false} RunsRight(order: seq<nat>, keep: nat -> bool, p: nat)
    requires p <= |order|
    ensures RunsOf(order, keep, p, Runs(order[..p], keep), StartsNew(order[..p], keep), AllKept(order[..p], keep))
  {
    if p > 0 {
      var q := p - 1;
      RunsRight(order, keep, q);
      RunsNext(order, keep, q);
      AllKeptNext(order, keep, q);
      if keep(order[q]) {
        KeepNode(order, keep, q, Runs(order[..q], keep), StartsNew(order[..q], keep), AllKept(order[..q], keep));
      } else {
        SkipNode(order, keep, q, Runs(order[..q], keep), StartsNew(order[..q], keep), AllKept(order[..q], keep));
      }
    }
  }

  lemma AllRuns(order: seq<nat>, keep: nat -> bool)
    ensures NonEmpty(Runs(order, keep)) && Flatten(Runs(order, keep)) == Kept(order, keep)
    ensures order == Iota(|order|) ==> Intervals(Runs(order, keep))
    ensures AllKept(order, keep) ==> Runs(order, keep) == if order == [] then [] else [order]
  {
    assert order[..|order|] == order;
    RunsRight(order, keep, |order|);
  }

  /** Run g is the segment of the order that starts at starts[g], all of its nodes are kept, and between two runs, as
      before position p unless the last run is still open there, at least one node is not. */
  ghost predicate Segments(order: seq<nat>, keep: nat -> bool, p: nat, runs: seq<seq<nat>>, open: bool,
                           starts: seq<nat>) {
    && p <= |order| && |starts| == |runs|
    && (forall g :: 0 <= g < |runs| ==>
          && |runs[g]| > 0 && starts[g] + |runs[g]| <= p
          && runs[g] == order[starts[g]..starts[g] + |runs[g]|] && AllKept(runs[g], keep))
    && (forall g, h :: 0 <= g < h < |runs| ==> starts[g] + |runs[g]| < starts[h])
    && (runs != [] ==> var last := |runs| - 1;
          if open then starts[last] + |runs[last]| == p else starts[last] + |runs[last]| < p)
  }

  lemma SegmentStarts(order: seq<nat>, keep: nat -> bool, p: nat, runs: seq<seq<nat>>, starts: seq<nat>)
    requires p < |order| && keep(order[p]) && Segments(order, keep, p, runs, false, starts)
    ensures Segments(order, keep, p + 1, runs + [[order[p]]], true, starts + [p])
  {
    assert order[p..p + 1] == [order[p]];
  }

  lemma SegmentGrows(order: seq<nat>, keep: nat -> bool, p: nat, runs: seq<seq<nat>>, starts: seq<nat>)
    requires p < |order| && keep(order[p]) && runs != [] && Segments(order, keep, p, runs, true, starts)
    ensures Segments(order, keep, p + 1, runs[..|runs| - 1] + [runs[|runs| - 1] + [order[p]]], true, starts)
  {
    var n := |runs| - 1;
    var next := runs[..n] + [runs[n] + [order[p]]];
    assert next[n] == order[starts[n]..p + 1];
    forall g | 0 <= g < n ensures next[g] == runs[g] {}
  }

  lemma SegmentEnds(order: seq<nat>, keep: nat -> bool, p: nat, runs: seq<seq<nat>>, open: bool, starts: seq<nat>)
    requires p < |order| && Segments(order, keep, p, runs, open, starts)
    ensures Segments(order, keep, p + 1, runs, false, starts)
  {
  }

  /** The runs of any order are its maximal segments of kept nodes. */
  lemma {:induction false} RunsAreSegments(order: seq<nat>, keep: nat -> bool, p: nat) returns (starts: seq<nat>)
    requires p <= |order|
    ensures Segments(order, keep, p, Runs(order[..p], keep), !StartsNew(order[..p], keep), starts)
  {
    if p == 0 {
      starts := [];
    } else {
      var q := p - 1;
      starts := RunsAreSegments(order, keep, q);
      RunsNext(order, keep, q);
      StartsNewRight(order[..q], keep);
      var runs := Runs(order[..q], keep);
      if keep(order[q]) {
        if StartsNew(order[..q], keep) {
          SegmentStarts(order, keep, q, runs, starts);
          starts := starts + [q];
        } else {
          SegmentGrows(order, keep, q, runs, starts);
        }
      } else {
        SegmentEnds(order, keep, q, runs, !StartsNew(order[..q], keep), starts);
      }
    }
  }

  lemma StartsNewRight(order: seq<nat>, keep: nat -> bool)
    ensures StartsNew(order, keep) || Runs(order, keep) != []
  {
  }

  method BuildRuns(order: seq<nat>, keep: nat -> bool) returns (runs: seq<seq<nat>>, all: bool)
    ensures runs == Runs(order, keep) && NonEmpty(runs) && Flatten(runs) == Kept(order, keep)
    ensures all <==> forall x :: x in order ==> keep(x)
    ensures order == Iota(|order|) ==> Intervals(runs)
    ensures all ==> runs == if order == [] then [] else [order]
  {
    runs, all := [], true;
    var newRun := true;
    for p := 0 to |order|
      invariant runs == Runs(order[..p], keep) && newRun == StartsNew(order[..p], keep)
      invariant all == AllKept(order[..p], keep)
    {
      var x := order[p];
      StartsNewRight(order[..p], keep);
      RunsNext(order, keep, p);
      AllKeptNext(order, keep, p);
      if keep(x) {
        GrowInPlace(runs, newRun, x);
        ghost var next := Grown(runs, newRun, x);
        if newRun {
          runs := runs + [[]];
          newRun := false;
        }
        runs := runs[|runs| - 1 := runs[|runs| - 1] + [x]];
        assert runs == next;
      } else {
        newRun, all := true, false;
      }
    }
    assert order[..|order|] == order;
    AllRuns(order, keep);
  }

  // ---------- Cutting at the failing node ----------

  /** The search has passed g whole blocks, all before the cut. */
  ghost predicate Passed(runs: seq<seq<nat>>, collection: seq<SubGraph>, g: nat, e: nat)
    requires NonEmpty(runs)
  {
    && g <= |runs| == |collection|
    && (forall h :: 0 <= h < g ==> runs[h][0] + |runs[h]| <= e)
    && (forall h :: 0 <= h < |runs| ==> collection[h] == SubGraph(runs[h], h < g))
  }

  /** The cut is complete and everything from position g on starts after it. */
  ghost predicate Finished(runs: seq<seq<nat>>, collection: seq<SubGraph>, g: nat, e: nat)
    requires NonEmpty(runs)
  {
    && collection == Split(runs, e)
    && (forall h :: g <= h < |collection| ==> |collection[h].nodes| > 0 && collection[h].nodes[0] > e)
  }

  lemma LaterBlocks(runs: seq<seq<nat>>, g: nat, e: nat)
    requires Intervals(runs) && g < |runs| && e < runs[g][0] + |runs[g]|
    ensures forall h :: g < h < |runs| ==> runs[h][0] > e
  {
  }

  lemma SplitOne(run: seq<nat>, e: nat)
    requires |run| > 0
    ensures Split([run], e) == Pieces(run, e)
  {
    assert [run][..0] == [];
    assert Split([], e) + Pieces(run, e) == Pieces(run, e);
  }

  lemma SplitParts(before: seq<seq<nat>>, run: seq<nat>, rest: seq<seq<nat>>, e: nat)
    requires NonEmpty(before) && |run| > 0 && NonEmpty(rest)
    ensures NonEmpty(before + [run] + rest)
    ensures Split(before + [run] + rest, e) == Split(before, e) + Pieces(run, e) + Split(rest, e)
  {
    SplitOne(run, e);
    SplitConcat(before, [run], e);
    SplitConcat(before + [run], rest, e);
  }

  lemma PartsOf(runs: seq<seq<nat>>, g: nat)
    requires g < |runs|
    ensures runs == runs[..g] + [runs[g]] + runs[g + 1..]
  {
  }

  lemma SplitAround(runs: seq<seq<nat>>, g: nat, e: nat)
    requires NonEmpty(runs) && g < |runs|
    requires forall h :: 0 <= h < g ==> runs[h][0] + |runs[h]| <= e
    requires forall h :: g < h < |runs| ==> runs[h][0] > e
    ensures Split(runs, e) == Marked(runs[..g]) + Pieces(runs[g], e) + Unmarked(runs[g + 1..])
  {
    SplitBefore(runs[..g], e);
    SplitAfter(runs[g + 1..], e);
    SplitParts(runs[..g], runs[g], runs[g + 1..], e);
    PartsOf(runs, g);
  }

  /** When the scan stops, at the end or at a block after the cut, nothing is left to change. */
  lemma PassedAll(runs: seq<seq<nat>>, collection: seq<SubGraph>, g: nat, e: nat)
    requires NonEmpty(runs) && Passed(runs, collection, g, e)
    requires g < |runs| ==> Intervals(runs) && runs[g][0] > e
    ensures collection == Split(runs, e)
  {
    if g == |runs| {
      SplitBefore(runs, e);
    } else {
      LaterBlocks(runs, g, e);
      SplitAround(runs, g, e);
    }
  }

  lemma TailStartsAfter(a: seq<SubGraph>, p: seq<SubGraph>, rest: seq<SubGraph>, e: nat)
    requires |p| <= 2 && (|p| == 2 ==> |p[1].nodes| > 0 && p[1].nodes[0] > e)
    requires forall h :: 0 <= h < |rest| ==> |rest[h].nodes| > 0 && rest[h].nodes[0] > e
    ensures forall h :: |a| + 1 <= h < |a + p + rest| ==>
              |(a + p + rest)[h].nodes| > 0 && (a + p + rest)[h].nodes[0] > e
  {
  }

  lemma PassedParts(runs: seq<seq<nat>>, collection: seq<SubGraph>, g: nat, e: nat)
    requires NonEmpty(runs) && Passed(runs, collection, g, e) && g < |runs|
    ensures collection[..g] == Marked(runs[..g]) && collection[g + 1..] == Unmarked(runs[g + 1..])
  {
  }

  lemma LaterStart(runs: seq<seq<nat>>, g: nat, e: nat, rest: seq<SubGraph>)
    requires NonEmpty(runs) && g < |runs| && forall h :: g < h < |runs| ==> runs[h][0] > e
    requires rest == Unmarked(runs[g + 1..])
    ensures forall h :: 0 <= h < |rest| ==> |rest[h].nodes| > 0 && rest[h].nodes[0] > e
  {
    assert forall h :: 0 <= h < |rest| ==> rest[h].nodes == runs[g + 1 + h];
  }

  /** Replacing block g by its pieces completes the cut. */
  lemma CutOne(runs: seq<seq<nat>>, collection: seq<SubGraph>, g: nat, e: nat)
    requires Intervals(runs) && Passed(runs, collection, g, e) && g < |runs|
    requires runs[g][0] <= e < runs[g][0] + |runs[g]|
    ensures Finished(runs, collection[..g] + Pieces(runs[g], e) + collection[g + 1..], g + 1, e)
  {
    LaterBlocks(runs, g, e);
    SplitAround(runs, g, e);
    PassedParts(runs, collection, g, e);
    LaterStart(runs, g, e, collection[g + 1..]);
    TailStartsAfter(collection[..g], Pieces(runs[g], e), collection[g + 1..], e);
  }

  /** The four ways of cutting element k out of a block that was just marked. */
  function CutAt(subgraph: seq<nat>, k: nat): (pieces: seq<SubGraph>)
    requires k < |subgraph|
    ensures |pieces| <= 2 && forall p :: p in pieces ==> 0 < |p.nodes| < |subgraph|
  {
    if k == 0 && |subgraph| == 1 then
      []
    else if k == 0 then
      [SubGraph(subgraph[1..], true)]
    else if k == |subgraph| - 1 then
      [SubGraph(subgraph[..k], true)]
    else
      [SubGraph(subgraph[..k], true), SubGraph(subgraph[k + 1..], false)]
  }

  lemma BlockContains(run: seq<nat>, e: nat)
    requires |run| > 0 && run[0] <= e < run[0] + |run|
    requires forall k :: 0 <= k < |run| ==> run[k] == run[0] + k
    ensures e in run
  {
    assert run[e - run[0]] == e;
  }

  /** One iteration of the scan keeps `Passed` or reaches `Finished`. */
  lemma ScanOne(runs: seq<seq<nat>>, collection: seq<SubGraph>, g: nat, e: nat, k: nat)
    requires Intervals(runs) && Passed(runs, collection, g, e) && g < |runs| && runs[g][0] <= e && k <= |runs[g]|
    requires forall m :: 0 <= m < k ==> runs[g][m] != e
    requires k < |runs[g]| ==> runs[g][k] == e
    ensures k == |runs[g]| ==> Passed(runs, collection[g := SubGraph(runs[g], true)], g + 1, e)
    ensures k < |runs[g]| ==> Finished(runs, collection[..g] + CutAt(runs[g], k) + collection[g + 1..], g + 1, e)
  {
    var run := runs[g];
    if k == |run| {
      if run[0] + |run| > e {
        BlockContains(run, e);
        assert false;
      }
    } else {
      assert run[k] == run[0] + k;
      assert CutAt(run, k) == Pieces(run, e);
      CutOne(runs, collection, g, e);
    }
  }

  /** Number of nodes still to be looked at; bounds the loop, which may insert blocks as it goes. */
  ghost function Weight(collection: seq<SubGraph>): nat {
    if collection == [] then 0 else |collection[0].nodes| + Weight(collection[1..])
  }

  lemma {:induction false} WeightConcat(a: seq<SubGraph>, b: seq<SubGraph>)
    ensures Weight(a + b) == Weight(a) + Weight(b)
  {
    if a == [] {
      assert a + b == b;
    } else {
      WeightConcat(a[1..], b);
      assert (a + b)[1..] == a[1..] + b;
    }
  }

  /** Whatever replaces the block at g, less than its weight is left to scan after it. */
  lemma ScanShrinks(collection: seq<SubGraph>, g: nat, pieces: seq<SubGraph>, now: seq<SubGraph>)
    requires g < |collection| && |collection[g].nodes| > 0 && |pieces| <= 2
    requires |pieces| == 2 ==> |pieces[1].nodes| < |collection[g].nodes|
    requires now == collection[..g] + pieces + collection[g + 1..]
    ensures g + 1 <= |now| ==> Weight(now[g + 1..]) < Weight(collection[g..])
  {
    var rest := collection[g + 1..];
    assert collection[g..] == [collection[g]] + rest;
    WeightConcat([collection[g]], rest);
    if |pieces| == 2 {
      assert now[g + 1..] == [pieces[1]] + rest;
      WeightConcat([pieces[1]], rest);
    } else if |pieces| == 1 {
      assert now[g + 1..] == rest;
    } else if rest != [] {
      assert now[g + 1..] == rest[1..];
    }
  }

  /** What the scan has established before it looks at position g. */
  ghost predicate Scanned(runs: seq<seq<nat>>, collection: seq<SubGraph>, g: nat, e: nat)
    requires NonEmpty(runs)
  {
    Passed(runs, collection, g, e) || Finished(runs, collection, g, e)
  }

  /** What the block at position g is replaced by, once the search for e in it has stopped at k. */
  function Replacement(subgraph: seq<nat>, k: nat): (pieces: seq<SubGraph>)
    requires 0 < |subgraph| && k <= |subgraph|
    ensures |pieces| <= 2 && (|pieces| == 2 ==> |pieces[1].nodes| < |subgraph|)
    ensures forall p :: p in pieces ==> |p.nodes| > 0
  {
    if k < |subgraph| then CutAt(subgraph, k) else [SubGraph(subgraph, true)]
  }

  lemma ScanNext(runs: seq<seq<nat>>, collection: seq<SubGraph>, g: nat, e: nat, k: nat)
    requires Intervals(runs) && Scanned(runs, collection, g, e) && g < |collection|
    requires |collection[g].nodes| > 0 && collection[g].nodes[0] <= e && k <= |collection[g].nodes|
    requires forall m :: 0 <= m < k ==> collection[g].nodes[m] != e
    requires k < |collection[g].nodes| ==> collection[g].nodes[k] == e
    ensures Scanned(runs, collection[..g] + Replacement(collection[g].nodes, k) + collection[g + 1..], g + 1, e)
  {
    var run := collection[g].nodes;
    assert Passed(runs, collection, g, e);
    ScanOne(runs, collection, g, e, k);
    assert collection[..g] + [SubGraph(run, true)] + collection[g + 1..] == collection[g := SubGraph(run, true)];
  }

  lemma ScanEnds(runs: seq<seq<nat>>, collection: seq<SubGraph>, g: nat, e: nat)
    requires Intervals(runs) && Scanned(runs, collection, g, e)
    requires g < |collection| ==> |collection[g].nodes| > 0 && collection[g].nodes[0] > e
    ensures collection == Split(runs, e)
  {
    if !Finished(runs, collection, g, e) {
      PassedAll(runs, collection, g, e);
    }
  }

  // ---------- The scan on any order ----------

  /** The scan gets to the failing node: neither its run nor one before it starts with a larger number. */
  ghost predicate Reached(runs: seq<seq<nat>>, e: nat)
    requires NonEmpty(runs)
  {
    forall g, h :: 0 <= h <= g < |runs| && e in runs[g] ==> runs[h][0] <= e
  }

  /** The nodes left after the cut. */
  ghost function Remaining(runs: seq<seq<nat>>, e: nat): seq<nat>
    requires NonEmpty(runs)
  {
    if Reached(runs, e) then Without(Flatten(runs), e) else Flatten(runs)
  }

  /** What is left of the run that held the failing node. */
  ghost function Around(run: seq<nat>, e: nat): seq<seq<nat>>
    requires e in run
  {
    Present(run[..IndexOf(run, e)]) + Present(run[IndexOf(run, e) + 1..])
  }

  /** The blocks once the failing node has been cut out of run c. */
  ghost function BlocksAfter(runs: seq<seq<nat>>, c: nat, e: nat): seq<seq<nat>>
    requires c < |runs| && e in runs[c]
  {
    runs[..c] + Around(runs[c], e) + runs[c + 1..]
  }

  ghost predicate StartsLate(p: SubGraph, e: nat) {
    |p.nodes| > 0 && p.nodes[0] > e
  }

  /** The first g blocks have been marked, none of them late, but for the one that took the place of a run that
      was erased: the scan steps over it. Block c is what the cut left, wherever it starts. */
  ghost predicate MarkedTo(collection: seq<SubGraph>, g: nat, c: nat, erased: bool, e: nat) {
    forall q :: 0 <= q < |collection| ==>
      && (collection[q].supported <==> q < g && !(erased && q == c))
      && (q < g && q != c ==> !StartsLate(collection[q], e))
  }

  /** The marks once the scan has ended: a block is marked exactly when neither it nor one before it is late, block
      c aside, and it was not stepped over. */
  ghost predicate MarkedBy(collection: seq<SubGraph>, c: nat, erased: bool, e: nat) {
    forall q :: 0 <= q < |collection| ==>
      (collection[q].supported <==> !(erased && q == c) && NoneLate(collection, q, c, e))
  }

  ghost predicate NoneLate(collection: seq<SubGraph>, q: nat, c: nat, e: nat)
    requires q < |collection|
  {
    forall p :: 0 <= p <= q && p != c ==> !StartsLate(collection[p], e)
  }

  /** What the scan makes of any runs: blocks and marks, one by one. */
  ghost predicate ScanAnswer(runs: seq<seq<nat>>, collection: seq<SubGraph>, e: nat)
    requires NonEmpty(runs)
  {
    if Covered(runs, e) && Reached(runs, e) then
      exists c: nat :: CutIn(runs, collection, c, e)
    else
      NodesOf(collection) == runs && MarkedBy(collection, |runs|, false, e)
  }

  ghost predicate CutIn(runs: seq<seq<nat>>, collection: seq<SubGraph>, c: nat, e: nat) {
    && c < |runs| && e in runs[c]
    && NodesOf(collection) == BlocksAfter(runs, c, e) && MarkedBy(collection, c, |runs[c]| == 1, e)
  }

  /** No run before position g has the failing node, and none starts after it. */
  ghost predicate Searching(runs: seq<seq<nat>>, collection: seq<SubGraph>, g: nat, e: nat)
    requires NonEmpty(runs)
  {
    && NodesOf(collection) == runs && g <= |runs| && MarkedTo(collection, g, |runs|, false, e)
    && forall h :: 0 <= h < g ==> runs[h][0] <= e && e !in runs[h]
  }

  /** The failing node has been found in run c and cut out. */
  ghost predicate Removed(runs: seq<seq<nat>>, collection: seq<SubGraph>, g: nat, c: nat, e: nat)
    requires NonEmpty(runs)
  {
    && Reached(runs, e) && c < g && c < |runs| && e in runs[c]
    && NodesOf(collection) == BlocksAfter(runs, c, e) && MarkedTo(collection, g, c, |runs[c]| == 1, e)
  }

  ghost predicate Searched(runs: seq<seq<nat>>, collection: seq<SubGraph>, g: nat, e: nat)
    requires NonEmpty(runs)
  {
    Searching(runs, collection, g, e) || exists c: nat :: Removed(runs, collection, g, c, e)
  }

  lemma {:induction false} NotInWithout(s: seq<nat>, e: nat)
    ensures e !in Without(s, e)
  {
    if s != [] {
      NotInWithout(s[..|s| - 1], e);
    }
  }

  lemma FlattenAround(before: seq<seq<nat>>, middle: seq<seq<nat>>, rest: seq<seq<nat>>)
    ensures Flatten(before + middle + rest) == Flatten(before) + Flatten(middle) + Flatten(rest)
  {
    FlattenConcat(before + middle, rest);
    FlattenConcat(before, middle);
  }

  lemma CutAtNodes(run: seq<nat>, k: nat)
    requires k < |run| && forall m :: 0 <= m < k ==> run[m] != run[k]
    ensures NodesOf(CutAt(run, k)) == Around(run, run[k])
  {
    assert IndexOf(run, run[k]) == k;
    assert NodesOf(CutAt(run, k)) == Present(run[..k]) + Present(run[k + 1..]);
  }

  lemma PresentFlattens(a: seq<nat>, b: seq<nat>)
    ensures Flatten(Present(a) + Present(b)) == a + b
  {
    FlattenPresent(a);
    FlattenPresent(b);
    FlattenConcat(Present(a), Present(b));
  }

  lemma AroundFlattens(run: seq<nat>, e: nat)
    requires e in run
    ensures Flatten(Around(run, e)) == run[..IndexOf(run, e)] + run[IndexOf(run, e) + 1..]
  {
    PresentFlattens(run[..IndexOf(run, e)], run[IndexOf(run, e) + 1..]);
  }

  lemma OnlyOne(p: seq<nat>, e: nat, s: seq<nat>)
    requires Distinct(p + [e] + s)
    ensures e !in p && e !in s
  {
    var all := p + [e] + s;
    assert all[|p|] == e;
    assert forall a :: 0 <= a < |p| ==> all[a] == p[a];
    assert forall a :: 0 <= a < |s| ==> all[|p| + 1 + a] == s[a];
  }

  lemma AroundElement(a: seq<nat>, run: seq<nat>, k: nat, b: seq<nat>)
    requires k < |run|
    ensures a + run + b == (a + run[..k]) + [run[k]] + (run[k + 1..] + b)
    ensures a + (run[..k] + run[k + 1..]) + b == (a + run[..k]) + (run[k + 1..] + b)
  {
  }

  /** Taking element k out of run g takes it out of the whole order, where it occurs once. */
  lemma TakeOut(runs: seq<seq<nat>>, g: nat, k: nat)
    requires g < |runs| && k < |runs[g]| && Distinct(Flatten(runs))
    ensures var e := runs[g][k];
            && Without(Flatten(runs), e) ==
               Flatten(runs[..g]) + (runs[g][..k] + runs[g][k + 1..]) + Flatten(runs[g + 1..])
            && e !in Flatten(runs[..g]) && e !in Flatten(runs[g + 1..])
  {
    var run, e := runs[g], runs[g][k];
    var a, b := Flatten(runs[..g]), Flatten(runs[g + 1..]);
    PartsOf(runs, g);
    FlattenAround(runs[..g], [run], runs[g + 1..]);
    FlattenPresent(run);
    AroundElement(a, run, k, b);
    OnlyOne(a + run[..k], e, run[k + 1..] + b);
    CutOut(a + run[..k], e, run[k + 1..] + b);
  }

  /** The blocks hold every node but the failing one, in order. */
  lemma BlocksFlatten(runs: seq<seq<nat>>, c: nat, e: nat)
    requires c < |runs| && e in runs[c] && Distinct(Flatten(runs))
    ensures Flatten(BlocksAfter(runs, c, e)) == Without(Flatten(runs), e)
  {
    AroundFlattens(runs[c], e);
    ReplacedFlattens(runs, c, IndexOf(runs[c], e), Around(runs[c], e));
  }

  lemma ReplacedFlattens(runs: seq<seq<nat>>, c: nat, k: nat, pieces: seq<seq<nat>>)
    requires c < |runs| && k < |runs[c]| && Distinct(Flatten(runs))
    requires Flatten(pieces) == runs[c][..k] + runs[c][k + 1..]
    ensures Flatten(runs[..c] + pieces + runs[c + 1..]) == Without(Flatten(runs), runs[c][k])
  {
    TakeOut(runs, c, k);
    FlattenAround(runs[..c], pieces, runs[c + 1..]);
  }

  lemma NodesOfReplaced(runs: seq<seq<nat>>, collection: seq<SubGraph>, g: nat, pieces: seq<SubGraph>)
    requires NodesOf(collection) == runs && g < |runs|
    ensures NodesOf(collection[..g] + pieces + collection[g + 1..]) == runs[..g] + NodesOf(pieces) + runs[g + 1..]
  {
    assert NodesOf(collection[..g]) == runs[..g] && NodesOf(collection[g + 1..]) == runs[g + 1..];
    NodesOfConcat(collection[..g] + pieces, collection[g + 1..]);
    NodesOfConcat(collection[..g], pieces);
  }

  lemma FoundIsReached(runs: seq<seq<nat>>, g: nat, e: nat)
    requires NonEmpty(runs) && g < |runs| && runs[g][0] <= e && e !in Flatten(runs[g + 1..])
    requires forall h :: 0 <= h < g ==> runs[h][0] <= e && e !in runs[h]
    ensures Reached(runs, e)
  {
    InFlatten(runs[g + 1..], e);
    forall h | g < h < |runs| ensures e !in runs[h] {
      assert runs[g + 1..][h - g - 1] == runs[h];
    }
  }

  /** The pieces are marked up to and without the tail, which comes later. */
  lemma CutMarks(collection: seq<SubGraph>, g: nat, n: nat, e: nat, k: nat)
    requires g < |collection| && n >= |collection| && MarkedTo(collection, g, n, false, e)
    requires k < |collection[g].nodes|
    ensures MarkedTo(collection[..g] + CutAt(collection[g].nodes, k) + collection[g + 1..], g + 1, g,
                     |collection[g].nodes| == 1, e)
  {
    var pieces := CutAt(collection[g].nodes, k);
    var now := collection[..g] + pieces + collection[g + 1..];
    assert forall q :: 0 <= q < g ==> now[q] == collection[q];
    assert forall q :: g + |pieces| <= q < |now| ==> now[q] == collection[q - |pieces| + 1];
    assert forall q :: g <= q < g + |pieces| ==> now[q] == pieces[q - g];
  }

  /** Cutting at the first hit removes the failing node and nothing else. */
  lemma FoundAndCut(runs: seq<seq<nat>>, collection: seq<SubGraph>, g: nat, e: nat, k: nat)
    requires NonEmpty(runs) && Searching(runs, collection, g, e) && Distinct(Flatten(runs))
    requires g < |runs| && k < |runs[g]| && runs[g][k] == e && runs[g][0] <= e
    requires forall m :: 0 <= m < k ==> runs[g][m] != e
    ensures Removed(runs, collection[..g] + CutAt(runs[g], k) + collection[g + 1..], g + 1, g, e)
  {
    TakeOut(runs, g, k);
    FoundIsReached(runs, g, e);
    NodesOfReplaced(runs, collection, g, CutAt(runs[g], k));
    CutAtNodes(runs[g], k);
    assert NodesOf(collection)[g] == collection[g].nodes;
    CutMarks(collection, g, |runs|, e, k);
  }

  /** The collection with the mark of block g set. */
  ghost function WithMark(collection: seq<SubGraph>, g: nat): seq<SubGraph>
    requires g < |collection|
  {
    collection[..g] + [SubGraph(collection[g].nodes, true)] + collection[g + 1..]
  }

  lemma MarkOne(collection: seq<SubGraph>, g: nat, c: nat, erased: bool, e: nat)
    requires g < |collection| && MarkedTo(collection, g, c, erased, e) && g != c && !StartsLate(collection[g], e)
    ensures NodesOf(WithMark(collection, g)) == NodesOf(collection)
    ensures MarkedTo(WithMark(collection, g), g + 1, c, erased, e)
  {
    var now := WithMark(collection, g);
    assert now == collection[g := SubGraph(collection[g].nodes, true)];
  }

  lemma RemovedIsGone(runs: seq<seq<nat>>, collection: seq<SubGraph>, g: nat, c: nat, e: nat)
    requires NonEmpty(runs) && Distinct(Flatten(runs)) && Removed(runs, collection, g, c, e) && g < |collection|
    ensures e !in collection[g].nodes
  {
    BlocksFlatten(runs, c, e);
    NotInWithout(Flatten(runs), e);
    InFlatten(NodesOf(collection), e);
    assert NodesOf(collection)[g] == collection[g].nodes;
  }

  /** One turn of the scan, on any order without repetitions. */
  lemma SearchNext(runs: seq<seq<nat>>, collection: seq<SubGraph>, g: nat, e: nat, k: nat)
    requires NonEmpty(runs) && Distinct(Flatten(runs)) && g < |collection| && Searched(runs, collection, g, e)
    requires |collection[g].nodes| > 0 && collection[g].nodes[0] <= e && k <= |collection[g].nodes|
    requires forall m :: 0 <= m < k ==> collection[g].nodes[m] != e
    requires k < |collection[g].nodes| ==> collection[g].nodes[k] == e
    ensures Searched(runs, ScanTurn(collection, g, k), g + 1, e)
  {
    if Searching(runs, collection, g, e) {
      assert NodesOf(collection)[g] == collection[g].nodes == runs[g];
      if k < |runs[g]| {
        FoundAndCut(runs, collection, g, e, k);
      } else {
        MarkOne(collection, g, |runs|, false, e);
      }
    } else {
      var c: nat :| Removed(runs, collection, g, c, e);
      RemovedIsGone(runs, collection, g, c, e);
      MarkOne(collection, g, c, |runs[c]| == 1, e);
      assert Removed(runs, WithMark(collection, g), g + 1, c, e);
    }
  }

  /** At the end of the list, or at a late block, the marks are final. */
  lemma MarksEnd(collection: seq<SubGraph>, g: nat, c: nat, erased: bool, e: nat)
    requires MarkedTo(collection, g, c, erased, e) && c != g && (g < |collection| ==> StartsLate(collection[g], e))
    ensures MarkedBy(collection, c, erased, e)
  {
    forall q: nat | q < |collection| ensures NoneLate(collection, q, c, e) <==> q < g {
      if q >= g {
        assert StartsLate(collection[g], e);
      }
    }
  }

  lemma NeverReached(runs: seq<seq<nat>>, g: nat, e: nat)
    requires NonEmpty(runs) && g <= |runs| && (forall h :: 0 <= h < g ==> e !in runs[h])
    requires g < |runs| ==> runs[g][0] > e
    ensures !(Covered(runs, e) && Reached(runs, e))
  {
    if Covered(runs, e) {
      var h :| 0 <= h < |runs| && e in runs[h];
      assert g <= h;
    }
  }

  lemma SearchEnds(runs: seq<seq<nat>>, collection: seq<SubGraph>, g: nat, e: nat)
    requires NonEmpty(runs) && Searched(runs, collection, g, e)
    requires g < |collection| ==> StartsLate(collection[g], e)
    ensures ScanAnswer(runs, collection, e)
  {
    if Searching(runs, collection, g, e) {
      assert g < |runs| ==> NodesOf(collection)[g] == collection[g].nodes;
      NeverReached(runs, g, e);
      if g < |runs| {
        MarksEnd(collection, g, |runs|, false, e);
      } else {
        AllMarked(collection, e);
      }
    } else {
      var c: nat :| Removed(runs, collection, g, c, e);
      MarksEnd(collection, g, c, |runs[c]| == 1, e);
      assert CutIn(runs, collection, c, e);
    }
  }

  lemma AllMarked(collection: seq<SubGraph>, e: nat)
    requires MarkedTo(collection, |collection|, |collection|, false, e)
    ensures MarkedBy(collection, |collection|, false, e)
  {
  }

  /** The nodes left are all but the failing one if the scan gets to it, and all otherwise. */
  lemma AnswerFlattens(runs: seq<seq<nat>>, collection: seq<SubGraph>, e: nat)
    requires NonEmpty(runs) && Distinct(Flatten(runs)) && ScanAnswer(runs, collection, e)
    ensures Flatten(NodesOf(collection)) == Remaining(runs, e)
  {
    if Covered(runs, e) && Reached(runs, e) {
      var c: nat :| CutIn(runs, collection, c, e);
      BlocksFlatten(runs, c, e);
    } else if !Covered(runs, e) {
      InFlatten(runs, e);
      WithoutAbsent(Flatten(runs), e);
    }
  }

  /** All that the scan keeps about the collection. */
  ghost predicate ScanInv(runs: seq<seq<nat>>, collection: seq<SubGraph>, g: nat, e: nat)
    requires NonEmpty(runs)
  {
    && (forall p :: p in collection ==> |p.nodes| > 0)
    && (Intervals(runs) ==> Scanned(runs, collection, g, e))
    && (Distinct(Flatten(runs)) ==> Searched(runs, collection, g, e))
  }

  lemma ScanStarts(runs: seq<seq<nat>>, e: nat)
    requires NonEmpty(runs)
    ensures ScanInv(runs, Unmarked(runs), 0, e)
  {
    assert NodesOf(Unmarked(runs)) == runs;
    assert Searching(runs, Unmarked(runs), 0, e);
  }

  /** What one turn makes of the collection. */
  ghost function ScanTurn(collection: seq<SubGraph>, g: nat, k: nat): seq<SubGraph>
    requires g < |collection| && |collection[g].nodes| > 0 && k <= |collection[g].nodes|
  {
    collection[..g] + Replacement(collection[g].nodes, k) + collection[g + 1..]
  }

  lemma ScanKeeps(runs: seq<seq<nat>>, collection: seq<SubGraph>, g: nat, e: nat, k: nat)
    requires NonEmpty(runs) && ScanInv(runs, collection, g, e) && g < |collection|
    requires |collection[g].nodes| > 0 && collection[g].nodes[0] <= e && k <= |collection[g].nodes|
    requires forall m :: 0 <= m < k ==> collection[g].nodes[m] != e
    requires k < |collection[g].nodes| ==> collection[g].nodes[k] == e
    ensures ScanInv(runs, ScanTurn(collection, g, k), g + 1, e)
  {
    if Intervals(runs) {
      ScanNext(runs, collection, g, e, k);
    }
    if Distinct(Flatten(runs)) {
      SearchNext(runs, collection, g, e, k);
    }
  }

  lemma ScanDone(runs: seq<seq<nat>>, collection: seq<SubGraph>, g: nat, e: nat)
    requires NonEmpty(runs) && ScanInv(runs, collection, g, e)
    requires g < |collection| ==> StartsLate(collection[g], e)
    ensures Intervals(runs) ==> collection == Split(runs, e)
    ensures Distinct(Flatten(runs)) ==>
              ScanAnswer(runs, collection, e) && Flatten(NodesOf(collection)) == Remaining(runs, e)
  {
    if Intervals(runs) {
      ScanEnds(runs, collection, g, e);
    }
    if Distinct(Flatten(runs)) {
      SearchEnds(runs, collection, g, e);
      AnswerFlattens(runs, collection, e);
    }
  }

  /** Marks and cuts the collection in place, scanning for the failing node. */
  method SplitAtError(runs: seq<seq<nat>>, e: nat) returns (collection: seq<SubGraph>)
    requires NonEmpty(runs)
    ensures forall p :: p in collection ==> |p.nodes| > 0
    ensures Intervals(runs) ==> collection == Split(runs, e)
    ensures Distinct(Flatten(runs)) ==>
              ScanAnswer(runs, collection, e) && Flatten(NodesOf(collection)) == Remaining(runs, e)
  {
    collection := Unmarked(runs);
    ScanStarts(runs, e);
    var g := 0;
    while g < |collection|
      invariant 0 <= g && ScanInv(runs, collection, g, e)
      decreases Weight(if g < |collection| then collection[g..] else [])
    {
      assert collection[g] in collection;
      var subgraph := collection[g].nodes;
      if subgraph[0] > e {
        break;
      }
      var k := 0;
      while k < |subgraph| && subgraph[k] != e
        invariant 0 <= k <= |subgraph|
        invariant forall m :: 0 <= m < k ==> subgraph[m] != e
      {
        k := k + 1;
      }
      ScanKeeps(runs, collection, g, e, k);
      ghost var was := collection;
      collection := collection[..g] + Replacement(subgraph, k) + collection[g + 1..];
      ScanShrinks(was, g, Replacement(subgraph, k), collection);
      g := g + 1;
    }
    ScanDone(runs, collection, g, e);
  }

  // ---------- What a cut keeps and marks ----------

  ghost function Without(s: seq<nat>, e: nat): seq<nat> {
    if s == [] then [] else Without(s[..|s| - 1], e) + (if s[|s| - 1] == e then [] else [s[|s| - 1]])
  }

  lemma {:induction false} WithoutConcat(a: seq<nat>, b: seq<nat>, e: nat)
    ensures Without(a + b, e) == Without(a, e) + Without(b, e)
  {
    if b == [] {
      assert a + b == a;
    } else {
      WithoutConcat(a, b[..|b| - 1], e);
      LastOfConcat(a, b);
    }
  }

  lemma {:induction false} WithoutAbsent(s: seq<nat>, e: nat)
    requires e !in s
    ensures Without(s, e) == s
  {
    if s != [] {
      WithoutAbsent(s[..|s| - 1], e);
    }
  }

  lemma {:induction false} FlattenConcat<T>(a: seq<seq<T>>, b: seq<seq<T>>)
    ensures Flatten(a + b) == Flatten(a) + Flatten(b)
  {
    if b == [] {
      assert a + b == a;
    } else {
      FlattenConcat(a, b[..|b| - 1]);
      LastOfConcat(a, b);
      Reassociate(Flatten(a), Flatten(b[..|b| - 1]), b[|b| - 1]);
    }
  }

  ghost function Present(part: seq<nat>): seq<seq<nat>> {
    if part == [] then [] else [part]
  }

  lemma FlattenPresent(part: seq<nat>)
    ensures Flatten(Present(part)) == part
  {
    if part != [] {
      assert [part][..0] == [];
      assert Flatten<nat>([]) + part == part;
    }
  }

  lemma CutOut(before: seq<nat>, e: nat, after: seq<nat>)
    requires e !in before && e !in after
    ensures Without(before + [e] + after, e) == before + after
  {
    WithoutConcat(before + [e], after, e);
    WithoutConcat(before, [e], e);
    WithoutAbsent(before, e);
    WithoutAbsent(after, e);
    assert Without([e], e) == [];
    assert before + [] == before;
  }

  lemma NodesOfConcat(a: seq<SubGraph>, b: seq<SubGraph>)
    ensures NodesOf(a + b) == NodesOf(a) + NodesOf(b)
  {
  }

  lemma CutPiecesFlatten(run: seq<nat>, e: nat, before: seq<nat>, after: seq<nat>)
    requires |run| > 0 && run[0] <= e < run[0] + |run|
    requires before == run[..e - run[0]] && after == run[e - run[0] + 1..]
    ensures Flatten(NodesOf(Pieces(run, e))) == before + after
  {
    PresentFlattens(before, after);
    assert NodesOf(Pieces(run, e)) == Present(before) + Present(after);
  }

  /** The pieces of a block hold its nodes, in order, except the one cut out. */
  lemma PiecesFlatten(run: seq<nat>, e: nat)
    requires |run| > 0 && forall k :: 0 <= k < |run| ==> run[k] == run[0] + k
    ensures Flatten(NodesOf(Pieces(run, e))) == Without(run, e)
  {
    if run[0] > e || run[0] + |run| <= e {
      WithoutAbsent(run, e);
      assert NodesOf(Pieces(run, e)) == Present(run);
      FlattenPresent(run);
    } else {
      var before, after := run[..e - run[0]], run[e - run[0] + 1..];
      assert run == before + [e] + after;
      CutOut(before, e, after);
      CutPiecesFlatten(run, e, before, after);
    }
  }

  /** Cutting out `e` keeps every other node, in order. */
  lemma {:induction false} SplitFlattens(runs: seq<seq<nat>>, e: nat)
    requires Intervals(runs)
    ensures Flatten(NodesOf(Split(runs, e))) == Without(Flatten(runs), e)
  {
    if runs != [] {
      var init, last := runs[..|runs| - 1], runs[|runs| - 1];
      SplitFlattens(init, e);
      PiecesFlatten(last, e);
      NodesOfConcat(Split(init, e), Pieces(last, e));
      FlattenConcat(NodesOf(Split(init, e)), NodesOf(Pieces(last, e)));
      WithoutConcat(Flatten(init), last, e);
    }
  }

  /** No block reaches beyond `limit`. */
  ghost predicate EndBy(blocks: seq<seq<nat>>, limit: nat) {
    forall g :: 0 <= g < |blocks| ==> |blocks[g]| > 0 && blocks[g][0] + |blocks[g]| <= limit
  }

  lemma PiecesAreIntervals(run: seq<nat>, e: nat)
    requires |run| > 0 && forall k :: 0 <= k < |run| ==> run[k] == run[0] + k
    ensures Intervals(NodesOf(Pieces(run, e))) && EndBy(NodesOf(Pieces(run, e)), run[0] + |run|)
    ensures forall g :: 0 <= g < |Pieces(run, e)| ==> NodesOf(Pieces(run, e))[g][0] >= run[0]
  {
    if run[0] > e || run[0] + |run| <= e {
      assert NodesOf(Pieces(run, e)) == [run];
    } else {
      var before, after := run[..e - run[0]], run[e - run[0] + 1..];
      assert NodesOf(Pieces(run, e)) == Present(before) + Present(after);
      assert forall k :: 0 <= k < |before| ==> before[k] == run[0] + k;
      assert forall k :: 0 <= k < |after| ==> after[k] == e + 1 + k;
    }
  }

  lemma IntervalsConcat(a: seq<seq<nat>>, b: seq<seq<nat>>, limit: nat)
    requires Intervals(a) && Intervals(b) && EndBy(a, limit)
    requires forall g :: 0 <= g < |b| ==> b[g][0] > limit
    ensures Intervals(a + b)
  {
    forall g | 0 <= g < |a + b| ensures (a + b)[g] == if g < |a| then a[g] else b[g - |a|] {}
  }

  lemma EndByConcat(a: seq<seq<nat>>, b: seq<seq<nat>>, limit: nat, limit': nat)
    requires EndBy(a, limit) && EndBy(b, limit') && limit <= limit'
    ensures EndBy(a + b, limit')
  {
    forall g | 0 <= g < |a + b| ensures (a + b)[g] == if g < |a| then a[g] else b[g - |a|] {}
  }

  /** Cutting leaves blocks of consecutive nodes with a missing one between any two. */
  lemma {:induction false} SplitIntervals(runs: seq<seq<nat>>, e: nat)
    requires Intervals(runs)
    ensures Intervals(NodesOf(Split(runs, e)))
    ensures runs == [] ==> Split(runs, e) == []
    ensures runs != [] ==> var last := runs[|runs| - 1]; EndBy(NodesOf(Split(runs, e)), last[0] + |last|)
  {
    if runs != [] {
      var init, last := runs[..|runs| - 1], runs[|runs| - 1];
      SplitIntervals(init, e);
      PiecesAreIntervals(last, e);
      NodesOfConcat(Split(init, e), Pieces(last, e));
      var limit := if init == [] then 0 else init[|init| - 1][0] + |init[|init| - 1]|;
      if init == [] {
        assert NodesOf(Split(init, e)) + NodesOf(Pieces(last, e)) == NodesOf(Pieces(last, e));
      } else {
        IntervalsConcat(NodesOf(Split(init, e)), NodesOf(Pieces(last, e)), limit);
        EndByConcat(NodesOf(Split(init, e)), NodesOf(Pieces(last, e)), limit, last[0] + |last|);
      }
    }
  }

  /** A block is marked exactly when it ends before `e`, or is the tail of a run that began with `e`. */
  ghost predicate MarkedRight(p: SubGraph, e: nat, startsRun: bool) {
    && |p.nodes| > 0
    && (p.supported <==> (p.nodes[|p.nodes| - 1] < e || (p.nodes[0] == e + 1 && startsRun)))
  }

  lemma {:induction false} SplitMarks(runs: seq<seq<nat>>, e: nat)
    requires Intervals(runs)
    ensures forall p :: p in Split(runs, e) ==> MarkedRight(p, e, Starts(runs, e))
  {
    forall p | p in Split(runs, e)
      ensures MarkedRight(p, e, Starts(runs, e))
    {
      var g := PieceOrigin(runs, e, p);
    }
  }

  lemma {:induction false} PieceOrigin(runs: seq<seq<nat>>, e: nat, p: SubGraph) returns (g: nat)
    requires NonEmpty(runs) && p in Split(runs, e)
    ensures g < |runs| && p in Pieces(runs[g], e)
  {
    if p in Pieces(runs[|runs| - 1], e) {
      g := |runs| - 1;
    } else {
      g := PieceOrigin(runs[..|runs| - 1], e, p);
    }
  }

  lemma {:induction false} InFlatten(runs: seq<seq<nat>>, x: nat)
    ensures x in Flatten(runs) <==> Covered(runs, x)
  {
    if runs != [] {
      InFlatten(runs[..|runs| - 1], x);
    }
  }

  lemma {:induction false} InKept(order: seq<nat>, keep: nat -> bool, x: nat)
    ensures x in Kept(order, keep) <==> x in order && keep(x)
  {
    if order != [] {
      InKept(order[..|order| - 1], keep, x);
      assert order == order[..|order| - 1] + [order[|order| - 1]];
    }
  }

  /** The index just before a block is in no block. */
  lemma GapBeforeBlock(runs: seq<seq<nat>>, g: nat, h: nat)
    requires Intervals(runs) && g < |runs| && h < |runs|
    ensures forall x :: x in runs[h] ==> x + 1 != runs[g][0]
  {
    if h < g {
      assert runs[h][0] + |runs[h]| < runs[g][0];
    } else if g < h {
      assert runs[g][0] + |runs[g]| < runs[h][0];
    }
  }

  ghost predicate Covered(runs: seq<seq<nat>>, x: nat) {
    exists g :: 0 <= g < |runs| && x in runs[g]
  }

  ghost predicate Starts(runs: seq<seq<nat>>, e: nat) {
    exists g :: 0 <= g < |runs| && |runs[g]| > 0 && runs[g][0] == e
  }

  lemma StartsAfterGap(runs: seq<seq<nat>>, e: nat)
    requires Intervals(runs)
    ensures Starts(runs, e) <==> Covered(runs, e) && (e == 0 || !Covered(runs, e - 1))
  {
    if Starts(runs, e) {
      var g :| 0 <= g < |runs| && |runs[g]| > 0 && runs[g][0] == e;
      assert e in runs[g];
      forall h: nat | h < |runs| ensures e == 0 || e - 1 !in runs[h] {
        GapBeforeBlock(runs, g, h);
      }
    } else if Covered(runs, e) {
      var g :| 0 <= g < |runs| && e in runs[g];
      var k :| 0 <= k < |runs[g]| && runs[g][k] == e;
      assert runs[g][k - 1] in runs[g];
    }
  }

  /** In the blocks of a list in order, `e` opens a run exactly when it is kept and its predecessor is not. */
  lemma RunStarts(runs: seq<seq<nat>>, n: nat, keep: nat -> bool, e: nat)
    requires Intervals(runs) && Flatten(runs) == Kept(Iota(n), keep)
    ensures Starts(runs, e) <==> e < n && keep(e) && (e == 0 || !keep(e - 1))
  {
    InKept(Iota(n), keep, e);
    InFlatten(runs, e);
    if e > 0 {
      InKept(Iota(n), keep, e - 1);
      InFlatten(runs, e - 1);
    }
    StartsAfterGap(runs, e);
  }

  // ---------- The whole query ----------

  /** Error i is the last one about a graph input. */
  ghost predicate LastFault(errors: seq<ParserError>, i: nat) {
    i < |errors| && errors[i].node == -1 && forall j :: i < j < |errors| ==> errors[j].node != -1
  }

  /** Error i is the last one about a node. */
  ghost predicate LastFailure(errors: seq<ParserError>, i: nat) {
    i < |errors| && errors[i].node != -1 && forall j :: i < j < |errors| ==> errors[j].node == -1
  }

  /** `e` is the last failing node, as a 64-bit unsigned index; without one it is the largest such index. */
  ghost predicate IsFailure(errors: seq<ParserError>, e: nat) {
    && ((exists i: nat :: LastFailure(errors, i)) ==>
          exists i: nat :: LastFailure(errors, i) && IsUnsigned(errors[i].node, e))
    && ((forall x :: x in errors ==> x.node == -1) ==> e == 0xFFFF_FFFF_FFFF_FFFF)
  }

  ghost predicate IsUnsigned(node: int, e: nat) {
    e <= NO_NODE && (node - e) % (NO_NODE + 1) == 0
  }

  /** `name` is that of the last faulty graph input, or empty if there is none. */
  ghost predicate IsFault(errors: seq<ParserError>, name: string) {
    && ((exists i: nat :: LastFault(errors, i)) ==> exists i: nat :: LastFault(errors, i) && errors[i].file == name)
    && ((forall x :: x in errors ==> x.node != -1) ==> name == "")
  }

  /** Last recorded failing node, as the unsigned index it is compared as. */
  function FailingNode(errors: seq<ParserError>): nat {
    if errors == [] then NO_NODE
    else if errors[|errors| - 1].node != -1 then AsIndex(errors[|errors| - 1].node)
    else FailingNode(errors[..|errors| - 1])
  }

  /** Conversion of a signed node number to a 64-bit unsigned one. */
  function AsIndex(node: int): (e: nat)
    ensures 0 <= node <= NO_NODE ==> e == node
    ensures IsUnsigned(node, e)
  {
    node % (NO_NODE + 1)
  }

  /** Last recorded faulty graph input, or the empty name. */
  function FaultyInput(errors: seq<ParserError>): string {
    if errors == [] then ""
    else if errors[|errors| - 1].node == -1 then errors[|errors| - 1].file
    else FaultyInput(errors[..|errors| - 1])
  }

  lemma {:induction false} FaultyInputIsFault(errors: seq<ParserError>)
    ensures IsFault(errors, FaultyInput(errors))
    ensures (exists i: nat :: LastFault(errors, i)) <==> exists x :: x in errors && x.node == -1
  {
    if errors != [] {
      var n, init := |errors| - 1, errors[..|errors| - 1];
      if errors[n].node == -1 {
        assert LastFault(errors, n);
        forall i: nat | LastFault(errors, i) ensures i == n {}
      } else {
        FaultyInputIsFault(init);
        assert errors == init + [errors[n]];
        forall i: nat ensures LastFault(errors, i) <==> LastFault(init, i) {}
      }
    }
  }

  lemma FailureHere(init: seq<ParserError>, x: ParserError, e: nat)
    requires x.node != -1 && IsUnsigned(x.node, e)
    ensures IsFailure(init + [x], e) && exists i: nat :: LastFailure(init + [x], i)
  {
    assert LastFailure(init + [x], |init|);
  }

  lemma FailureBefore(init: seq<ParserError>, x: ParserError, e: nat)
    requires x.node == -1 && IsFailure(init, e)
    ensures IsFailure(init + [x], e)
    ensures (exists i: nat :: LastFailure(init + [x], i)) <==> exists i: nat :: LastFailure(init, i)
  {
    var errors := init + [x];
    assert errors[|init|] == x && forall k :: 0 <= k < |init| ==> errors[k] == init[k];
    forall i: nat ensures LastFailure(errors, i) <==> LastFailure(init, i) {
      if LastFailure(init, i) {
        assert forall j :: i < j < |errors| ==> errors[j].node == -1;
      }
      if LastFailure(errors, i) {
        assert forall j :: i < j < |init| ==> errors[j].node == -1;
      }
    }
    if i: nat :| LastFailure(init, i) && IsUnsigned(init[i].node, e) {
      assert LastFailure(init + [x], i) && IsUnsigned((init + [x])[i].node, e);
    }
    assert forall y :: y in init ==> y in init + [x];
  }

  lemma {:induction false} FailingNodeIsFailure(errors: seq<ParserError>)
    ensures IsFailure(errors, FailingNode(errors))
    ensures (exists i: nat :: LastFailure(errors, i)) <==> exists x :: x in errors && x.node != -1
  {
    if errors != [] {
      var n, init := |errors| - 1, errors[..|errors| - 1];
      assert errors == init + [errors[n]];
      if errors[n].node != -1 {
        FailureHere(init, errors[n], FailingNode(errors));
      } else {
        FailingNodeIsFailure(init);
        FailureBefore(init, errors[n], FailingNode(errors));
      }
    }
  }

  function Supports(nodes: seq<Node>, operators: set<string>, faulty: string): nat -> bool {
    (i: nat) => i < |nodes| && nodes[i].op in operators && !(faulty != "" && faulty in nodes[i].inputs)
  }

  /** The collection answers for a node list in order whose supported nodes are given by `keep`. */
  ghost predicate CutCorrectly(collection: seq<SubGraph>, n: nat, keep: nat -> bool, e: nat) {
    && Flatten(NodesOf(collection)) == Without(Kept(Iota(n), keep), e)
    && forall p :: p in collection ==> MarkedRight(p, e, e < n && keep(e) && (e == 0 || !keep(e - 1)))
  }

  method ScanErrors(errors: seq<ParserError>) returns (errorNode: nat, inputNode: string, inputError: bool)
    ensures errorNode == FailingNode(errors) && inputNode == FaultyInput(errors)
    ensures IsFailure(errors, errorNode) && IsFault(errors, inputNode)
    ensures inputError <==> exists e :: e in errors && e.node == -1
  {
    errorNode, inputNode, inputError := NO_NODE, "", false;
    for i := 0 to |errors|
      invariant errorNode == FailingNode(errors[..i]) && inputNode == FaultyInput(errors[..i])
      invariant inputError <==> exists e :: e in errors[..i] && e.node == -1
    {
      assert errors[..i + 1][..i] == errors[..i] && errors[..i + 1] == errors[..i] + [errors[i]];
      if errors[i].node != -1 {
        errorNode := AsIndex(errors[i].node);
      } else {
        inputNode, inputError := errors[i].file, true;
      }
    }
    assert errors[..|errors|] == errors;
    FaultyInputIsFault(errors);
    FailingNodeIsFailure(errors);
  }

  lemma {:induction false} KeptDistinct(order: seq<nat>, keep: nat -> bool)
    requires Distinct(order)
    ensures Distinct(Kept(order, keep))
  {
    if order != [] {
      KeptDistinct(order[..|order| - 1], keep);
      InKept(order[..|order| - 1], keep, order[|order| - 1]);
    }
  }

  lemma CutIsCorrect(runs: seq<seq<nat>>, n: nat, keep: nat -> bool, e: nat)
    requires Intervals(runs) && Flatten(runs) == Kept(Iota(n), keep)
    ensures CutCorrectly(Split(runs, e), n, keep, e)
  {
    SplitFlattens(runs, e);
    SplitMarks(runs, e);
    RunStarts(runs, n, keep, e);
  }

  /** Blocks, marks and remaining nodes, for any order. */
  ghost predicate AnswersFor(order: seq<nat>, keep: nat -> bool, e: nat, collection: seq<SubGraph>) {
    && NonEmpty(Runs(order, keep)) && ScanAnswer(Runs(order, keep), collection, e)
    && Flatten(NodesOf(collection)) == Remaining(Runs(order, keep), e)
  }

  /** Runs, marks and cuts for an ordered graph, given what the trial parse reported. */
  method Partition(order: seq<nat>, keep: nat -> bool, parsed: bool, inputError: bool, e: nat)
    returns (supported: bool, collection: seq<SubGraph>)
    ensures supported <==> parsed && forall x :: x in order ==> keep(x)
    ensures forall p :: p in collection ==> |p.nodes| > 0
    ensures supported ==> collection == if order == [] then [] else [SubGraph(order, true)]
    ensures supported || inputError ==> NodesOf(collection) == Runs(order, keep)
    ensures !supported && inputError ==>
              Flatten(NodesOf(collection)) == Kept(order, keep) && forall p :: p in collection ==> !p.supported
    ensures !supported && !inputError && Distinct(order) ==> AnswersFor(order, keep, e, collection)
    ensures order == Iota(|order|) ==> Intervals(NodesOf(collection))
    ensures !supported && !inputError && order == Iota(|order|) ==> CutCorrectly(collection, |order|, keep, e)
  {
    var runs, all := BuildRuns(order, keep);
    supported := parsed && all;
    collection := Unmarked(runs);
    UnmarkedNodes(runs);
    if !supported {
      if inputError {
        return;
      }
      if Distinct(order) {
        KeptDistinct(order, keep);
      }
      collection := SplitAtError(runs, e);
      if order == Iota(|order|) {
        CutIsCorrect(runs, |order|, keep, e);
        SplitIntervals(runs, e);
      }
    } else if |collection| > 0 {
      // With no node at all the original takes back() of an empty vector, which C++ leaves undefined.
      collection := collection[|collection| - 1 := SubGraph(collection[|collection| - 1].nodes, true)];
      OneMarked(collection, order);
    }
  }

  lemma UnmarkedNodes(runs: seq<seq<nat>>)
    ensures NodesOf(Unmarked(runs)) == runs && forall p :: p in Unmarked(runs) ==> !p.supported
    ensures NonEmpty(runs) ==> forall p :: p in Unmarked(runs) ==> |p.nodes| > 0
  {
  }

  lemma OneMarked(collection: seq<SubGraph>, order: seq<nat>)
    requires |collection| == 1 && collection[0] == SubGraph(order, true)
    ensures collection == [SubGraph(order, true)] && NodesOf(collection) == [order]
  {
  }

  /** What the query answers, for node lists in order as the ONNX IR specification demands. */
  ghost predicate Answers(nodes: seq<Node>, keep: nat -> bool, errors: seq<ParserError>, supported: bool,
                          collection: seq<SubGraph>) {
    if supported then
      collection == if nodes == [] then [] else [SubGraph(Iota(|nodes|), true)]
    else if exists e :: e in errors && e.node == -1 then
      Flatten(NodesOf(collection)) == Kept(Iota(|nodes|), keep) && forall p :: p in collection ==> !p.supported
    else
      CutCorrectly(collection, |nodes|, keep, FailingNode(errors))
  }

  // ---------- The same in plain terms ----------

  /** The node reads the graph input that made the parse fail. */
  ghost predicate ReadsFaulty(node: Node, parsed: bool, errors: seq<ParserError>) {
    !parsed && exists i: nat :: LastFault(errors, i) && errors[i].file != "" && errors[i].file in node.inputs
  }

  /** Node x has an operator with an importer and does not read a faulty input. */
  ghost predicate Wanted(nodes: seq<Node>, operators: set<string>, parsed: bool, errors: seq<ParserError>, x: nat) {
    x < |nodes| && nodes[x].op in operators && !ReadsFaulty(nodes[x], parsed, errors)
  }

  ghost predicate Held(collection: seq<SubGraph>, x: nat) {
    exists p :: p in collection && x in p.nodes
  }

  ghost predicate InputFailed(errors: seq<ParserError>) {
    exists x :: x in errors && x.node == -1
  }

  /** Which nodes the answer holds: the wanted ones, except that the failing node may be cut out when a node, and no
      input, failed. */
  ghost predicate HoldsWanted(nodes: seq<Node>, operators: set<string>, parsed: bool, errors: seq<ParserError>,
                              supported: bool, collection: seq<SubGraph>) {
    && (forall x: nat :: Held(collection, x) ==> Wanted(nodes, operators, parsed, errors, x))
    && (forall x: nat :: Wanted(nodes, operators, parsed, errors, x) && !IsFailure(errors, x) ==> Held(collection, x))
    && (supported || InputFailed(errors) ==>
          forall x: nat :: Wanted(nodes, operators, parsed, errors, x) ==> Held(collection, x))
  }

  lemma KeepIsWanted(nodes: seq<Node>, operators: set<string>, parsed: bool, errors: seq<ParserError>)
    ensures var keep := Supports(nodes, operators, if parsed then "" else FaultyInput(errors));
            forall x: nat :: keep(x) <==> Wanted(nodes, operators, parsed, errors, x)
  {
    FaultyInputIsFault(errors);
    forall i: nat, j: nat | LastFault(errors, i) && LastFault(errors, j) ensures i == j {}
    forall i: nat | LastFault(errors, i) ensures errors[i].file == FaultyInput(errors) {}
    if !exists i: nat :: LastFault(errors, i) {
      assert FaultyInput(errors) == "";
    }
  }

  lemma UnsignedIsUnique(node: int, e: nat, e': nat)
    requires IsUnsigned(node, e) && IsUnsigned(node, e')
    ensures e == e'
  {
  }

  lemma FailureIsUnique(errors: seq<ParserError>, e: nat, e': nat)
    requires IsFailure(errors, e) && IsFailure(errors, e')
    ensures e == e'
  {
    FailingNodeIsFailure(errors);
    forall i: nat, j: nat | LastFailure(errors, i) && LastFailure(errors, j) ensures i == j {}
    if i: nat :| LastFailure(errors, i) {
      UnsignedIsUnique(errors[i].node, e, e');
    }
  }

  lemma HeldIsFlat(collection: seq<SubGraph>, x: nat)
    ensures Held(collection, x) <==> x in Flatten(NodesOf(collection))
  {
    InFlatten(NodesOf(collection), x);
    if Held(collection, x) {
      var p :| p in collection && x in p.nodes;
      var g :| 0 <= g < |collection| && collection[g] == p;
      assert NodesOf(collection)[g] == p.nodes;
    }
    if Covered(NodesOf(collection), x) {
      var g :| 0 <= g < |NodesOf(collection)| && x in NodesOf(collection)[g];
      assert collection[g] in collection;
    }
  }

  lemma {:induction false} InWithout(s: seq<nat>, e: nat, x: nat)
    ensures x in Without(s, e) <==> x in s && x != e
  {
    if s != [] {
      InWithout(s[..|s| - 1], e, x);
      assert s == s[..|s| - 1] + [s[|s| - 1]];
    }
  }

  /** Node x is held exactly when it is kept, up to the failing node. */
  lemma HeldIsKept(order: seq<nat>, keep: nat -> bool, e: nat, collection: seq<SubGraph>, x: nat)
    requires NodesOf(collection) == Runs(order, keep) || AnswersFor(order, keep, e, collection)
    ensures Held(collection, x) ==> x in order && keep(x)
    ensures x in order && keep(x) && x != e ==> Held(collection, x)
    ensures NodesOf(collection) == Runs(order, keep) && x in order && keep(x) ==> Held(collection, x)
  {
    HeldIsFlat(collection, x);
    AllRuns(order, keep);
    InKept(order, keep, x);
    InWithout(Kept(order, keep), e, x);
  }

  lemma QueryHolds(nodes: seq<Node>, operators: set<string>, parsed: bool, errors: seq<ParserError>,
                   order: seq<nat>, supported: bool, collection: seq<SubGraph>)
    requires forall x: nat :: x in order <==> x < |nodes|
    requires var keep := Supports(nodes, operators, if parsed then "" else FaultyInput(errors));
             AnswersInRuns(order, keep, errors, supported, collection)
    ensures HoldsWanted(nodes, operators, parsed, errors, supported, collection)
  {
    var keep := Supports(nodes, operators, if parsed then "" else FaultyInput(errors));
    KeepIsWanted(nodes, operators, parsed, errors);
    FailingNodeIsFailure(errors);
    forall x: nat
      ensures Held(collection, x) ==> Wanted(nodes, operators, parsed, errors, x)
      ensures Wanted(nodes, operators, parsed, errors, x) && x != FailingNode(errors) ==> Held(collection, x)
      ensures Wanted(nodes, operators, parsed, errors, x) && (supported || InputFailed(errors)) ==> Held(collection, x)
    {
      HeldIsKept(order, keep, FailingNode(errors), collection, x);
    }
  }

  /** For a list in order the failing node is not held. */
  lemma FailureIsCut(errors: seq<ParserError>, n: nat, keep: nat -> bool, collection: seq<SubGraph>)
    requires CutCorrectly(collection, n, keep, FailingNode(errors))
    ensures forall e: nat :: IsFailure(errors, e) ==> !Held(collection, e)
  {
    FailingNodeIsFailure(errors);
    forall e: nat | IsFailure(errors, e) ensures !Held(collection, e) {
      FailureIsUnique(errors, e, FailingNode(errors));
      HeldIsFlat(collection, e);
      InWithout(Kept(Iota(n), keep), e, e);
    }
  }

  /** The answer for a list in order: which blocks, which marks, and that the failing node is cut out. */
  ghost predicate AnswersInOrder(nodes: seq<Node>, keep: nat -> bool, errors: seq<ParserError>, supported: bool,
                                 collection: seq<SubGraph>) {
    && Intervals(NodesOf(collection))
    && Answers(nodes, keep, errors, supported, collection)
    && (!supported && !InputFailed(errors) ==> forall e: nat :: IsFailure(errors, e) ==> !Held(collection, e))
  }

  /** The answer for any list that can be sorted. */
  ghost predicate AnswersInRuns(order: seq<nat>, keep: nat -> bool, errors: seq<ParserError>, supported: bool,
                                collection: seq<SubGraph>) {
    if supported || InputFailed(errors) then
      && NodesOf(collection) == Runs(order, keep)
      && (!supported ==> forall p :: p in collection ==> !p.supported)
    else
      AnswersFor(order, keep, FailingNode(errors), collection)
  }

  lemma AllAreWanted(nodes: seq<Node>, operators: set<string>, parsed: bool, errors: seq<ParserError>, order: seq<nat>)
    requires forall x: nat :: x in order <==> x < |nodes|
    ensures var keep := Supports(nodes, operators, if parsed then "" else FaultyInput(errors));
            AllKept(order, keep) <==> forall x: nat :: x < |nodes| ==> Wanted(nodes, operators, parsed, errors, x)
  {
    var keep := Supports(nodes, operators, if parsed then "" else FaultyInput(errors));
    KeepIsWanted(nodes, operators, parsed, errors);
    if AllKept(order, keep) {
      forall x: nat | x < |nodes| ensures Wanted(nodes, operators, parsed, errors, x) {
        assert x in order && keep(x);
      }
    }
    if forall x: nat :: x < |nodes| ==> Wanted(nodes, operators, parsed, errors, x) {
      forall x: nat | x in order ensures keep(x) {
        assert Wanted(nodes, operators, parsed, errors, x);
      }
    }
  }

  /** The query for nodes that have been sorted. */
  method SupportsSorted(nodes: seq<Node>, operators: set<string>, parsed: bool, errors: seq<ParserError>,
                        order: seq<nat>)
    returns (supported: bool, collection: seq<SubGraph>)
    requires IsTopologicalOrder(nodes, order)
    ensures forall p :: p in collection ==> |p.nodes| > 0
    ensures supported <==> parsed && forall x: nat :: x < |nodes| ==> Wanted(nodes, operators, parsed, errors, x)
    ensures HoldsWanted(nodes, operators, parsed, errors, supported, collection)
    ensures var keep := Supports(nodes, operators, if parsed then "" else FaultyInput(errors));
            && AnswersInRuns(order, keep, errors, supported, collection)
            && (order == Iota(|nodes|) ==> AnswersInOrder(nodes, keep, errors, supported, collection))
  {
    var errorNode, inputNode, inputError := ScanErrors(errors);
    var keep := Supports(nodes, operators, if parsed then "" else inputNode);
    supported, collection := Partition(order, keep, parsed, inputError, errorNode);
    assert AnswersInRuns(order, keep, errors, supported, collection);
    AllAreWanted(nodes, operators, parsed, errors, order);
    QueryHolds(nodes, operators, parsed, errors, order, supported, collection);
    if order == Iota(|nodes|) && !supported && !inputError {
      FailureIsCut(errors, |nodes|, keep, collection);
    }
  }

  /** `parsed` and `errors` are the outcome of the trial parse made first; `order` is the order of the nodes. */
  method SupportsModel(nodes: seq<Node>, operators: set<string>, parsed: bool, errors: seq<ParserError>)
    returns (supported: bool, collection: seq<SubGraph>, ghost order: seq<nat>)
    ensures DuplicateOutput(nodes) || HasCycle(nodes) ==> !supported && collection == []
    ensures !DuplicateOutput(nodes) && !HasCycle(nodes) ==> IsTopologicalOrder(nodes, order)
    ensures ListedInOrder(nodes) && !DuplicateOutput(nodes) ==> order == Iota(|nodes|)
    ensures forall p :: p in collection ==> |p.nodes| > 0
    ensures !DuplicateOutput(nodes) && !HasCycle(nodes) ==>
              (supported <==> parsed && forall x: nat :: x < |nodes| ==> Wanted(nodes, operators, parsed, errors, x))
    ensures !DuplicateOutput(nodes) && !HasCycle(nodes) ==>
              HoldsWanted(nodes, operators, parsed, errors, supported, collection)
    ensures var keep := Supports(nodes, operators, if parsed then "" else FaultyInput(errors));
            !DuplicateOutput(nodes) && !HasCycle(nodes) ==> AnswersInRuns(order, keep, errors, supported, collection)
    ensures var keep := Supports(nodes, operators, if parsed then "" else FaultyInput(errors));
            ListedInOrder(nodes) && !DuplicateOutput(nodes) ==>
              AnswersInOrder(nodes, keep, errors, supported, collection)
  {
    var ok, sorted := Sort(nodes);
    order := sorted;
    if ok {
      supported, collection := SupportsSorted(nodes, operators, parsed, errors, sorted);
    } else {
      supported, collection := false, [];
    }
  }

  const A_THEN_B: seq<Node> := [Node("A", [], ["a"]), Node("B", ["a"], ["b"])]

  lemma ExampleInOrder()
    ensures ListedInOrder(A_THEN_B) && !DuplicateOutput(A_THEN_B)
  {
    assert A_THEN_B[0].inputs == [] && A_THEN_B[1].inputs == ["a"];
    assert A_THEN_B[0].outputs == ["a"] && A_THEN_B[1].outputs == ["b"];
    assert "a" != "b" by { assert "a"[0] != "b"[0]; }
  }

  lemma TwoKept(keep: nat -> bool)
    requires keep(0) && keep(1)
    ensures Without(Kept(Iota(2), keep), 0) == [1]
  {
    assert Iota(2) == [0, 1] && [0, 1][..1] == [0] && [0][..0] == [];
    assert Kept([0], keep) == Kept([], keep) + [0];
    assert Kept([0, 1], keep) == Kept([0], keep) + [1] == [0, 1];
    assert Without([0], 0) == Without([], 0) + [];
  }

  /** Blocks that hold one node together are one block. */
  lemma OneBlock(collection: seq<SubGraph>, x: nat)
    requires (forall p :: p in collection ==> |p.nodes| > 0) && Flatten(NodesOf(collection)) == [x]
    ensures |collection| == 1 && collection[0].nodes == [x]
  {
    forall g | 0 <= g < |collection| ensures |NodesOf(collection)[g]| > 0 {
      assert collection[g] in collection;
    }
    FlattenAtLeast(NodesOf(collection));
    FlattenPresent(collection[0].nodes);
    assert NodesOf(collection) == [collection[0].nodes];
  }

  lemma {:induction false} FlattenAtLeast(blocks: seq<seq<nat>>)
    requires NonEmpty(blocks)
    ensures |Flatten(blocks)| >= |blocks| && (blocks == [] ==> Flatten(blocks) == [])
  {
    if blocks != [] {
      FlattenAtLeast(blocks[..|blocks| - 1]);
    }
  }

  /** Two supported nodes of which the first fails to parse: the second is reported as supported, although it comes
      after the failure, because the mark is set before the cut. */
  method TailAfterFailureIsMarked() returns (supported: bool, collection: seq<SubGraph>)
    ensures !supported && collection == [SubGraph([1], true)]
  {
    ExampleInOrder();
    ghost var order;
    var errors := [ParserError(0, "")];
    supported, collection, order := SupportsModel(A_THEN_B, {"A", "B"}, false, errors);
    ExampleAnswer(errors, supported, collection);
  }

  lemma FirstOfTwoFails(collection: seq<SubGraph>, keep: nat -> bool)
    requires keep(0) && keep(1) && CutCorrectly(collection, 2, keep, 0)
    ensures collection == [SubGraph([1], true)]
  {
    TwoKept(keep);
    forall p | p in collection ensures |p.nodes| > 0 {
      assert MarkedRight(p, 0, true);
    }
    OneBlock(collection, 1);
    assert collection[0] in collection;
  }

  lemma ExampleErrors(errors: seq<ParserError>)
    requires errors == [ParserError(0, "")]
    ensures FailingNode(errors) == 0 && FaultyInput(errors) == "" && forall e :: e in errors ==> e.node != -1
  {
    assert errors[..0] == [];
  }

  lemma ExampleAnswer(errors: seq<ParserError>, supported: bool, collection: seq<SubGraph>)
    requires errors == [ParserError(0, "")] && !supported
    requires Answers(A_THEN_B, Supports(A_THEN_B, {"A", "B"}, FaultyInput(errors)), errors, supported, collection)
    ensures collection == [SubGraph([1], true)]
  {
    ExampleErrors(errors);
    FirstOfTwoFails(collection, Supports(A_THEN_B, {"A", "B"}, ""));
  }
}
