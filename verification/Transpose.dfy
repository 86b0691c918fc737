/** When a transpose moves no data, and the transposes built from that test:
    is_transpose_required, transpose_tensor and move_tensor_dimension in
    3rdparty/onnx-tensorrt/builtin_op_importers.cpp. */
module Transpose {
  import opened Wrappers
  import opened Sequences
  import opened Arithmetic
  import opened TensorLayout

  // ---------- Positions seen through a list of dimensions ----------

  ghost predicate Within(idx: seq<nat>, n: nat) {
    forall k :: 0 <= k < |idx| ==> idx[k] < n
  }

  /** Row-major position when the dimensions are visited in the order idx. */
  ghost function Via(shape: seq<nat>, c: seq<nat>, idx: seq<nat>): nat
    requires |c| == |shape| && Within(idx, |shape|)
  {
    if idx == [] then 0
    else Via(shape, c, idx[..|idx| - 1]) * shape[idx[|idx| - 1]] + c[idx[|idx| - 1]]
  }

  lemma {:induction false} LinearOfPick(shape: seq<nat>, c: seq<nat>, idx: seq<nat>)
    requires |c| == |shape| && Within(idx, |shape|)
    ensures Linear(Pick(shape, idx), Pick(c, idx)) == Via(shape, c, idx)
  {
    if idx != [] {
      var n := |idx| - 1;
      LinearOfPick(shape, c, idx[..n]);
      assert Pick(shape, idx)[..n] == Pick(shape, idx[..n]) && Pick(c, idx)[..n] == Pick(c, idx[..n]);
    }
  }

  lemma LinearIsVia(shape: seq<nat>, c: seq<nat>)
    requires |c| == |shape|
    ensures Linear(shape, c) == Via(shape, c, Iota(|shape|))
  {
    LinearOfPick(shape, c, Iota(|shape|));
    assert Pick(shape, Iota(|shape|)) == shape && Pick(c, Iota(|shape|)) == c;
  }

  /** The listed dimensions that are not 1, in the listed order. */
  ghost function Significant(shape: seq<nat>, idx: seq<nat>): (sig: seq<nat>)
    requires Within(idx, |shape|)
    ensures Within(sig, |shape|)
  {
    if idx == [] then []
    else Significant(shape, idx[..|idx| - 1]) + (if shape[idx[|idx| - 1]] != 1 then [idx[|idx| - 1]] else [])
  }

  lemma ViaSnoc(shape: seq<nat>, c: seq<nat>, idx: seq<nat>, i: nat)
    requires |c| == |shape| && Within(idx, |shape|) && i < |shape|
    ensures Via(shape, c, idx + [i]) == Via(shape, c, idx) * shape[i] + c[i]
  {
    assert (idx + [i])[..|idx|] == idx;
  }

  lemma SignificantSnoc(shape: seq<nat>, idx: seq<nat>, i: nat)
    requires Within(idx, |shape|) && i < |shape|
    ensures Significant(shape, idx + [i]) == Significant(shape, idx) + (if shape[i] != 1 then [i] else [])
  {
    assert (idx + [i])[..|idx|] == idx;
  }

  /** Dimensions of size 1 do not contribute to a position. */
  lemma {:induction false} ViaSignificant(shape: seq<nat>, c: seq<nat>, idx: seq<nat>)
    requires InBox(shape, c) && Within(idx, |shape|)
    ensures Via(shape, c, idx) == Via(shape, c, Significant(shape, idx))
  {
    if idx != [] {
      var n := |idx| - 1;
      ViaSignificant(shape, c, idx[..n]);
      if shape[idx[n]] == 1 {
        assert c[idx[n]] == 0;
        assert Significant(shape, idx) == Significant(shape, idx[..n]);
      } else {
        ViaSnoc(shape, c, Significant(shape, idx[..n]), idx[n]);
      }
    }
  }

  lemma {:induction false} SignificantMembers(shape: seq<nat>, idx: seq<nat>, i: nat)
    requires Within(idx, |shape|)
    ensures i in Significant(shape, idx) <==> i in idx && shape[i] != 1
  {
    if idx != [] {
      SignificantMembers(shape, idx[..|idx| - 1], i);
      assert idx == idx[..|idx| - 1] + [idx[|idx| - 1]];
    }
  }

  lemma {:induction false} SignificantDistinct(shape: seq<nat>, idx: seq<nat>)
    requires Within(idx, |shape|) && Distinct(idx)
    ensures Distinct(Significant(shape, idx))
  {
    if idx != [] {
      var n := |idx| - 1;
      SignificantDistinct(shape, idx[..n]);
      SignificantMembers(shape, idx[..n], idx[n]);
    }
  }

  lemma IncreasingSnoc(s: seq<nat>, i: nat)
    ensures Increasing(s + [i]) <==> Increasing(s) && (s != [] ==> s[|s| - 1] < i)
  {
    if Increasing(s + [i]) {
      assert forall a :: 0 <= a < |s| ==> (s + [i])[a] == s[a];
      assert s != [] ==> (s + [i])[|s| - 1] < (s + [i])[|s|];
    }
  }

  lemma {:induction false} SignificantIncreasing(shape: seq<nat>, idx: seq<nat>)
    requires Within(idx, |shape|) && Increasing(idx)
    ensures Increasing(Significant(shape, idx))
  {
    if idx != [] {
      var n := |idx| - 1;
      var rest := Significant(shape, idx[..n]);
      SignificantIncreasing(shape, idx[..n]);
      IncreasingSnoc(rest, idx[n]);
      if rest != [] {
        SignificantMembers(shape, idx[..n], rest[|rest| - 1]);
      }
    }
  }

  lemma DropSameLast(p: seq<nat>, q: seq<nat>)
    requires Distinct(p) && Distinct(q) && SameElements(p, q)
    requires p != [] && q != [] && p[|p| - 1] == q[|q| - 1]
    ensures SameElements(p[..|p| - 1], q[..|q| - 1])
  {
    var m, n := |p| - 1, |q| - 1;
    forall i: nat ensures i in p[..m] <==> i in q[..n] {
      assert i in p[..m] <==> i in p && i != p[m];
      assert i in q[..n] <==> i in q && i != q[n];
    }
  }

  lemma {:induction false} IncreasingUnique(a: seq<nat>, b: seq<nat>)
    requires Increasing(a) && Increasing(b) && SameElements(a, b)
    ensures a == b
    decreases |a|
  {
    assert (a != [] ==> a[|a| - 1] in a) && (b != [] ==> b[|b| - 1] in b);
    if a != [] && b != [] {
      var m, n := |a| - 1, |b| - 1;
      assert a[m] == b[n];
      DropSameLast(a, b);
      IncreasingUnique(a[..m], b[..n]);
      assert a == a[..m] + [a[m]] && b == b[..n] + [b[n]];
    }
  }

  // ---------- A position map determines the order of its significant dimensions ----------

  ghost function Unit(n: nat, i: nat): (c: seq<nat>)
    ensures |c| == n && forall j :: 0 <= j < n ==> c[j] == if j == i then 1 else 0
  {
    seq(n, j => if j == i then 1 else 0)
  }

  /** One step along a dimension moves the position by at least 1, and by exactly 1 only when the dimension is last. */
  lemma {:induction false} ViaUnit(shape: seq<nat>, idx: seq<nat>, i: nat)
    requires Within(idx, |shape|) && Distinct(idx) && i in idx
    requires forall k :: 0 <= k < |idx| ==> shape[idx[k]] > 1
    ensures Via(shape, Unit(|shape|, i), idx) >= 1
    ensures Via(shape, Unit(|shape|, i), idx) == 1 <==> idx[|idx| - 1] == i
  {
    var n := |idx| - 1;
    var c := Unit(|shape|, i);
    if idx[n] == i {
      ViaZero(shape, c, idx[..n]);
    } else {
      assert i in idx[..n];
      ViaUnit(shape, idx[..n], i);
      assert Via(shape, c, idx[..n]) * shape[idx[n]] >= 2 by {
        MulAtLeast(Via(shape, c, idx[..n]), shape[idx[n]]);
      }
    }
  }

  lemma MulAtLeast(x: int, d: int)
    requires x >= 1 && d >= 2
    ensures x * d >= 2
  {
    assert (x - 1) * d >= 0;
  }

  lemma {:induction false} ViaZero(shape: seq<nat>, c: seq<nat>, idx: seq<nat>)
    requires |c| == |shape| && Within(idx, |shape|)
    requires forall k :: 0 <= k < |idx| ==> c[idx[k]] == 0
    ensures Via(shape, c, idx) == 0
  {
    if idx != [] {
      ViaZero(shape, c, idx[..|idx| - 1]);
    }
  }

  /** Visiting the dimensions in either order gives every coordinate vector the same position. */
  ghost predicate SamePositions(shape: seq<nat>, p: seq<nat>, q: seq<nat>)
    requires Within(p, |shape|) && Within(q, |shape|)
  {
    forall c :: InBox(shape, c) ==> Via(shape, c, p) == Via(shape, c, q)
  }

  ghost predicate Large(shape: seq<nat>, p: seq<nat>)
    requires Within(p, |shape|)
  {
    forall k :: 0 <= k < |p| ==> shape[p[k]] > 1
  }

  /** The last dimension is the one along which a step moves the position by 1. */
  lemma SameLast(shape: seq<nat>, p: seq<nat>, q: seq<nat>)
    requires Within(p, |shape|) && Within(q, |shape|) && Distinct(p) && Distinct(q)
    requires Large(shape, p) && Large(shape, q) && Positive(shape)
    requires p != [] && p[|p| - 1] in q && SamePositions(shape, p, q)
    ensures q != [] && q[|q| - 1] == p[|p| - 1]
  {
    var i := p[|p| - 1];
    ViaUnit(shape, p, i);
    ViaUnit(shape, q, i);
    assert InBox(shape, Unit(|shape|, i));
  }

  lemma DropLast(shape: seq<nat>, p: seq<nat>, q: seq<nat>)
    requires Within(p, |shape|) && Within(q, |shape|)
    requires p != [] && q != [] && p[|p| - 1] == q[|q| - 1] && shape[p[|p| - 1]] > 0
    requires SamePositions(shape, p, q)
    ensures SamePositions(shape, p[..|p| - 1], q[..|q| - 1])
  {
    var m, n := |p| - 1, |q| - 1;
    forall c | InBox(shape, c) ensures Via(shape, c, p[..m]) == Via(shape, c, q[..n]) {
      HornerUnique(Via(shape, c, p[..m]), 0, Via(shape, c, q[..n]), 0, shape[p[m]]);
    }
  }

  lemma {:induction false} SamePositionsSameOrder(shape: seq<nat>, p: seq<nat>, q: seq<nat>)
    requires Within(p, |shape|) && Within(q, |shape|) && Distinct(p) && Distinct(q)
    requires Large(shape, p) && Large(shape, q) && Positive(shape)
    requires SameElements(p, q) && SamePositions(shape, p, q)
    ensures p == q
    decreases |p|
  {
    assert (p != [] ==> p[|p| - 1] in p) && (q != [] ==> q[|q| - 1] in q);
    if p != [] && q != [] {
      var m, n := |p| - 1, |q| - 1;
      SameLast(shape, p, q);
      DropLast(shape, p, q);
      DropSameLast(p, q);
      SamePositionsSameOrder(shape, p[..m], q[..n]);
      assert p == p[..m] + [p[m]] && q == q[..n] + [q[n]];
    }
  }

  // ---------- The test ----------

  /** Transposing by perm leaves the row-major data of every tensor of this shape where it is. */
  ghost predicate MovesNothing(shape: seq<nat>, perm: seq<nat>)
    requires Within(perm, |shape|)
  {
    forall c :: InBox(shape, c) ==> Linear(Pick(shape, perm), Pick(c, perm)) == Linear(shape, c)
  }

  /** The significant dimensions of a permutation are those of the shape, in another order. */
  lemma SameSignificant(shape: seq<nat>, perm: seq<nat>)
    requires Positive(shape) && IsPermutation(perm, |shape|)
    ensures var p, q := Significant(shape, perm), Significant(shape, Iota(|shape|));
            Distinct(p) && SameElements(p, q) && Large(shape, p)
  {
    var p, q := Significant(shape, perm), Significant(shape, Iota(|shape|));
    SignificantDistinct(shape, perm);
    forall i: nat ensures (i in p <==> i in q) && (i in p ==> i < |shape| && shape[i] > 1) {
      SignificantMembers(shape, perm, i);
      SignificantMembers(shape, Iota(|shape|), i);
    }
    assert forall k :: 0 <= k < |p| ==> p[k] in p;
  }

  lemma PositionsVia(shape: seq<nat>, perm: seq<nat>, c: seq<nat>)
    requires IsPermutation(perm, |shape|) && InBox(shape, c)
    ensures Linear(shape, c) == Via(shape, c, Significant(shape, Iota(|shape|)))
    ensures Linear(Pick(shape, perm), Pick(c, perm)) == Via(shape, c, Significant(shape, perm))
  {
    LinearIsVia(shape, c);
    LinearOfPick(shape, c, perm);
    ViaSignificant(shape, c, perm);
    ViaSignificant(shape, c, Iota(|shape|));
  }

  lemma MovesNothingIsSamePositions(shape: seq<nat>, perm: seq<nat>)
    requires IsPermutation(perm, |shape|)
    ensures MovesNothing(shape, perm) <==>
              SamePositions(shape, Significant(shape, perm), Significant(shape, Iota(|shape|)))
  {
    forall c | InBox(shape, c)
      ensures Linear(shape, c) == Via(shape, c, Significant(shape, Iota(|shape|)))
      ensures Linear(Pick(shape, perm), Pick(c, perm)) == Via(shape, c, Significant(shape, perm))
    {
      PositionsVia(shape, perm, c);
    }
  }

  /** Data stays in place exactly when the dimensions larger than 1 keep their order. */
  lemma MovesNothingIffInOrder(shape: seq<nat>, perm: seq<nat>)
    requires Positive(shape) && IsPermutation(perm, |shape|)
    ensures MovesNothing(shape, perm) <==> Increasing(Significant(shape, perm))
  {
    var id := Iota(|shape|);
    var p, q := Significant(shape, perm), Significant(shape, id);
    SameSignificant(shape, perm);
    SameSignificant(shape, id);
    SignificantIncreasing(shape, id);
    MovesNothingIsSamePositions(shape, perm);
    if Increasing(p) {
      IncreasingUnique(p, q);
    }
    if MovesNothing(shape, perm) {
      SamePositionsSameOrder(shape, p, q);
    }
  }

  lemma {:induction false} SignificantPrefix(shape: seq<nat>, idx: seq<nat>, n: nat)
    requires Within(idx, |shape|) && n <= |idx| && !Increasing(Significant(shape, idx[..n]))
    ensures !Increasing(Significant(shape, idx))
    decreases |idx|
  {
    if n < |idx| {
      var m := |idx| - 1;
      assert idx[..m][..n] == idx[..n];
      SignificantPrefix(shape, idx[..m], n);
      var rest := Significant(shape, idx[..m]);
      assert Significant(shape, idx) == if shape[idx[m]] != 1 then rest + [idx[m]] else rest;
      IncreasingSnoc(rest, idx[m]);
    } else {
      assert idx[..n] == idx;
    }
  }

  /** What the scan knows after i dimensions. */
  ghost predicate Scanned(sig: seq<nat>, prev: nat) {
    Increasing(sig) && prev == if sig == [] then 0 else sig[|sig| - 1]
  }

  lemma ScanMore(sig: seq<nat>, prev: nat, i: nat)
    requires Scanned(sig, prev) && i !in sig
    ensures i >= prev ==> Scanned(sig + [i], i)
    ensures i < prev ==> !Increasing(sig + [i])
  {
    IncreasingSnoc(sig, i);
    assert sig != [] ==> sig[|sig| - 1] in sig;
  }

  lemma ScanStep(shape: seq<nat>, perm: seq<nat>, i: nat, prev: nat)
    requires Within(perm, |shape|) && Distinct(perm) && i < |perm| && Scanned(Significant(shape, perm[..i]), prev)
    ensures shape[perm[i]] == 1 ==> Scanned(Significant(shape, perm[..i + 1]), prev)
    ensures shape[perm[i]] != 1 && perm[i] >= prev ==> Scanned(Significant(shape, perm[..i + 1]), perm[i])
    ensures shape[perm[i]] != 1 && perm[i] < prev ==> !Increasing(Significant(shape, perm))
  {
    var sig := Significant(shape, perm[..i]);
    assert perm[..i + 1] == perm[..i] + [perm[i]];
    SignificantSnoc(shape, perm[..i], perm[i]);
    assert perm[i] !in perm[..i];
    SignificantMembers(shape, perm[..i], perm[i]);
    ScanMore(sig, prev, perm[i]);
    if shape[perm[i]] != 1 && perm[i] < prev {
      SignificantPrefix(shape, perm, i + 1);
    }
  }

  /** True means that a reshape suffices: the name and its comment say the opposite of what the caller does with it. */
  method IsTransposeRequired(shape: seq<nat>, perm: seq<nat>) returns (reshapeSuffices: bool)
    requires Positive(shape) && IsPermutation(perm, |shape|)
    ensures reshapeSuffices <==> MovesNothing(shape, perm)
  {
    var prev := 0;
    for i := 0 to |shape|
      invariant Scanned(Significant(shape, perm[..i]), prev)
    {
      ScanStep(shape, perm, i, prev);
      var src := perm[i];
      if shape[src] != 1 {
        if src < prev {
          MovesNothingIffInOrder(shape, perm);
          return false;
        }
        prev := src;
      }
    }
    assert perm[..|shape|] == perm;
    MovesNothingIffInOrder(shape, perm);
    reshapeSuffices := true;
  }

  // ---------- The transposes the importers build ----------

  /** On both branches the result is the transpose. */
  method TransposeTensor<T(!new)>(t: Tensor<T>, perm: seq<nat>) returns (r: Tensor<T>)
    requires t.Valid() && IsPermutation(perm, |t.shape|)
    ensures r == TransposeBy(t, perm)
  {
    TransposeValid(t.shape, perm);
    var reshapeSuffices := IsTransposeRequired(t.shape, perm);
    if !reshapeSuffices {
      r := TransposeBy(t, perm);
    } else {
      var newShape := [];
      for i := 0 to |t.shape|
        invariant newShape == Pick(t.shape, perm)[..i]
      {
        newShape := newShape + [t.shape[perm[i]]];
      }
      assert newShape == Pick(t.shape, perm);
      r := Reshape(t, newShape);
      ReshapeTransposes(t, perm);
      TransposeByIsTranspose(t, perm);
      TransposeUnique(t, perm, r, TransposeBy(t, perm));
    }
  }

  lemma ReshapeTransposes<T(!new)>(t: Tensor<T>, perm: seq<nat>)
    requires t.Valid() && IsPermutation(perm, |t.shape|) && MovesNothing(t.shape, perm)
    requires Size(Pick(t.shape, perm)) == |t.data| && Positive(Pick(t.shape, perm))
    ensures IsTransposeOf(t, perm, Reshape(t, Pick(t.shape, perm)))
  {
    var u := Reshape(t, Pick(t.shape, perm));
    forall c: seq<nat> | InBox(t.shape, c) ensures InBox(u.shape, Pick(c, perm)) && At(u, Pick(c, perm)) == At(t, c) {
      PickInBox(t.shape, c, perm);
    }
  }

  lemma StaysInPlace<T(!new)>(t: Tensor<T>, perm: seq<nat>)
    requires t.Valid() && IsPermutation(perm, |t.shape|) && MovesNothing(t.shape, perm)
    ensures TransposeBy(t, perm).data == t.data
  {
    TransposeValid(t.shape, perm);
    TransposeByIsTranspose(t, perm);
    ReshapeTransposes(t, perm);
    TransposeUnique(t, perm, TransposeBy(t, perm), Reshape(t, Pick(t.shape, perm)));
  }

  ghost predicate Numbered(t: Tensor<int>) {
    forall k :: 0 <= k < |t.data| ==> t.data[k] == k
  }

  lemma TransposeAt(t: Tensor<int>, perm: seq<nat>, l: nat)
    requires t.Valid() && IsPermutation(perm, |t.shape|) && l < |t.data|
    ensures TransposeBy(t, perm).data[l] == t.data[SourceOf(t.shape, perm, l)]
  {
  }

  /** Numbering the elements shows a move. */
  lemma MoveShows(shape: seq<nat>, perm: seq<nat>, c: seq<nat>, t: Tensor<int>)
    requires t.Valid() && t.shape == shape && IsPermutation(perm, |shape|) && InBox(shape, c) && Numbered(t)
    requires Linear(Pick(shape, perm), Pick(c, perm)) != Linear(shape, c)
    ensures TransposeBy(t, perm).data != t.data
  {
    var l := Linear(Pick(shape, perm), Pick(c, perm));
    SourceOfPosition(shape, perm, c);
    TransposeAt(t, perm, l);
  }

  /** The test tells exactly whether the data of every tensor of the shape stays in place. */
  lemma MovesNothingOnData(shape: seq<nat>, perm: seq<nat>)
    requires Positive(shape) && IsPermutation(perm, |shape|)
    ensures MovesNothing(shape, perm) <==>
              forall t: Tensor<int> :: t.Valid() && t.shape == shape ==> TransposeBy(t, perm).data == t.data
  {
    if MovesNothing(shape, perm) {
      forall t: Tensor<int> | t.Valid() && t.shape == shape ensures TransposeBy(t, perm).data == t.data {
        StaysInPlace(t, perm);
      }
    } else {
      var c :| InBox(shape, c) && Linear(Pick(shape, perm), Pick(c, perm)) != Linear(shape, c);
      MoveShows(shape, perm, c, Tensor(shape, seq(Size(shape), k => k)));
    }
  }

  /** Which dimension ends up at position k when dimension `from` moves to position `to`. */
  ghost function MovedFrom(from: nat, to: nat, k: nat): nat {
    if k == to then from
    else var j := if k < to then k else k - 1; if j < from then j else j + 1
  }

  /** The permutation that moves dimension `from` to position `to`. */
  ghost function MovePerm(n: nat, from: nat, to: nat): (perm: seq<nat>)
    requires from < n && to < n
    ensures |perm| == n && forall k :: 0 <= k < n ==> perm[k] == MovedFrom(from, to, k) < n
  {
    seq(n, k requires 0 <= k < n => MovedFrom(from, to, k))
  }

  lemma MovePermIsPermutation(n: nat, from: nat, to: nat)
    requires from < n && to < n
    ensures IsPermutation(MovePerm(n, from, to), n)
  {
    var perm := MovePerm(n, from, to);
    forall i: nat | i < n ensures i in perm {
      var k := MovedFrom(to, from, i);
      assert perm[k] == i;
    }
  }

  /** Moving there and back leaves every dimension where it was. */
  lemma MoveBack(n: nat, from: nat, to: nat)
    requires from < n && to < n
    ensures IsPermutation(MovePerm(n, from, to), n)
    ensures MovePerm(n, to, from) == Inverse(MovePerm(n, from, to))
  {
    MovePermIsPermutation(n, from, to);
    InverseIsPermutation(MovePerm(n, from, to));
    forall k: nat | k < n ensures MovePerm(n, to, from)[k] == Inverse(MovePerm(n, from, to))[k] {
      assert MovePerm(n, from, to)[MovedFrom(to, from, k)] == k;
    }
  }

  /** Erasing element `from` of 0..n-1 and inserting it again at `to` gives that permutation. */
  lemma EraseInsert(n: nat, from: nat, to: nat, erased: seq<nat>, result: seq<nat>)
    requires from < n && to < n
    requires erased == Iota(n)[..from] + Iota(n)[from + 1..]
    requires result == erased[..to] + [from] + erased[to..]
    ensures result == MovePerm(n, from, to)
  {
    assert forall j :: 0 <= j < n - 1 ==> erased[j] == if j < from then j else j + 1;
    forall k: nat | k < n ensures result[k] == MovedFrom(from, to, k) {
      if k < to {
        assert result[k] == erased[k];
      } else if k > to {
        assert result[k] == erased[k - 1];
      }
    }
  }

  /** t with dimension `from` moved to position `to`. */
  ghost function MoveDimension<T>(t: Tensor<T>, from: nat, to: nat): (u: Tensor<T>)
    requires t.Valid() && from < |t.shape| && to < |t.shape|
    ensures u.Valid() && |u.data| == |t.data| && u.shape == Pick(t.shape, MovePerm(|t.shape|, from, to))
  {
    MovePermIsPermutation(|t.shape|, from, to);
    TransposeValid(t.shape, MovePerm(|t.shape|, from, to));
    TransposeBy(t, MovePerm(|t.shape|, from, to))
  }

  /** Elements travel with their coordinates. */
  lemma MoveElement<T(!new)>(t: Tensor<T>, from: nat, to: nat, c: seq<nat>, d: seq<nat>, k: nat, l: nat)
    requires t.Valid() && from < |t.shape| && to < |t.shape| && InBox(t.shape, c)
    requires Pick(c, MovePerm(|t.shape|, from, to)) == d
    requires Linear(t.shape, c) == k && Linear(MoveDimension(t, from, to).shape, d) == l
    ensures k < |t.data| && l < |t.data| && MoveDimension(t, from, to).data[l] == t.data[k]
  {
    MovePermIsPermutation(|t.shape|, from, to);
    TransposeElement(t, MovePerm(|t.shape|, from, to), c);
  }

  /** Moving a dimension there and back restores the tensor. */
  lemma MoveDimensionBack<T(!new)>(t: Tensor<T>, from: nat, to: nat)
    requires t.Valid() && from < |t.shape| && to < |t.shape|
    ensures MoveDimension(MoveDimension(t, from, to), to, from) == t
  {
    var perm, u := MovePerm(|t.shape|, from, to), MoveDimension(t, from, to);
    MoveBack(|t.shape|, from, to);
    TransposeByIsTranspose(t, perm);
    TransposeBack(t, perm, u);
    TransposeByIsTranspose(u, Inverse(perm));
    TransposeUnique(u, Inverse(perm), t, TransposeBy(u, Inverse(perm)));
  }

  /** Refuses dimensions out of range; otherwise moves the dimension. */
  method MoveTensorDimension<T(!new)>(t: Tensor<T>, from: int, to: int) returns (r: Option<Tensor<T>>)
    requires t.Valid()
    ensures r.Some? <==> 0 <= from < |t.shape| && 0 <= to < |t.shape|
    ensures r.Some? ==> r.value == MoveDimension(t, from, to)
  {
    var n := |t.shape|;
    if !(0 <= from < n) {
      return None;
    }
    if !(0 <= to < n) {
      return None;
    }
    var perm: seq<nat> := [];
    for i := 0 to n
      invariant perm == Iota(n)[..i]
    {
      perm := perm + [i];
    }
    var erased, moved: seq<nat> := perm[..from] + perm[from + 1..], [from];
    perm := erased[..to] + moved + erased[to..];
    EraseInsert(n, from, to, erased, perm);
    MovePermIsPermutation(n, from, to);
    var u := TransposeTensor(t, perm);
    r := Some(u);
  }
}
