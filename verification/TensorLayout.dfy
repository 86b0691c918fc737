/** Row-major tensors and the transposes and reshapes that the op importers build:
    3rdparty/onnx-tensorrt/builtin_op_importers.cpp. */
module TensorLayout {
  import opened Sequences
  import opened Arithmetic

  // ---------- Row-major indexing ----------

  function Size(shape: seq<nat>): nat {
    if shape == [] then 1 else Size(shape[..|shape| - 1]) * shape[|shape| - 1]
  }

  ghost predicate Positive(shape: seq<nat>) {
    forall i :: 0 <= i < |shape| ==> shape[i] > 0
  }

  /** c is a coordinate vector of a tensor of that shape. */
  ghost predicate InBox(shape: seq<nat>, c: seq<nat>) {
    |c| == |shape| && forall i :: 0 <= i < |c| ==> c[i] < shape[i]
  }

  /** Row-major position of a coordinate vector. */
  function Linear(shape: seq<nat>, c: seq<nat>): nat
    requires |c| == |shape|
    decreases |c|
  {
    if c == [] then 0
    else Linear(shape[..|c| - 1], c[..|c| - 1]) * shape[|c| - 1] + c[|c| - 1]
  }

  /** Coordinate vector of a row-major position. */
  function Unravel(shape: seq<nat>, k: nat): (c: seq<nat>)
    requires Positive(shape)
    ensures |c| == |shape|
  {
    if shape == [] then []
    else Unravel(shape[..|shape| - 1], k / shape[|shape| - 1]) + [k % shape[|shape| - 1]]
  }

  lemma {:induction false} SizePositive(shape: seq<nat>)
    requires Positive(shape)
    ensures Size(shape) > 0
  {
    if shape != [] {
      SizePositive(shape[..|shape| - 1]);
    }
  }

  lemma {:induction false} LinearInRange(shape: seq<nat>, c: seq<nat>)
    requires InBox(shape, c)
    ensures Linear(shape, c) < Size(shape)
    decreases |c|
  {
    if c != [] {
      var n := |c| - 1;
      LinearInRange(shape[..n], c[..n]);
      HornerBound(Linear(shape[..n], c[..n]), Size(shape[..n]), c[n], shape[n]);
    }
  }

  lemma {:induction false} UnravelInBox(shape: seq<nat>, k: nat)
    requires Positive(shape) && k < Size(shape)
    ensures InBox(shape, Unravel(shape, k)) && Linear(shape, Unravel(shape, k)) == k
  {
    if shape != [] {
      var n := |shape| - 1;
      DivModSplit(k, Size(shape[..n]), shape[n]);
      UnravelInBox(shape[..n], k / shape[n]);
      assert Unravel(shape, k)[..n] == Unravel(shape[..n], k / shape[n]);
    }
  }

  /** Distinct coordinates have distinct positions. */
  lemma {:induction false} LinearInjective(shape: seq<nat>, c: seq<nat>, c': seq<nat>)
    requires InBox(shape, c) && InBox(shape, c') && Linear(shape, c) == Linear(shape, c')
    ensures c == c'
    decreases |c|
  {
    if c != [] {
      var n := |c| - 1;
      HornerUnique(Linear(shape[..n], c[..n]), c[n], Linear(shape[..n], c'[..n]), c'[n], shape[n]);
      LinearInjective(shape[..n], c[..n], c'[..n]);
      assert c == c[..n] + [c[n]] && c' == c'[..n] + [c'[n]];
    }
  }

  lemma {:induction false} SizeConcat(a: seq<nat>, b: seq<nat>)
    ensures Size(a + b) == Size(a) * Size(b)
  {
    if b == [] {
      assert a + b == a;
    } else {
      var n := |b| - 1;
      SizeConcat(a, b[..n]);
      assert (a + b)[..|a + b| - 1] == a + b[..n];
      assert Size(a) * Size(b[..n]) * b[n] == Size(a) * (Size(b[..n]) * b[n]);
    }
  }

  lemma {:induction false} LinearConcat(a: seq<nat>, b: seq<nat>, c: seq<nat>, e: seq<nat>)
    requires |c| == |a| && |e| == |b|
    ensures Linear(a + b, c + e) == Linear(a, c) * Size(b) + Linear(b, e)
    decreases |b|
  {
    if b == [] {
      assert a + b == a && c + e == c;
    } else {
      var n := |b| - 1;
      LinearConcat(a, b[..n], c, e[..n]);
      assert (a + b)[..|a + b| - 1] == a + b[..n] && (c + e)[..|a + b| - 1] == c + e[..n];
      HornerConcat(Linear(a, c), Size(b[..n]), Linear(b[..n], e[..n]), b[n], e[n]);
    }
  }

  // ---------- Permutations ----------

  ghost predicate IsPermutation(perm: seq<nat>, n: nat) {
    && |perm| == n && Distinct(perm)
    && (forall k :: 0 <= k < n ==> perm[k] < n)
    && (forall i: nat :: i < n ==> i in perm)
  }

  /** The elements of s at the listed positions. */
  function Pick<T>(s: seq<T>, idx: seq<nat>): (r: seq<T>)
    requires forall k :: 0 <= k < |idx| ==> idx[k] < |s|
    ensures |r| == |idx| && forall k :: 0 <= k < |idx| ==> r[k] == s[idx[k]]
  {
    seq(|idx|, k requires 0 <= k < |idx| => s[idx[k]])
  }

  function Inverse(perm: seq<nat>): (inv: seq<nat>)
    requires forall i: nat :: i < |perm| ==> i in perm
    ensures |inv| == |perm| && forall i :: 0 <= i < |perm| ==> inv[i] < |perm| && perm[inv[i]] == i
  {
    seq(|perm|, i requires 0 <= i < |perm| => IndexOf(perm, i))
  }

  lemma InverseIsPermutation(perm: seq<nat>)
    requires IsPermutation(perm, |perm|)
    ensures IsPermutation(Inverse(perm), |perm|)
    ensures forall k :: 0 <= k < |perm| ==> perm[k] < |perm| && Inverse(perm)[perm[k]] == k
  {
    var inv := Inverse(perm);
    forall k | 0 <= k < |perm| ensures perm[k] < |perm| && inv[perm[k]] == k {
      assert perm[inv[perm[k]]] == perm[k];
    }
    forall i: nat | i < |perm| ensures i in inv {
      assert inv[perm[i]] == i;
    }
  }

  lemma PickInBox(shape: seq<nat>, c: seq<nat>, perm: seq<nat>)
    requires IsPermutation(perm, |shape|)
    requires |c| == |shape|
    ensures InBox(shape, c) <==> InBox(Pick(shape, perm), Pick(c, perm))
  {
    if InBox(Pick(shape, perm), Pick(c, perm)) {
      forall i | 0 <= i < |c| ensures c[i] < shape[i] {
        var k := IndexOf(perm, i);
        assert Pick(c, perm)[k] < Pick(shape, perm)[k];
      }
    }
  }

  lemma PickInverse<T>(s: seq<T>, perm: seq<nat>)
    requires IsPermutation(perm, |s|)
    ensures Pick(Pick(s, perm), Inverse(perm)) == s && Pick(Pick(s, Inverse(perm)), perm) == s
  {
    InverseIsPermutation(perm);
  }

  lemma OneDimension(b: nat, j: nat)
    ensures Size([b]) == b && Linear([b], [j]) == j
  {
    assert [b][..0] == [] && [j][..0] == [];
  }

  lemma SizeInsert(a: seq<nat>, d: nat, b: seq<nat>)
    ensures Size(a + [d] + b) == Size(a + b) * d
  {
    SizeConcat(a + [d], b);
    SizeConcat(a, [d]);
    SizeConcat(a, b);
    assert Size([d]) == d by {
      assert [d][..0] == [];
    }
    MulSwap(Size(a), d, Size(b));
  }

  lemma PickSnoc(shape: seq<nat>, p: seq<nat>)
    requires p != [] && forall k :: 0 <= k < |p| ==> p[k] < |shape|
    ensures Size(Pick(shape, p)) == Size(Pick(shape, p[..|p| - 1])) * shape[p[|p| - 1]]
  {
    assert Pick(shape, p)[..|p| - 1] == Pick(shape, p[..|p| - 1]);
  }

  lemma PickWithout(shape: seq<nat>, q: seq<nat>, k: nat)
    requires k < |q| && forall j :: 0 <= j < |q| ==> q[j] < |shape|
    ensures Size(Pick(shape, q)) == Size(Pick(shape, q[..k] + q[k + 1..])) * shape[q[k]]
  {
    var a, b := Pick(shape, q[..k]), Pick(shape, q[k + 1..]);
    SizeInsert(a, shape[q[k]], b);
    assert Pick(shape, q) == a + [shape[q[k]]] + b;
    assert Pick(shape, q[..k] + q[k + 1..]) == a + b;
  }

  /** Reordering the dimensions does not change the number of elements. */
  lemma {:induction false} SizeOfReordered(shape: seq<nat>, p: seq<nat>, q: seq<nat>)
    requires forall k :: 0 <= k < |p| ==> p[k] < |shape|
    requires forall k :: 0 <= k < |q| ==> q[k] < |shape|
    requires Distinct(p) && Distinct(q) && SameElements(p, q)
    ensures Size(Pick(shape, p)) == Size(Pick(shape, q))
    decreases |p|
  {
    if p == [] {
      FirstIsMember(q);
    } else {
      var n := |p| - 1;
      assert p[n] in p;
      var k := IndexOf(q, p[n]);
      RemoveElement(p, q, k);
      SizeOfReordered(shape, p[..n], q[..k] + q[k + 1..]);
      PickSnoc(shape, p);
      PickWithout(shape, q, k);
    }
  }

  // ---------- Tensors and what a shuffle layer does to them ----------

  datatype Tensor<T> = Tensor(shape: seq<nat>, data: seq<T>) {
    ghost predicate Valid() {
      Positive(shape) && |data| == Size(shape)
    }
  }

  ghost function At<T>(t: Tensor<T>, c: seq<nat>): T
    requires t.Valid() && InBox(t.shape, c)
  {
    LinearInRange(t.shape, c);
    t.data[Linear(t.shape, c)]
  }

  lemma SameElementsSameTensor<T>(t: Tensor<T>, u: Tensor<T>)
    requires t.Valid() && u.Valid() && t.shape == u.shape
    requires forall c :: InBox(t.shape, c) ==> At(t, c) == At(u, c)
    ensures t == u
  {
    forall k | 0 <= k < |t.data| ensures t.data[k] == u.data[k] {
      UnravelInBox(t.shape, k);
      assert At(t, Unravel(t.shape, k)) == At(u, Unravel(t.shape, k));
    }
  }

  /** The meaning of a transpose: dimension perm[k] becomes dimension k, elements travel with their coordinates. */
  ghost predicate IsTransposeOf<T(!new)>(t: Tensor<T>, perm: seq<nat>, u: Tensor<T>)
    requires t.Valid() && IsPermutation(perm, |t.shape|)
  {
    && u.Valid() && u.shape == Pick(t.shape, perm)
    && forall c {:trigger At(t, c)} :: InBox(t.shape, c) ==>
       (PickInBox(t.shape, c, perm); At(u, Pick(c, perm)) == At(t, c))
  }

  /** Reshaping keeps the row-major data. */
  function Reshape<T>(t: Tensor<T>, shape: seq<nat>): (u: Tensor<T>)
    requires Size(shape) == |t.data|
    ensures Positive(shape) ==> u.Valid()
  {
    Tensor(shape, t.data)
  }

  lemma TransposeValid(shape: seq<nat>, perm: seq<nat>)
    requires Positive(shape) && IsPermutation(perm, |shape|)
    ensures Positive(Pick(shape, perm)) && Size(Pick(shape, perm)) == Size(shape)
  {
    var id := Iota(|shape|);
    forall i: nat ensures i in perm <==> i in id {
    }
    SizeOfReordered(shape, perm, id);
    assert Pick(shape, id) == shape;
  }

  /** Position in the source of element k of the transposed tensor. */
  function SourceOf(shape: seq<nat>, perm: seq<nat>, k: nat): (s: nat)
    requires Positive(shape) && IsPermutation(perm, |shape|) && k < Size(shape)
    ensures s < Size(shape)
  {
    TransposeValid(shape, perm);
    InverseIsPermutation(perm);
    var to := Pick(shape, perm);
    UnravelInBox(to, k);
    var c := Pick(Unravel(to, k), Inverse(perm));
    PickInverse(shape, perm);
    PickInBox(to, Unravel(to, k), Inverse(perm));
    LinearInRange(shape, c);
    Linear(shape, c)
  }

  function TransposeBy<T>(t: Tensor<T>, perm: seq<nat>): Tensor<T>
    requires t.Valid() && IsPermutation(perm, |t.shape|)
  {
    Tensor(Pick(t.shape, perm), seq(|t.data|, k requires 0 <= k < |t.data| => t.data[SourceOf(t.shape, perm, k)]))
  }

  lemma SourceOfPosition(shape: seq<nat>, perm: seq<nat>, c: seq<nat>)
    requires Positive(shape) && IsPermutation(perm, |shape|) && InBox(shape, c)
    ensures InBox(Pick(shape, perm), Pick(c, perm)) && Linear(Pick(shape, perm), Pick(c, perm)) < Size(shape)
    ensures SourceOf(shape, perm, Linear(Pick(shape, perm), Pick(c, perm))) == Linear(shape, c)
  {
    var to, d := Pick(shape, perm), Pick(c, perm);
    TransposeValid(shape, perm);
    PickInBox(shape, c, perm);
    LinearInRange(to, d);
    UnravelInBox(to, Linear(to, d));
    LinearInjective(to, d, Unravel(to, Linear(to, d)));
    PickInverse(c, perm);
  }

  lemma TransposeByIsTranspose<T(!new)>(t: Tensor<T>, perm: seq<nat>)
    requires t.Valid() && IsPermutation(perm, |t.shape|)
    ensures IsTransposeOf(t, perm, TransposeBy(t, perm))
  {
    TransposeValid(t.shape, perm);
    var u := TransposeBy(t, perm);
    forall c: seq<nat> | InBox(t.shape, c) ensures InBox(u.shape, Pick(c, perm)) && At(u, Pick(c, perm)) == At(t, c) {
      SourceOfPosition(t.shape, perm, c);
    }
  }

  /** The same, as a statement about positions in the data. */
  lemma TransposeElement<T(!new)>(t: Tensor<T>, perm: seq<nat>, c: seq<nat>)
    requires t.Valid() && IsPermutation(perm, |t.shape|) && InBox(t.shape, c)
    ensures var u := TransposeBy(t, perm);
            && InBox(u.shape, Pick(c, perm)) && Linear(t.shape, c) < |t.data|
            && Linear(u.shape, Pick(c, perm)) < |u.data|
            && u.data[Linear(u.shape, Pick(c, perm))] == t.data[Linear(t.shape, c)]
  {
    TransposeByIsTranspose(t, perm);
    PickInBox(t.shape, c, perm);
    LinearInRange(t.shape, c);
    LinearInRange(Pick(t.shape, perm), Pick(c, perm));
    assert At(t, c) == At(TransposeBy(t, perm), Pick(c, perm));
  }

  /** Every element of a transpose comes from the coordinates permuted back. */
  lemma ElementOfTranspose<T(!new)>(t: Tensor<T>, perm: seq<nat>, u: Tensor<T>, d: seq<nat>)
    requires t.Valid() && IsPermutation(perm, |t.shape|) && IsTransposeOf(t, perm, u) && InBox(u.shape, d)
    ensures InBox(t.shape, Pick(d, Inverse(perm))) && At(u, d) == At(t, Pick(d, Inverse(perm)))
  {
    var c := Pick(d, Inverse(perm));
    PickInverse(d, perm);
    PickInBox(t.shape, c, perm);
    assert At(t, c) == At(u, Pick(c, perm));
  }

  /** A tensor has only one transpose. */
  lemma TransposeUnique<T(!new)>(t: Tensor<T>, perm: seq<nat>, u: Tensor<T>, v: Tensor<T>)
    requires t.Valid() && IsPermutation(perm, |t.shape|)
    requires IsTransposeOf(t, perm, u) && IsTransposeOf(t, perm, v)
    ensures u == v
  {
    forall d: seq<nat> | InBox(u.shape, d) ensures At(u, d) == At(v, d) {
      ElementOfTranspose(t, perm, u, d);
      ElementOfTranspose(t, perm, v, d);
    }
    SameElementsSameTensor(u, v);
  }

  /** Transposing back by the inverse permutation restores the tensor. */
  lemma TransposeBack<T(!new)>(t: Tensor<T>, perm: seq<nat>, u: Tensor<T>)
    requires t.Valid() && IsPermutation(perm, |t.shape|) && IsTransposeOf(t, perm, u)
    ensures IsPermutation(Inverse(perm), |u.shape|) && IsTransposeOf(u, Inverse(perm), t)
  {
    InverseIsPermutation(perm);
    PickInverse(t.shape, perm);
    forall d: seq<nat> | InBox(u.shape, d)
      ensures InBox(t.shape, Pick(d, Inverse(perm))) && At(t, Pick(d, Inverse(perm))) == At(u, d)
    {
      ElementOfTranspose(t, perm, u, d);
    }
  }
}
