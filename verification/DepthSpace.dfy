/** The SpaceToDepth and DepthToSpace importers: 3rdparty/onnx-tensorrt/builtin_op_importers.cpp. */
module DepthSpace {
  import opened Wrappers
  import opened Arithmetic
  import opened Sequences
  import opened TensorLayout

  // ---------- Shapes and coordinates ----------

  /** x[0], y[0], x[1], y[1], ... */
  ghost function Interleave(x: seq<nat>, y: seq<nat>): (r: seq<nat>)
    requires |x| == |y|
    ensures |r| == 2 * |x|
    ensures forall k :: 0 <= k < 2 * |x| ==> r[k] == if k % 2 == 0 then x[k / 2] else y[k / 2]
  {
    seq(2 * |x|, k requires 0 <= k < 2 * |x| => if k % 2 == 0 then x[k / 2] else y[k / 2])
  }

  /** Coarse coordinates x and offsets o inside blocks of size b, joined. */
  ghost function Join(x: seq<nat>, o: seq<nat>, b: nat): (y: seq<nat>)
    requires |o| == |x|
    ensures |y| == |x| && forall i :: 0 <= i < |x| ==> y[i] == x[i] * b + o[i]
  {
    seq(|x|, i requires 0 <= i < |x| => x[i] * b + o[i])
  }

  ghost function Scaled(h: seq<nat>, b: nat): (s: seq<nat>)
    ensures |s| == |h| && forall i :: 0 <= i < |h| ==> s[i] == h[i] * b
  {
    seq(|h|, i requires 0 <= i < |h| => h[i] * b)
  }

  lemma InterleaveSnoc(x: seq<nat>, y: seq<nat>)
    requires |x| == |y| > 0
    ensures var n := |x| - 1;
            Interleave(x, y) == Interleave(x[..n], y[..n]) + [x[n]] + [y[n]]
  {
  }

  lemma LinearSnoc(shape: seq<nat>, c: seq<nat>, d: nat, x: nat)
    requires |c| == |shape|
    ensures Linear(shape + [d], c + [x]) == Linear(shape, c) * d + x && Size(shape + [d]) == Size(shape) * d
  {
    assert (shape + [d])[..|shape|] == shape && (c + [x])[..|shape|] == c;
  }

  /** The same with the position l and the size n before the last dimension, and those after it, named. */
  lemma SnocAs(shape: seq<nat>, c: seq<nat>, d: nat, x: nat, l: int, n: int, l': int, n': int)
    requires |c| == |shape| && l == Linear(shape, c) && n == Size(shape) && l' == l * d + x && n' == n * d
    ensures Linear(shape + [d], c + [x]) == l' && Size(shape + [d]) == n'
  {
    LinearSnoc(shape, c, d, x);
  }

  lemma NamedProducts(l: int, n: int, h: nat, x: nat, b: nat, o: nat, hb: nat, xb: nat, l1: int, n1: int)
    requires hb == h * b && xb == x * b + o && l1 == l * h + x && n1 == n * h
    ensures l * hb + xb == l1 * b + o && n * hb == n1 * b
  {
    HornerConcat(l, h, x, b, o);
    MulAssoc(n, h, b);
  }

  /** Splitting a dimension of size hb into h blocks of b. Products are named, which spares the solver. */
  lemma SplitOne(s: seq<nat>, k: seq<nat>, s': seq<nat>, k': seq<nat>, h: nat, x: nat, b: nat, o: nat, hb: nat, xb: nat)
    requires |k| == |s| && |k'| == |s'| && Linear(s, k) == Linear(s', k') && Size(s) == Size(s')
    requires hb == h * b && xb == x * b + o
    ensures Linear(s + [h] + [b], k + [x] + [o]) == Linear(s' + [hb], k' + [xb])
    ensures Size(s + [h] + [b]) == Size(s' + [hb])
  {
    var l, n := Linear(s, k), Size(s);
    var l1: int, n1: int := l * h + x, n * h;
    NamedProducts(l, n, h, x, b, o, hb, xb, l1, n1);
    SplitOneNamed(s, k, s', k', h, x, b, o, hb, xb, l, n, l1, n1, l1 * b + o, n1 * b);
  }

  lemma SplitOneNamed(s: seq<nat>, k: seq<nat>, s': seq<nat>, k': seq<nat>,
                      h: nat, x: nat, b: nat, o: nat, hb: nat, xb: nat,
                      l: int, n: int, l1: int, n1: int, l2: int, n2: int)
    requires |k| == |s| && |k'| == |s'| && Linear(s, k) == l == Linear(s', k') && Size(s) == n == Size(s')
    requires l1 == l * h + x && n1 == n * h && l2 == l1 * b + o && n2 == n1 * b && l2 == l * hb + xb && n2 == n * hb
    ensures Linear(s + [h] + [b], k + [x] + [o]) == l2 == Linear(s' + [hb], k' + [xb])
    ensures Size(s + [h] + [b]) == n2 == Size(s' + [hb])
  {
    SnocAs(s, k, h, x, l, n, l1, n1);
    SnocAs(s + [h], k + [x], b, o, l1, n1, l2, n2);
    SnocAs(s', k', hb, xb, l, n, l2, n2);
  }

  lemma LastOfInterleaved(ch: nat, x: seq<nat>, y: seq<nat>)
    requires |x| == |y| > 0
    ensures var n := |x| - 1;
            [ch] + Interleave(x, y) == ([ch] + Interleave(x[..n], y[..n])) + [x[n]] + [y[n]]
  {
    InterleaveSnoc(x, y);
  }

  lemma LastOfScaled(c: nat, h: seq<nat>, b: nat, hb: nat)
    requires |h| > 0 && hb == h[|h| - 1] * b
    ensures [c] + Scaled(h, b) == ([c] + Scaled(h[..|h| - 1], b)) + [hb]
  {
  }

  lemma LastOfJoined(c: nat, x: seq<nat>, o: seq<nat>, b: nat, xb: nat)
    requires |x| == |o| > 0 && xb == x[|x| - 1] * b + o[|x| - 1]
    ensures [c] + Join(x, o, b) == ([c] + Join(x[..|x| - 1], o[..|x| - 1], b)) + [xb]
  {
  }

  /** The two ways of reading a tensor whose spatial dimensions are split into blocks of b agree. */
  ghost predicate SamePlace(s: seq<nat>, k: seq<nat>, s': seq<nat>, k': seq<nat>) {
    |k| == |s| && |k'| == |s'| && Linear(s, k) == Linear(s', k') && Size(s) == Size(s')
  }

  /** Splitting every spatial dimension into blocks does not move an element. */
  lemma {:induction false} SplitDimensions(ch: nat, h: seq<nat>, bs: seq<nat>, b: nat, c: nat, x: seq<nat>, o: seq<nat>)
    requires |x| == |o| == |h| == |bs| && forall i :: 0 <= i < |bs| ==> bs[i] == b
    ensures SamePlace([ch] + Interleave(h, bs), [c] + Interleave(x, o), [ch] + Scaled(h, b), [c] + Join(x, o, b))
    decreases |h|
  {
    if |h| > 0 {
      var n := |h| - 1;
      SplitDimensions(ch, h[..n], bs[..n], b, c, x[..n], o[..n]);
      SplitLast(ch, h, bs, b, c, x, o, Scaled(h, b)[n], Join(x, o, b)[n]);
    } else {
      assert Interleave(h, bs) == [] && Interleave(x, o) == [] && Scaled(h, b) == [] && Join(x, o, b) == [];
    }
  }

  lemma SplitLast(ch: nat, h: seq<nat>, bs: seq<nat>, b: nat, c: nat, x: seq<nat>, o: seq<nat>, hb: nat, xb: nat)
    requires |x| == |o| == |h| == |bs| > 0 && bs[|h| - 1] == b
    requires hb == h[|h| - 1] * b && xb == x[|h| - 1] * b + o[|h| - 1]
    requires var n := |h| - 1;
             SamePlace([ch] + Interleave(h[..n], bs[..n]), [c] + Interleave(x[..n], o[..n]),
                       [ch] + Scaled(h[..n], b), [c] + Join(x[..n], o[..n], b))
    ensures SamePlace([ch] + Interleave(h, bs), [c] + Interleave(x, o), [ch] + Scaled(h, b), [c] + Join(x, o, b))
  {
    var n := |h| - 1;
    SplitOne([ch] + Interleave(h[..n], bs[..n]), [c] + Interleave(x[..n], o[..n]),
             [ch] + Scaled(h[..n], b), [c] + Join(x[..n], o[..n], b), h[n], x[n], b, o[n], hb, xb);
    LastOfInterleaved(ch, h, bs);
    LastOfInterleaved(c, x, o);
    LastOfScaled(ch, h, b, hb);
    LastOfJoined(c, x, o, b, xb);
  }

  lemma FirstDimension(d: nat, h: seq<nat>, k: nat, x: seq<nat>)
    requires |x| == |h|
    ensures Linear([d] + h, [k] + x) == k * Size(h) + Linear(h, x) && Size([d] + h) == d * Size(h)
  {
    OneDimension(d, k);
    LinearConcat([d], h, [k], x);
    SizeConcat([d], h);
  }

  lemma ConcatValue(a: seq<nat>, h: seq<nat>, c: seq<nat>, x: seq<nat>, d: nat, k: nat)
    requires |c| == |a| && |x| == |h| && Size(a) == d && Linear(a, c) == k
    ensures Linear(a + h, c + x) == k * Size(h) + Linear(h, x) && Size(a + h) == d * Size(h)
  {
    LinearConcat(a, h, c, x);
    SizeConcat(a, h);
  }

  /** Merging the block offsets into the channel does not move an element. */
  lemma MergeChannel(bs: seq<nat>, ch: nat, h: seq<nat>, o: seq<nat>, c: nat, x: seq<nat>, d: nat, k: nat)
    requires |o| == |bs| && |x| == |h| && d == Size(bs) * ch && k == Linear(bs, o) * ch + c
    ensures SamePlace(bs + [ch] + h, o + [c] + x, [d] + h, [k] + x)
  {
    LinearSnoc(bs, o, ch, c);
    ConcatValue(bs + [ch], h, o + [c], x, d, k);
    FirstDimension(d, h, k, x);
  }

  // ---------- The two permutations ----------

  /** Offsets to the front, then the channel, then the coarse coordinates. */
  function Gather(n: nat): (p: seq<nat>)
    ensures |p| == 2 * n + 1 && forall k :: 0 <= k < |p| ==>
              p[k] == (if k < n then 2 * k + 2 else if k == n then 0 else 1 + 2 * (k - n - 1)) < 2 * n + 1
  {
    seq(2 * n + 1, k requires 0 <= k < 2 * n + 1 =>
      if k < n then 2 * k + 2 else if k == n then 0 else 1 + 2 * (k - n - 1))
  }

  /** Channel first, then coarse coordinate and offset of every spatial dimension. */
  function Scatter(n: nat): (p: seq<nat>)
    ensures |p| == 2 * n + 1 && forall k :: 0 <= k < |p| ==>
              p[k] == (if k == 0 then n else if k % 2 == 1 then n + 1 + k / 2 else k / 2 - 1) < 2 * n + 1
  {
    seq(2 * n + 1, k requires 0 <= k < 2 * n + 1 =>
      if k == 0 then n else if k % 2 == 1 then n + 1 + k / 2 else k / 2 - 1)
  }

  /** The two orders undo each other. */
  lemma GatherScatter(n: nat, i: nat)
    requires i < 2 * n + 1
    ensures Gather(n)[Scatter(n)[i]] == i
  {
    var k := Scatter(n)[i];
    assert Gather(n)[k] == if k < n then 2 * k + 2 else if k == n then 0 else 1 + 2 * (k - n - 1);
  }

  lemma ScatterGather(n: nat, i: nat)
    requires i < 2 * n + 1
    ensures Scatter(n)[Gather(n)[i]] == i
  {
    var k := Gather(n)[i];
    assert Scatter(n)[k] == if k == 0 then n else if k % 2 == 1 then n + 1 + k / 2 else k / 2 - 1;
  }

  lemma GatherDistinct(n: nat)
    ensures Distinct(Gather(n))
  {
    forall a: nat, b: nat | a < b < 2 * n + 1 ensures Gather(n)[a] != Gather(n)[b] {
      ScatterGather(n, a);
      ScatterGather(n, b);
    }
  }

  lemma ScatterDistinct(n: nat)
    ensures Distinct(Scatter(n))
  {
    forall a: nat, b: nat | a < b < 2 * n + 1 ensures Scatter(n)[a] != Scatter(n)[b] {
      GatherScatter(n, a);
      GatherScatter(n, b);
    }
  }

  lemma GatherIsPermutation(n: nat)
    ensures IsPermutation(Gather(n), 2 * n + 1)
  {
    forall i: nat | i < 2 * n + 1 ensures i in Gather(n) {
      GatherScatter(n, i);
    }
    GatherDistinct(n);
  }

  lemma ScatterIsPermutation(n: nat)
    ensures IsPermutation(Scatter(n), 2 * n + 1)
  {
    forall i: nat | i < 2 * n + 1 ensures i in Scatter(n) {
      ScatterGather(n, i);
    }
    ScatterDistinct(n);
  }

  lemma GatherPicks(c: nat, x: seq<nat>, o: seq<nat>)
    requires |x| == |o|
    ensures Pick([c] + Interleave(x, o), Gather(|x|)) == o + [c] + x
  {
  }

  lemma ScatterPicks(c: nat, x: seq<nat>, o: seq<nat>)
    requires |x| == |o|
    ensures Pick(o + [c] + x, Scatter(|x|)) == [c] + Interleave(x, o)
  {
  }

  // ---------- What the two operators promise ----------

  ghost predicate InBlocks(ch: nat, h: seq<nat>, b: nat, c: nat, x: seq<nat>, o: seq<nat>) {
    c < ch && InBox(h, x) && InBox(Constant(|h|, b), o)
  }

  /** The element of t at p is the element of u at q. */
  ghost predicate SameElement<T>(t: Tensor<T>, p: seq<nat>, u: Tensor<T>, q: seq<nat>) {
    && |p| == |t.shape| && |q| == |u.shape|
    && Linear(t.shape, p) < |t.data| && Linear(u.shape, q) < |u.data|
    && t.data[Linear(t.shape, p)] == u.data[Linear(u.shape, q)]
  }

  /** Channel number, in the deep tensor, of channel c at offset o. */
  ghost function DeepChannel(ch: nat, b: nat, c: nat, o: seq<nat>): nat {
    Linear(Constant(|o|, b), o) * ch + c
  }

  ghost function DeepChannels(ch: nat, b: nat, n: nat): nat {
    Size(Constant(n, b)) * ch
  }

  /** With a height and a width: the offsets count before the channel, the row before the column. */
  lemma DeepChannelOfPair(ch: nat, b: nat, c: nat, row: nat, column: nat)
    ensures DeepChannel(ch, b, c, [row, column]) == (row * b + column) * ch + c
    ensures DeepChannels(ch, b, 2) == b * b * ch
  {
    assert Constant(2, b) == [b] + [b] && [row, column] == [row] + [column];
    OneDimension(b, row);
    LinearSnoc([b], [row], b, column);
  }

  /** `depth` holds the elements of `space` with every block of b x ... x b positions moved into the channels:
      channel c, block x, offset o becomes channel (number of o, c), position x. */
  ghost predicate Rearranged<T(!new)>(space: Tensor<T>, depth: Tensor<T>, ch: nat, h: seq<nat>, b: nat) {
    && space.Valid() && depth.Valid()
    && space.shape == [ch] + Scaled(h, b) && depth.shape == [DeepChannels(ch, b, |h|)] + h
    && forall c: nat, x: seq<nat>, o: seq<nat> :: InBlocks(ch, h, b, c, x, o) ==>
         SameElement(space, [c] + Join(x, o, b), depth, [DeepChannel(ch, b, c, o)] + x)
  }

  lemma JoinedInBox(ch: nat, h: seq<nat>, b: nat, c: nat, x: seq<nat>, o: seq<nat>)
    requires InBlocks(ch, h, b, c, x, o)
    ensures InBox([ch] + Interleave(h, Constant(|h|, b)), [c] + Interleave(x, o))
    ensures InBox(Constant(|h|, b) + [ch] + h, o + [c] + x)
  {
  }

  /** Reshape, transpose, reshape: an element followed through three readings of the same data. */
  lemma ThroughShuffle<T(!new)>(t: Tensor<T>, p: seq<nat>, s1: seq<nat>, c1: seq<nat>, perm: seq<nat>,
                                s2: seq<nat>, c2: seq<nat>, s3: seq<nat>, q: seq<nat>)
    requires t.Valid() && Positive(s1) && IsPermutation(perm, |s1|) && InBox(s1, c1)
    requires SamePlace(s1, c1, t.shape, p) && Pick(s1, perm) == s2 && Pick(c1, perm) == c2 && SamePlace(s2, c2, s3, q)
    ensures Tensor(s1, t.data).Valid()
    ensures SameElement(t, p, Tensor(s3, TransposeBy(Tensor(s1, t.data), perm).data), q)
  {
    TransposeElement(Tensor(s1, t.data), perm, c1);
  }

  /** Reshape, gather, reshape moves every element where SpaceToDepth promises. */
  lemma GatherMovesElement<T(!new)>(t: Tensor<T>, ch: nat, h: seq<nat>, bs: seq<nat>, b: nat, c: nat, x: seq<nat>,
                                    o: seq<nat>)
    requires t.Valid() && t.shape == [ch] + Scaled(h, b) && InBlocks(ch, h, b, c, x, o) && bs == Constant(|h|, b)
    requires Positive([ch] + Interleave(h, bs)) && IsPermutation(Gather(|h|), 2 * |h| + 1)
    ensures Tensor([ch] + Interleave(h, bs), t.data).Valid()
    ensures var u := TransposeBy(Tensor([ch] + Interleave(h, bs), t.data), Gather(|h|));
            SameElement(t, [c] + Join(x, o, b),
                        Tensor([DeepChannels(ch, b, |h|)] + h, u.data), [DeepChannel(ch, b, c, o)] + x)
  {
    JoinedInBox(ch, h, b, c, x, o);
    GatherPicks(ch, h, bs);
    GatherPicks(c, x, o);
    SplitDimensions(ch, h, bs, b, c, x, o);
    MergeChannel(bs, ch, h, o, c, x, DeepChannels(ch, b, |h|), DeepChannel(ch, b, c, o));
    ThroughShuffle(t, [c] + Join(x, o, b), [ch] + Interleave(h, bs), [c] + Interleave(x, o), Gather(|h|),
                   bs + [ch] + h, o + [c] + x, [DeepChannels(ch, b, |h|)] + h, [DeepChannel(ch, b, c, o)] + x);
  }

  /** And reshape, scatter, reshape moves every element where DepthToSpace promises. */
  lemma ScatterMovesElement<T(!new)>(t: Tensor<T>, ch: nat, h: seq<nat>, bs: seq<nat>, b: nat, c: nat, x: seq<nat>,
                                     o: seq<nat>)
    requires t.Valid() && t.shape == [DeepChannels(ch, b, |h|)] + h && InBlocks(ch, h, b, c, x, o)
             && bs == Constant(|h|, b)
    requires Positive(bs + [ch] + h) && IsPermutation(Scatter(|h|), 2 * |h| + 1)
    ensures Tensor(bs + [ch] + h, t.data).Valid()
    ensures var u := TransposeBy(Tensor(bs + [ch] + h, t.data), Scatter(|h|));
            SameElement(t, [DeepChannel(ch, b, c, o)] + x,
                        Tensor([ch] + Scaled(h, b), u.data), [c] + Join(x, o, b))
  {
    JoinedInBox(ch, h, b, c, x, o);
    ScatterPicks(ch, h, bs);
    ScatterPicks(c, x, o);
    SplitDimensions(ch, h, bs, b, c, x, o);
    MergeChannel(bs, ch, h, o, c, x, DeepChannels(ch, b, |h|), DeepChannel(ch, b, c, o));
    ThroughShuffle(t, [DeepChannel(ch, b, c, o)] + x, bs + [ch] + h, o + [c] + x, Scatter(|h|),
                   [ch] + Interleave(h, bs), [c] + Interleave(x, o), [ch] + Scaled(h, b), [c] + Join(x, o, b));
  }

  // ---------- The importers ----------

  ghost function Coarse(shape: seq<nat>, b: nat): (h: seq<nat>)
    requires shape != [] && b > 0
    ensures |h| == |shape| - 1 && forall i :: 0 <= i < |h| ==> h[i] == shape[i + 1] / b
  {
    seq(|shape| - 1, i requires 0 <= i < |shape| - 1 => shape[i + 1] / b)
  }

  lemma CoarseScales(shape: seq<nat>, b: nat)
    requires shape != [] && b > 0 && Positive(shape) && forall i :: 1 <= i < |shape| ==> shape[i] % b == 0
    ensures [shape[0]] + Scaled(Coarse(shape, b), b) == shape && Positive(Coarse(shape, b))
  {
    var h := Coarse(shape, b);
    forall i | 0 <= i < |h| ensures h[i] * b == shape[i + 1] && h[i] > 0 {
      assert shape[i + 1] % b == 0;
    }
  }

  lemma InterleaveNext(ch: nat, h: seq<nat>, i: nat, b: nat)
    requires i < |h|
    ensures [ch] + Interleave(h[..i + 1], Constant(i + 1, b)) == [ch] + Interleave(h[..i], Constant(i, b)) + [h[i], b]
  {
    InterleaveSnoc(h[..i + 1], Constant(i + 1, b));
    assert h[..i + 1][..i] == h[..i] && Constant(i + 1, b)[..i] == Constant(i, b);
  }

  /** Splits every spatial dimension into blocks of b; refuses when one is not divisible. */
  method SplitShape(shape: seq<nat>, b: nat) returns (ok: bool, s: seq<nat>)
    requires shape != [] && b > 0
    ensures ok <==> forall i :: 1 <= i < |shape| ==> shape[i] % b == 0
    ensures ok ==> s == [shape[0]] + Interleave(Coarse(shape, b), Constant(|shape| - 1, b))
  {
    ghost var h := Coarse(shape, b);
    s := [shape[0]];
    for i := 0 to |shape| - 1
      invariant forall k :: 1 <= k <= i ==> shape[k] % b == 0
      invariant s == [shape[0]] + Interleave(h[..i], Constant(i, b))
    {
      if shape[1 + i] % b != 0 {
        return false, s;
      }
      InterleaveNext(shape[0], h, i, b);
      s := s + [shape[1 + i] / b, b];
    }
    assert h[..|shape| - 1] == h;
    ok := true;
  }

  method GatherOrder(n: nat) returns (order: seq<nat>)
    ensures order == Gather(n)
  {
    order := seq(2 * n + 1, _ => 0);
    for i := 0 to n
      invariant |order| == 2 * n + 1 && order[n] == 0
      invariant forall k :: 0 <= k < i ==> order[k] == 2 * k + 2
      invariant forall k :: n < k <= n + i ==> order[k] == 1 + 2 * (k - n - 1)
    {
      order := order[n + 1 + i := 1 + 2 * i];
      order := order[i := 1 + 2 * i + 1];
    }
  }

  method ScatterOrder(n: nat) returns (order: seq<nat>)
    ensures order == Scatter(n)
  {
    order := seq(2 * n + 1, _ => n);
    for i := 0 to n
      invariant |order| == 2 * n + 1 && order[0] == n
      invariant forall k :: 0 < k < 2 * i + 1 ==> order[k] == if k % 2 == 1 then n + 1 + k / 2 else k / 2 - 1
    {
      order := order[1 + 2 * i := n + 1 + i];
      order := order[1 + 2 * i + 1 := i];
    }
  }

  lemma SizeOfBlocks(n: nat, b: nat)
    ensures Size(Constant(n + 1, b)) == Size(Constant(n, b)) * b
  {
    assert Constant(n + 1, b)[..n] == Constant(n, b);
  }

  /** Multiplies the leading block sizes into the channel and drops them. */
  method MergeShape(dims: seq<nat>, n: nat, ghost b: nat, ghost ch: nat, ghost h: seq<nat>) returns (s: seq<nat>)
    requires |h| == n && dims == Constant(n, b) + [ch] + h
    ensures s == [DeepChannels(ch, b, n)] + h
  {
    var d, rest := dims[n], [];
    for i := 0 to n
      invariant d == Size(Constant(i, b)) * ch && rest == h[..i]
    {
      SizeOfBlocks(i, b);
      MulSwap(Size(Constant(i, b)), ch, b);
      d := d * dims[i];
      rest := rest + [dims[n + 1 + i]];
    }
    s := [d] + rest;
    assert h[..n] == h;
  }

  lemma InterleavedSize(shape: seq<nat>, ch: nat, h: seq<nat>, bs: seq<nat>, b: nat)
    requires ch > 0 && shape == [ch] + Scaled(h, b) && bs == Constant(|h|, b) && b > 0 && Positive(h)
    ensures Positive([ch] + Interleave(h, bs)) && Size([ch] + Interleave(h, bs)) == Size(shape)
  {
    SplitDimensions(ch, h, bs, b, ch, h, h);
  }

  lemma GatheredSize(ch: nat, h: seq<nat>, bs: seq<nat>)
    requires |bs| == |h| && Positive([ch] + Interleave(h, bs))
    ensures Size(bs + [ch] + h) == Size([ch] + Interleave(h, bs))
  {
    GatherIsPermutation(|h|);
    GatherPicks(ch, h, bs);
    TransposeValid([ch] + Interleave(h, bs), Gather(|h|));
  }

  lemma MergedSize(ch: nat, h: seq<nat>, bs: seq<nat>, b: nat)
    requires ch > 0 && bs == Constant(|h|, b) && b > 0 && Positive(h)
    ensures DeepChannels(ch, b, |h|) > 0 && Size([DeepChannels(ch, b, |h|)] + h) == Size(bs + [ch] + h)
  {
    MergeChannel(bs, ch, h, bs, ch, h, DeepChannels(ch, b, |h|), DeepChannel(ch, b, ch, bs));
    SizePositive(bs);
    NextMultiple(0, Size(bs), ch);
  }

  lemma SplitSize(shape: seq<nat>, ch: nat, h: seq<nat>, bs: seq<nat>, b: nat)
    requires Positive(shape) && shape == [ch] + Scaled(h, b) && bs == Constant(|h|, b) && b > 0 && Positive(h)
    ensures Positive([ch] + Interleave(h, bs)) && Size([ch] + Interleave(h, bs)) == Size(shape)
    ensures Positive(bs + [ch] + h) && Size(bs + [ch] + h) == Size(shape)
    ensures Positive([DeepChannels(ch, b, |h|)] + h) && Size([DeepChannels(ch, b, |h|)] + h) == Size(shape)
  {
    assert ch == shape[0];
    InterleavedSize(shape, ch, h, bs, b);
    GatheredSize(ch, h, bs);
    MergedSize(ch, h, bs, b);
  }

  /** Refuses exactly when a spatial dimension is not a multiple of the block size. */
  method SpaceToDepth<T(!new)>(t: Tensor<T>, b: nat) returns (r: Option<Tensor<T>>)
    requires t.Valid() && t.shape != [] && b > 0
    ensures r.Some? <==> forall i :: 1 <= i < |t.shape| ==> t.shape[i] % b == 0
    ensures r.Some? ==> Rearranged(t, r.value, t.shape[0], Coarse(t.shape, b), b)
  {
    var n := |t.shape| - 1;
    var ok, split := SplitShape(t.shape, b);
    if !ok {
      return None;
    }
    ghost var ch, h, bs := t.shape[0], Coarse(t.shape, b), Constant(n, b);
    CoarseScales(t.shape, b);
    SplitSize(t.shape, ch, h, bs, b);
    var order := GatherOrder(n);
    GatherIsPermutation(n);
    GatherPicks(ch, h, bs);
    var u := TransposeBy(Reshape(t, split), order);
    var merged := MergeShape(u.shape, n, b, ch, h);
    r := Some(Reshape(u, merged));
    forall c: nat, x: seq<nat>, o: seq<nat> | InBlocks(ch, h, b, c, x, o)
      ensures SameElement(t, [c] + Join(x, o, b), r.value, [DeepChannel(ch, b, c, o)] + x)
    {
      GatherMovesElement(t, ch, h, bs, b, c, x, o);
    }
  }

  /** The channel count is a multiple of b to the number of spatial dimensions. */
  ghost predicate ChannelsSplit(channels: nat, b: nat, n: nat) {
    exists ch: nat :: channels == DeepChannels(ch, b, n)
  }

  lemma {:induction false} SizeOfMoreBlocks(m: nat, n: nat, b: nat)
    ensures Size(Constant(m + n, b)) == Size(Constant(m, b)) * Size(Constant(n, b))
  {
    assert Constant(m + n, b) == Constant(m, b) + Constant(n, b);
    SizeConcat(Constant(m, b), Constant(n, b));
  }

  lemma CancelFactor(x: nat, y: nat, d: nat)
    requires d > 0 && x * d == y * d
    ensures x == y
  {
    HornerUnique(x, 0, y, 0, d);
  }

  lemma MultipleOf(q: nat, b: nat)
    requires b > 0
    ensures (q * b) % b == 0
  {
    HornerUnique(q * b / b, q * b % b, q, 0, b);
  }

  lemma FactorRemains(p: nat, b: nat, q: nat, ch: nat, rest: nat)
    requires p > 0 && b > 0 && p * rest == p * b * q * ch
    ensures rest % b == 0
  {
    var m := q * ch;
    MulAssoc(p * b, q, ch);
    MulAssoc(p, b, m);
    CancelFactor(rest, b * m, p);
    MultipleOf(m, b);
  }

  /** A quotient by i blocks that is not divisible again shows that n > i blocks do not fit. */
  lemma StuckMeansNoSplit(channels: nat, rest: nat, b: nat, i: nat, n: nat)
    requires b > 0 && i < n && channels == Size(Constant(i, b)) * rest && rest % b != 0
    ensures !ChannelsSplit(channels, b, n)
  {
    var p, q := Size(Constant(i, b)), Size(Constant(n - i - 1, b));
    SizePositive(Constant(i, b));
    assert Size(Constant(n, b)) == p * b * q by {
      SizeOfMoreBlocks(i + 1, n - i - 1, b);
      SizeOfBlocks(i, b);
    }
    if ChannelsSplit(channels, b, n) {
      var ch: nat :| channels == DeepChannels(ch, b, n);
      FactorRemains(p, b, q, ch, rest);
    }
  }

  lemma SplitOnce(channels: nat, ch: nat, b: nat, i: nat)
    requires b > 0 && channels == Size(Constant(i, b)) * ch && ch % b == 0
    ensures channels == Size(Constant(i + 1, b)) * (ch / b)
  {
    SizeOfBlocks(i, b);
    var p, q := Size(Constant(i, b)), ch / b;
    assert ch == b * q;
    MulAssoc(p, b, q);
  }

  /** Divides the channels by b once for every spatial dimension; refuses when that leaves a remainder. */
  method SplitChannels(shape: seq<nat>, b: nat) returns (ok: bool, ch: nat, s: seq<nat>)
    requires shape != [] && b > 0
    ensures ok <==> ChannelsSplit(shape[0], b, |shape| - 1)
    ensures ok ==> shape[0] == DeepChannels(ch, b, |shape| - 1)
    ensures ok ==> s == Constant(|shape| - 1, b) + [ch] + shape[1..]
  {
    var n := |shape| - 1;
    ch, s := shape[0], [];
    var blocks: seq<nat>, rest := [], [];
    for i := 0 to n
      invariant shape[0] == Size(Constant(i, b)) * ch
      invariant blocks == Constant(i, b) && rest == shape[1..1 + i]
    {
      if ch % b != 0 {
        StuckMeansNoSplit(shape[0], ch, b, i, n);
        return false, ch, s;
      }
      SplitOnce(shape[0], ch, b, i);
      ch := ch / b;
      blocks := blocks + [b];
      rest := rest + [shape[1 + i]];
    }
    assert shape[1..1 + n] == shape[1..];
    assert shape[0] == DeepChannels(ch, b, n);
    ok, s := true, blocks + [ch] + rest;
  }

  /** Multiplies every coarse dimension by the block size that follows it. */
  method JoinShape(dims: seq<nat>, n: nat, ghost b: nat, ghost ch: nat, ghost h: seq<nat>) returns (s: seq<nat>)
    requires |h| == n && dims == [ch] + Interleave(h, Constant(n, b))
    ensures s == [ch] + Scaled(h, b)
  {
    s := [dims[0]];
    for i := 0 to n
      invariant s == [ch] + Scaled(h, b)[..i]
    {
      assert dims[1 + 2 * i] == Interleave(h, Constant(n, b))[2 * i];
      assert dims[1 + 2 * i + 1] == Interleave(h, Constant(n, b))[2 * i + 1];
      s := s + [dims[1 + 2 * i] * dims[1 + 2 * i + 1]];
    }
  }

  lemma ScaledPositive(ch: nat, h: seq<nat>, b: nat)
    requires b > 0 && Positive([DeepChannels(ch, b, |h|)] + h)
    ensures Positive([ch] + Scaled(h, b)) && Positive(h)
  {
    var shape := [DeepChannels(ch, b, |h|)] + h;
    assert shape[0] > 0;
    forall i | 0 <= i < |h| ensures h[i] > 0 && h[i] * b > 0 {
      assert h[i] == shape[i + 1];
      NextMultiple(0, h[i], b);
    }
  }

  lemma JoinSize(ch: nat, h: seq<nat>, bs: seq<nat>, b: nat)
    requires b > 0 && bs == Constant(|h|, b) && Positive([DeepChannels(ch, b, |h|)] + h)
    ensures Positive(bs + [ch] + h) && Size(bs + [ch] + h) == Size([DeepChannels(ch, b, |h|)] + h)
    ensures Positive([ch] + Scaled(h, b)) && Size([ch] + Scaled(h, b)) == Size([DeepChannels(ch, b, |h|)] + h)
  {
    ScaledPositive(ch, h, b);
    SplitSize([ch] + Scaled(h, b), ch, h, bs, b);
  }

  /** Refuses exactly when the channels cannot be split into that many blocks. */
  method DepthToSpace<T(!new)>(t: Tensor<T>, b: nat) returns (r: Option<Tensor<T>>)
    requires t.Valid() && t.shape != [] && b > 0
    ensures r.Some? <==> ChannelsSplit(t.shape[0], b, |t.shape| - 1)
    ensures r.Some? ==> r.value.shape != [] && Rearranged(r.value, t, r.value.shape[0], t.shape[1..], b)
  {
    var n := |t.shape| - 1;
    var ok, ch, split := SplitChannels(t.shape, b);
    if !ok {
      return None;
    }
    ghost var h, bs := t.shape[1..], Constant(n, b);
    assert t.shape == [DeepChannels(ch, b, |h|)] + h;
    JoinSize(ch, h, bs, b);
    var order := ScatterOrder(n);
    ScatterIsPermutation(n);
    ScatterPicks(ch, h, bs);
    var u := TransposeBy(Reshape(t, split), order);
    var joined := JoinShape(u.shape, n, b, ch, h);
    r := Some(Reshape(u, joined));
    forall c: nat, x: seq<nat>, o: seq<nat> | InBlocks(ch, h, b, c, x, o)
      ensures SameElement(r.value, [c] + Join(x, o, b), t, [DeepChannel(ch, b, c, o)] + x)
    {
      ScatterMovesElement(t, ch, h, bs, b, c, x, o);
    }
  }

  // ---------- The two operators undo each other ----------

  lemma JoinsTo(c: nat, x: seq<nat>, o: seq<nat>, b: nat, p: seq<nat>)
    requires |x| == |o| && |p| == |x| + 1 && p[0] == c && forall i :: 0 <= i < |x| ==> Join(x, o, b)[i] == p[i + 1]
    ensures p == [c] + Join(x, o, b)
  {
  }

  /** Every coordinate of the spatial tensor is a block and an offset. */
  lemma SplitCoordinate(ch: nat, h: seq<nat>, b: nat, p: seq<nat>) returns (c: nat, x: seq<nat>, o: seq<nat>)
    requires b > 0 && InBox([ch] + Scaled(h, b), p)
    ensures InBlocks(ch, h, b, c, x, o) && p == [c] + Join(x, o, b)
  {
    c := p[0];
    x := seq(|h|, i requires 0 <= i < |h| => p[i + 1] / b);
    o := seq(|h|, i requires 0 <= i < |h| => p[i + 1] % b);
    forall i | 0 <= i < |h| ensures x[i] < h[i] && o[i] < b && x[i] * b + o[i] == p[i + 1] {
      assert p[i + 1] < ([ch] + Scaled(h, b))[i + 1];
      DivModSplit(p[i + 1], h[i], b);
    }
    assert c < ([ch] + Scaled(h, b))[0];
    JoinsTo(c, x, o, b, p);
  }

  /** Every coordinate of the deep tensor is a channel, an offset and a block. */
  lemma SplitDeepCoordinate(ch: nat, h: seq<nat>, b: nat, q: seq<nat>) returns (c: nat, x: seq<nat>, o: seq<nat>)
    requires b > 0 && ch > 0 && InBox([DeepChannels(ch, b, |h|)] + h, q)
    ensures InBlocks(ch, h, b, c, x, o) && q == [DeepChannel(ch, b, c, o)] + x
  {
    var bs, e := Constant(|h|, b), q[0];
    assert e < ([DeepChannels(ch, b, |h|)] + h)[0];
    DivModSplit(e, Size(bs), ch);
    UnravelInBox(bs, e / ch);
    c, x, o := e % ch, q[1..], Unravel(bs, e / ch);
    forall i | 0 <= i < |h| ensures x[i] < h[i] {
      assert q[i + 1] < ([DeepChannels(ch, b, |h|)] + h)[i + 1];
    }
  }

  /** The deep tensor determines the spatial one. */
  lemma SpaceIsDetermined<T(!new)>(s: Tensor<T>, s': Tensor<T>, depth: Tensor<T>, ch: nat, ch': nat, h: seq<nat>,
                                   h': seq<nat>, b: nat)
    requires b > 0 && Rearranged(s, depth, ch, h, b) && Rearranged(s', depth, ch', h', b)
    ensures s == s'
  {
    SameBlocks(depth.shape, ch, ch', h, h', b);
    forall k | 0 <= k < |s.data| ensures s.data[k] == s'.data[k] {
      UnravelInBox(s.shape, k);
      var c, x, o := SplitCoordinate(ch, h, b, Unravel(s.shape, k));
      assert SameElement(s, [c] + Join(x, o, b), depth, [DeepChannel(ch, b, c, o)] + x);
      assert SameElement(s', [c] + Join(x, o, b), depth, [DeepChannel(ch, b, c, o)] + x);
    }
  }

  lemma SameBlocks(shape: seq<nat>, ch: nat, ch': nat, h: seq<nat>, h': seq<nat>, b: nat)
    requires b > 0 && shape == [DeepChannels(ch, b, |h|)] + h && shape == [DeepChannels(ch', b, |h'|)] + h'
    ensures h == h' && ch == ch'
  {
    assert h == shape[1..] && h' == shape[1..];
    SizePositive(Constant(|h|, b));
    CancelFactor(ch, ch', Size(Constant(|h|, b)));
  }

  /** The spatial tensor determines the deep one. */
  lemma DepthIsDetermined<T(!new)>(s: Tensor<T>, d: Tensor<T>, d': Tensor<T>, ch: nat, h: seq<nat>, b: nat)
    requires b > 0 && Rearranged(s, d, ch, h, b) && Rearranged(s, d', ch, h, b)
    ensures d == d'
  {
    assert ch == s.shape[0] > 0;
    forall k | 0 <= k < |d.data| ensures d.data[k] == d'.data[k] {
      UnravelInBox(d.shape, k);
      var c, x, o := SplitDeepCoordinate(ch, h, b, Unravel(d.shape, k));
      assert SameElement(s, [c] + Join(x, o, b), d, [DeepChannel(ch, b, c, o)] + x);
      assert SameElement(s, [c] + Join(x, o, b), d', [DeepChannel(ch, b, c, o)] + x);
    }
  }

  /** DepthToSpace after SpaceToDepth returns the tensor, for every rank and every divisible shape. */
  method SpaceToDepthAndBack<T(!new)>(t: Tensor<T>, b: nat) returns (r: Option<Tensor<T>>)
    requires t.Valid() && t.shape != [] && b > 0
    ensures r == if forall i :: 1 <= i < |t.shape| ==> t.shape[i] % b == 0 then Some(t) else None
  {
    var deep := SpaceToDepth(t, b);
    if deep.None? {
      return None;
    }
    r := DepthToSpace(deep.value, b);
    assert deep.value.shape[0] == DeepChannels(t.shape[0], b, |t.shape| - 1);
    ghost var h, h' := Coarse(t.shape, b), deep.value.shape[1..];
    SpaceIsDetermined(t, r.value, deep.value, t.shape[0], r.value.shape[0], h, h', b);
  }

  /** SpaceToDepth after DepthToSpace returns the tensor whenever the first succeeds. */
  method DepthToSpaceAndBack<T(!new)>(t: Tensor<T>, b: nat) returns (r: Option<Tensor<T>>)
    requires t.Valid() && t.shape != [] && b > 0
    ensures r.Some? <==> ChannelsSplit(t.shape[0], b, |t.shape| - 1)
    ensures r.Some? ==> r.value == t
  {
    var space := DepthToSpace(t, b);
    if space.None? {
      return None;
    }
    r := SpaceToDepth(space.value, b);
    ghost var ch, h := space.value.shape[0], t.shape[1..];
    ScaledDivides(space.value.shape, ch, h, b);
    DepthIsDetermined(space.value, t, r.value, ch, h, b);
  }

  lemma ScaledDivides(shape: seq<nat>, ch: nat, h: seq<nat>, b: nat)
    requires b > 0 && shape == [ch] + Scaled(h, b)
    ensures Coarse(shape, b) == h && forall i :: 1 <= i < |shape| ==> shape[i] % b == 0
  {
    forall i | 1 <= i < |shape| ensures shape[i] % b == 0 && Coarse(shape, b)[i - 1] == h[i - 1] {
      HornerUnique(shape[i] / b, shape[i] % b, h[i - 1], 0, b);
    }
  }
}
