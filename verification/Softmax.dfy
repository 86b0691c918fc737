/** The Softmax importer, built from a flatten, two moves and a layer that works along dimension 0:
    3rdparty/onnx-tensorrt/builtin_op_importers.cpp. */
module Softmax {
  import opened Wrappers
  import opened Sequences
  import opened Arithmetic
  import opened TensorLayout
  import opened Transpose

  /** A function on slices that keeps their length, such as a softmax. */
  ghost predicate KeepsLength<T(!new)>(f: seq<T> -> seq<T>) {
    forall s :: |f(s)| == |s|
  }

  // ---------- The layer: f along dimension 0 ----------

  function Column<T>(d: nat, data: seq<T>, width: nat, m: nat): (col: seq<T>)
    requires |data| == d * width && m < width
    ensures |col| == d
    ensures forall j: nat :: j < d ==> j * width + m < |data| && col[j] == data[j * width + m]
  {
    assert forall j: nat :: j < d ==> j * width + m < |data| by {
      forall j: nat | j < d ensures j * width + m < |data| { HornerBound(j, d, m, width); }
    }
    seq(d, j requires 0 <= j < d => data[j * width + m])
  }

  /** Every slice of t along dimension 0 is replaced by its image under f. */
  ghost predicate IsAlongFirst<T(!new)>(f: seq<T> -> seq<T>, t: Tensor<T>, r: Tensor<T>)
    requires KeepsLength(f) && t.Valid() && t.shape != []
  {
    && r.Valid() && r.shape == t.shape
    && var d, width := t.shape[0], Size(t.shape[1..]);
       FirstSize(t.shape);
       forall m: nat :: m < width ==> Column(d, r.data, width, m) == f(Column(d, t.data, width, m))
  }

  lemma FirstSize(shape: seq<nat>)
    requires shape != []
    ensures Size(shape) == shape[0] * Size(shape[1..])
  {
    assert shape == [shape[0]] + shape[1..];
    SizeConcat([shape[0]], shape[1..]);
    assert [shape[0]][..0] == [];
  }

  lemma SplitIndex(k: nat, d: nat, width: nat)
    requires k < d * width
    ensures width > 0 && k / width < d && k % width < width && k / width * width + k % width == k
  {
    if width > 0 {
      DivModSplit(k, d, width);
    }
  }

  lemma JoinIndex(j: nat, m: nat, width: nat)
    requires m < width
    ensures (j * width + m) / width == j && (j * width + m) % width == m
  {
    var k := j * width + m;
    HornerUnique(k / width, k % width, j, m, width);
  }

  /** The data of the layer's result. */
  function Along<T>(f: seq<T> -> seq<T>, d: nat, data: seq<T>, width: nat): (r: seq<T>)
    requires |data| == d * width && forall m: nat :: m < width ==> |f(Column(d, data, width, m))| == d
    ensures |r| == |data|
  {
    assert forall k: nat :: k < |data| ==> width > 0 && k / width < d && k % width < width by {
      forall k: nat | k < |data| ensures width > 0 && k / width < d && k % width < width { SplitIndex(k, d, width); }
    }
    seq(|data|, k requires 0 <= k < |data| => f(Column(d, data, width, k % width))[k / width])
  }

  lemma AlongAt<T>(f: seq<T> -> seq<T>, d: nat, data: seq<T>, width: nat, m: nat, j: nat, k: nat)
    requires |data| == d * width && forall m: nat :: m < width ==> |f(Column(d, data, width, m))| == d
    requires m < width && j < d && k == j * width + m < |data|
    ensures Along(f, d, data, width)[k] == f(Column(d, data, width, m))[j]
  {
    JoinIndex(j, m, width);
  }

  lemma AlongColumn<T>(f: seq<T> -> seq<T>, d: nat, data: seq<T>, width: nat, m: nat)
    requires |data| == d * width && forall m: nat :: m < width ==> |f(Column(d, data, width, m))| == d
    requires m < width
    ensures Column(d, Along(f, d, data, width), width, m) == f(Column(d, data, width, m))
  {
    forall j: nat | j < d ensures Column(d, Along(f, d, data, width), width, m)[j] == f(Column(d, data, width, m))[j] {
      HornerBound(j, d, m, width);
      AlongAt(f, d, data, width, m, j, j * width + m);
    }
  }

  method AlongFirst<T(!new)>(f: seq<T> -> seq<T>, t: Tensor<T>) returns (r: Tensor<T>)
    requires KeepsLength(f) && t.Valid() && t.shape != []
    ensures IsAlongFirst(f, t, r)
  {
    FirstSize(t.shape);
    var d, width := t.shape[0], Size(t.shape[1..]);
    r := Tensor(t.shape, Along(f, d, t.data, width));
    forall m: nat | m < width ensures Column(d, r.data, width, m) == f(Column(d, t.data, width, m)) {
      AlongColumn(f, d, t.data, width, m);
    }
  }

  // ---------- Flattened and moved positions ----------

  lemma {:induction false} TrailingOnes(n: nat)
    ensures Size(Constant(n, 1)) == 1 && Linear(Constant(n, 1), Constant(n, 0)) == 0
  {
    if n > 0 {
      TrailingOnes(n - 1);
      assert Constant(n, 1)[..n - 1] == Constant(n - 1, 1) && Constant(n, 0)[..n - 1] == Constant(n - 1, 0);
    }
  }

  ghost function FlatShape(a: seq<nat>, b: nat, z: nat): seq<nat> { a + [b] + Constant(z, 1) }
  ghost function FrontShape(a: seq<nat>, b: nat, z: nat): seq<nat> { [b] + a + Constant(z, 1) }
  ghost function FlatAt(c: seq<nat>, j: nat, z: nat): seq<nat> { c + [j] + Constant(z, 0) }
  ghost function FrontAt(c: seq<nat>, j: nat, z: nat): seq<nat> { [j] + c + Constant(z, 0) }

  lemma DropOnes(shape: seq<nat>, c: seq<nat>, z: nat)
    requires |c| == |shape|
    ensures Linear(shape + Constant(z, 1), c + Constant(z, 0)) == Linear(shape, c)
    ensures Size(shape + Constant(z, 1)) == Size(shape)
  {
    TrailingOnes(z);
    LinearConcat(shape, Constant(z, 1), c, Constant(z, 0));
    SizeConcat(shape, Constant(z, 1));
  }

  lemma FlatPosition(a: seq<nat>, b: nat, z: nat, c: seq<nat>, j: nat)
    requires |c| == |a|
    ensures Linear(FlatShape(a, b, z), FlatAt(c, j, z)) == Linear(a, c) * b + j
    ensures Size(FlatShape(a, b, z)) == Size(a) * b
  {
    DropOnes(a + [b], c + [j], z);
    OneDimension(b, j);
    LinearConcat(a, [b], c, [j]);
    SizeConcat(a, [b]);
  }

  lemma FrontPosition(a: seq<nat>, b: nat, z: nat, c: seq<nat>, j: nat)
    requires |c| == |a|
    ensures Linear(FrontShape(a, b, z), FrontAt(c, j, z)) == j * Size(a) + Linear(a, c)
    ensures Size(FrontShape(a, b, z)) == b * Size(a)
  {
    DropOnes([b] + a, [j] + c, z);
    OneDimension(b, j);
    LinearConcat([b], a, [j], c);
    SizeConcat([b], a);
  }

  lemma MoveToFront(c: seq<nat>, j: nat, r: seq<nat>)
    ensures Pick(c + [j] + r, MovePerm(|c| + 1 + |r|, |c|, 0)) == [j] + c + r
  {
  }

  lemma MoveFromFront(c: seq<nat>, j: nat, r: seq<nat>)
    ensures Pick([j] + c + r, MovePerm(|c| + 1 + |r|, 0, |c|)) == c + [j] + r
  {
  }

  lemma CoordinatesInBox(a: seq<nat>, b: nat, z: nat, c: seq<nat>, j: nat)
    requires InBox(a, c) && j < b
    ensures InBox(FlatShape(a, b, z), FlatAt(c, j, z)) && InBox(FrontShape(a, b, z), FrontAt(c, j, z))
  {
  }

  /** Element j of block m, in flattened and in moved coordinates. */
  lemma Positions(a: seq<nat>, b: nat, z: nat, m: nat, j: nat)
    requires Positive(a) && m < Size(a) && j < b
    ensures var c := Unravel(a, m);
            && InBox(FlatShape(a, b, z), FlatAt(c, j, z)) && InBox(FrontShape(a, b, z), FrontAt(c, j, z))
            && Linear(FlatShape(a, b, z), FlatAt(c, j, z)) == m * b + j
            && Linear(FrontShape(a, b, z), FrontAt(c, j, z)) == j * Size(a) + m
  {
    UnravelInBox(a, m);
    var c := Unravel(a, m);
    CoordinatesInBox(a, b, z, c, j);
    FlatPosition(a, b, z, c, j);
    FrontPosition(a, b, z, c, j);
  }

  /** The flattened tensor with its merged dimension moved to the front. */
  ghost predicate IsFront<T>(a: seq<nat>, b: nat, z: nat, flat: Tensor<T>, front: Tensor<T>) {
    && flat.Valid() && flat.shape == FlatShape(a, b, z) && front.shape == FrontShape(a, b, z)
    && |flat.data| == Size(a) * b && front == MoveDimension(flat, |a|, 0)
  }

  /** And a tensor of that shape with its first dimension moved back. */
  ghost predicate IsBack<T>(a: seq<nat>, b: nat, z: nat, front: Tensor<T>, back: Tensor<T>) {
    && front.Valid() && front.shape == FrontShape(a, b, z) && back.shape == FlatShape(a, b, z)
    && |front.data| == Size(a) * b && back == MoveDimension(front, 0, |a|)
  }

  /** Moving the flattened dimension to the front is a matrix transpose of the data. */
  lemma MovedToFront<T(!new)>(a: seq<nat>, b: nat, z: nat, t: Tensor<T>, u: Tensor<T>, m: nat, j: nat)
    requires IsFront(a, b, z, t, u) && Positive(a) && m < Size(a) && j < b
    ensures m * b + j < |t.data| && j * Size(a) + m < |u.data| && u.data[j * Size(a) + m] == t.data[m * b + j]
  {
    var c := Unravel(a, m);
    MoveToFront(c, j, Constant(z, 0));
    Positions(a, b, z, m, j);
    MoveElement(t, |a|, 0, FlatAt(c, j, z), FrontAt(c, j, z), m * b + j, j * Size(a) + m);
  }

  /** And moving it back is the inverse one. */
  lemma MovedFromFront<T(!new)>(a: seq<nat>, b: nat, z: nat, t: Tensor<T>, u: Tensor<T>, m: nat, j: nat)
    requires IsBack(a, b, z, t, u) && Positive(a) && m < Size(a) && j < b
    ensures m * b + j < |u.data| && j * Size(a) + m < |t.data| && u.data[m * b + j] == t.data[j * Size(a) + m]
  {
    var c := Unravel(a, m);
    MoveFromFront(c, j, Constant(z, 0));
    Positions(a, b, z, m, j);
    MoveElement(t, 0, |a|, FrontAt(c, j, z), FlatAt(c, j, z), j * Size(a) + m, m * b + j);
  }

  // ---------- The importer ----------

  /** The shape after merging dimensions axis..i-1. */
  ghost function MergedTo(shape: seq<nat>, axis: nat, i: nat): (s: seq<nat>)
    requires axis < i <= |shape|
    ensures |s| == |shape|
  {
    FlatShape(shape[..axis], Size(shape[axis..i]), i - axis - 1) + shape[i..]
  }

  lemma MergedNone(shape: seq<nat>, axis: nat)
    requires axis < |shape|
    ensures MergedTo(shape, axis, axis + 1) == shape
  {
    assert shape[axis..axis + 1] == [shape[axis]];
    OneDimension(shape[axis], 0);
  }

  lemma MergeOne(shape: seq<nat>, axis: nat, i: nat)
    requires axis < i < |shape|
    ensures MergedTo(shape, axis, i)[axis] == Size(shape[axis..i])
    ensures MergedTo(shape, axis, i)[axis := Size(shape[axis..i]) * shape[i]][i := 1] == MergedTo(shape, axis, i + 1)
  {
    assert shape[axis..i + 1][..i - axis] == shape[axis..i];
  }

  lemma MergeStep(shape: seq<nat>, axis: nat, i: nat, now: seq<nat>)
    requires axis < i < |shape| && now == MergedTo(shape, axis, i)
    ensures now[axis := now[axis] * shape[i]][i := 1] == MergedTo(shape, axis, i + 1)
  {
    MergeOne(shape, axis, i);
  }

  lemma MergedAll(shape: seq<nat>, axis: nat)
    requires axis < |shape|
    ensures MergedTo(shape, axis, |shape|) == FlatShape(shape[..axis], Size(shape[axis..]), |shape| - axis - 1)
  {
    assert shape[axis..|shape|] == shape[axis..];
  }

  /** Merging keeps the number of elements and positive dimensions. */
  lemma FlatSize(shape: seq<nat>, axis: nat)
    requires Positive(shape) && axis < |shape|
    ensures var flat := FlatShape(shape[..axis], Size(shape[axis..]), |shape| - axis - 1);
            Positive(flat) && Size(flat) == Size(shape) && Size(shape) == Size(shape[..axis]) * Size(shape[axis..])
  {
    FlatPosition(shape[..axis], Size(shape[axis..]), |shape| - axis - 1, shape[..axis], 0);
    assert shape == shape[..axis] + shape[axis..];
    SizeConcat(shape[..axis], shape[axis..]);
    SizePositive(shape[axis..]);
  }

  /** Dimensions from `axis` on merged into one, the rest filled with ones. */
  method FlattenTensor<T(!new)>(t: Tensor<T>, axis: nat) returns (r: Tensor<T>)
    requires t.Valid() && axis < |t.shape|
    ensures r.Valid() && r.data == t.data
    ensures r.shape == FlatShape(t.shape[..axis], Size(t.shape[axis..]), |t.shape| - axis - 1)
  {
    var newShape := t.shape;
    MergedNone(t.shape, axis);
    for i := axis + 1 to |t.shape|
      invariant newShape == MergedTo(t.shape, axis, i)
    {
      MergeStep(t.shape, axis, i, newShape);
      newShape := newShape[axis := newShape[axis] * t.shape[i]][i := 1];
    }
    MergedAll(t.shape, axis);
    FlatSize(t.shape, axis);
    r := Reshape(t, newShape);
  }

  /** r is t with every block of elements that share their first `axis` coordinates replaced by its image. */
  ghost predicate IsBlockwise<T(!new)>(f: seq<T> -> seq<T>, t: Tensor<T>, axis: nat, r: Tensor<T>)
    requires KeepsLength(f) && t.Valid() && axis <= |t.shape|
  {
    && r.Valid() && r.shape == t.shape
    && BlocksMapped(f, t.data, r.data, Size(t.shape[..axis]), Size(t.shape[axis..]))
  }

  ghost predicate BlocksMapped<T>(f: seq<T> -> seq<T>, before: seq<T>, after: seq<T>, blocks: nat, b: nat) {
    forall m: nat {:trigger Block(before, b, m)} :: m < blocks ==>
      m * b + b <= |before| && Block(after, b, m) == f(Block(before, b, m))
  }

  /** Block number m of length b; shorter when the data ends before. */
  function Block<T>(data: seq<T>, b: nat, m: nat): seq<T> {
    if m * b + b <= |data| then data[m * b..m * b + b] else []
  }

  lemma BlockAt<T>(data: seq<T>, b: nat, blocks: nat, m: nat, j: nat)
    requires |data| == blocks * b && m < blocks && j < b
    ensures m * b + b <= |data| && |Block(data, b, m)| == b && Block(data, b, m)[j] == data[m * b + j]
  {
    NextMultiple(m, blocks, b);
  }

  lemma BlockLength<T>(data: seq<T>, b: nat, blocks: nat, m: nat)
    requires |data| == blocks * b && m < blocks
    ensures m * b + b <= |data| && |Block(data, b, m)| == b
  {
    NextMultiple(m, blocks, b);
  }

  /** A block holds the elements that share their first `axis` coordinates, in row-major order of the others. */
  lemma ElementInBlock<T(!new)>(t: Tensor<T>, axis: nat, c: seq<nat>)
    requires t.Valid() && axis <= |t.shape| && InBox(t.shape, c)
    ensures var a, rest := t.shape[..axis], t.shape[axis..];
            var m, j := Linear(a, c[..axis]), Linear(rest, c[axis..]);
            && m < Size(a) && j < Size(rest) == |Block(t.data, Size(rest), m)|
            && Block(t.data, Size(rest), m)[j] == At(t, c)
  {
    assert t.shape == t.shape[..axis] + t.shape[axis..] && c == c[..axis] + c[axis..];
    PartsInBlock(t, t.shape[..axis], t.shape[axis..], c[..axis], c[axis..]);
  }

  lemma PartsInBlock<T(!new)>(t: Tensor<T>, a: seq<nat>, rest: seq<nat>, ca: seq<nat>, cr: seq<nat>)
    requires t.Valid() && t.shape == a + rest && InBox(a, ca) && InBox(rest, cr) && InBox(t.shape, ca + cr)
    ensures var m, j := Linear(a, ca), Linear(rest, cr);
            && m < Size(a) && j < Size(rest) == |Block(t.data, Size(rest), m)|
            && Block(t.data, Size(rest), m)[j] == At(t, ca + cr)
  {
    LinearInRange(a, ca);
    LinearInRange(rest, cr);
    SizeConcat(a, rest);
    LinearConcat(a, rest, ca, cr);
    BlockAt(t.data, Size(rest), Size(a), Linear(a, ca), Linear(rest, cr));
  }

  /** Being blockwise settles every element of the result. */
  lemma BlockwiseIsUnique<T(!new)>(f: seq<T> -> seq<T>, t: Tensor<T>, axis: nat, r: Tensor<T>, r': Tensor<T>)
    requires KeepsLength(f) && t.Valid() && axis <= |t.shape|
    requires IsBlockwise(f, t, axis, r) && IsBlockwise(f, t, axis, r')
    ensures r == r'
  {
    var blocks, b := Size(t.shape[..axis]), Size(t.shape[axis..]);
    assert t.shape == t.shape[..axis] + t.shape[axis..];
    SizeConcat(t.shape[..axis], t.shape[axis..]);
    SameBlocks(f, t.data, r.data, r'.data, blocks, b);
  }

  lemma SameBlocks<T>(f: seq<T> -> seq<T>, before: seq<T>, d: seq<T>, d': seq<T>, blocks: nat, b: nat)
    requires |before| == |d| == |d'| == blocks * b
    requires BlocksMapped(f, before, d, blocks, b) && BlocksMapped(f, before, d', blocks, b)
    ensures d == d'
  {
    forall k | 0 <= k < |d| ensures d[k] == d'[k] {
      SplitIndex(k, blocks, b);
      assert Block(d, b, k / b) == f(Block(before, b, k / b)) == Block(d', b, k / b);
      BlockAt(d, b, blocks, k / b, k % b);
      BlockAt(d', b, blocks, k / b, k % b);
    }
  }

  /** So with a layer that changes nothing, every element comes back to its place. */
  lemma IdentityComesBack<T(!new)>(f: seq<T> -> seq<T>, t: Tensor<T>, axis: nat, r: Tensor<T>)
    requires (forall s :: f(s) == s) && KeepsLength(f) && t.Valid() && axis <= |t.shape| && IsBlockwise(f, t, axis, r)
    ensures r == t
  {
    var blocks, b := Size(t.shape[..axis]), Size(t.shape[axis..]);
    assert t.shape == t.shape[..axis] + t.shape[axis..];
    SizeConcat(t.shape[..axis], t.shape[axis..]);
    forall m: nat | m < blocks ensures m * b + b <= |t.data| {
      BlockLength(t.data, b, blocks, m);
    }
    BlockwiseIsUnique(f, t, axis, r, t);
  }

  /** Slice m of the moved tensor is block m of the original. */
  lemma ColumnIsBlock<T(!new)>(a: seq<nat>, b: nat, z: nat, t: Tensor<T>, u: Tensor<T>, m: nat)
    requires IsFront(a, b, z, t, u) && Positive(a) && m < Size(a)
    ensures Column(b, u.data, Size(a), m) == Block(t.data, b, m)
  {
    BlockLength(t.data, b, Size(a), m);
    forall j: nat | j < b ensures Column(b, u.data, Size(a), m)[j] == Block(t.data, b, m)[j] {
      BlockAt(t.data, b, Size(a), m, j);
      MovedToFront(a, b, z, t, u, m, j);
    }
  }

  lemma BlockIsColumn<T(!new)>(a: seq<nat>, b: nat, z: nat, t: Tensor<T>, u: Tensor<T>, m: nat)
    requires IsBack(a, b, z, t, u) && Positive(a) && m < Size(a)
    ensures Block(u.data, b, m) == Column(b, t.data, Size(a), m)
  {
    BlockLength(u.data, b, Size(a), m);
    forall j: nat | j < b ensures Block(u.data, b, m)[j] == Column(b, t.data, Size(a), m)[j] {
      BlockAt(u.data, b, Size(a), m, j);
      MovedFromFront(a, b, z, t, u, m, j);
    }
  }

  lemma FrontWidth(a: seq<nat>, b: nat, z: nat)
    ensures FrontShape(a, b, z)[0] == b && Size(FrontShape(a, b, z)[1..]) == Size(a)
  {
    assert FrontShape(a, b, z)[1..] == a + Constant(z, 1);
    DropOnes(a, a, z);
  }

  lemma MovedShapes(a: seq<nat>, b: nat, z: nat)
    ensures |FlatShape(a, b, z)| == |FrontShape(a, b, z)| == |a| + 1 + z
    ensures Pick(FlatShape(a, b, z), MovePerm(|a| + 1 + z, |a|, 0)) == FrontShape(a, b, z)
    ensures Pick(FrontShape(a, b, z), MovePerm(|a| + 1 + z, 0, |a|)) == FlatShape(a, b, z)
  {
    MoveToFront(a, b, Constant(z, 1));
    MoveFromFront(a, b, Constant(z, 1));
  }

  lemma LayerColumn<T(!new)>(f: seq<T> -> seq<T>, a: seq<nat>, b: nat, z: nat, front: Tensor<T>, done: Tensor<T>,
                             m: nat)
    requires KeepsLength(f) && front.Valid() && front.shape == FrontShape(a, b, z) && IsAlongFirst(f, front, done)
    requires m < Size(a)
    ensures |front.data| == b * Size(a) == |done.data|
    ensures Column(b, done.data, Size(a), m) == f(Column(b, front.data, Size(a), m))
  {
    FrontWidth(a, b, z);
    FrontPosition(a, b, z, a, 0);
  }

  /** Flatten, move to the front, apply the layer, move back: block m is replaced by its image. */
  lemma BlockReplaced<T(!new)>(f: seq<T> -> seq<T>, a: seq<nat>, b: nat, z: nat,
                               flat: Tensor<T>, front: Tensor<T>, done: Tensor<T>, back: Tensor<T>, m: nat)
    requires KeepsLength(f) && Positive(a) && m < Size(a)
    requires IsFront(a, b, z, flat, front) && IsBack(a, b, z, done, back) && IsAlongFirst(f, front, done)
    ensures Block(back.data, b, m) == f(Block(flat.data, b, m))
  {
    LayerColumn(f, a, b, z, front, done, m);
    ColumnIsBlock(a, b, z, flat, front, m);
    BlockIsColumn(a, b, z, done, back, m);
  }

  lemma BlocksReplaced<T(!new)>(f: seq<T> -> seq<T>, a: seq<nat>, b: nat, z: nat,
                                flat: Tensor<T>, front: Tensor<T>, done: Tensor<T>, back: Tensor<T>)
    requires KeepsLength(f) && Positive(a)
    requires IsFront(a, b, z, flat, front) && IsBack(a, b, z, done, back) && IsAlongFirst(f, front, done)
    ensures BlocksMapped(f, flat.data, back.data, Size(a), b)
  {
    forall m: nat | m < Size(a)
      ensures m * b + b <= |flat.data| && Block(back.data, b, m) == f(Block(flat.data, b, m))
    {
      BlockLength(flat.data, b, Size(a), m);
      BlockReplaced(f, a, b, z, flat, front, done, back, m);
    }
  }

  lemma FrontOf<T(!new)>(a: seq<nat>, b: nat, z: nat, t: Tensor<T>)
    requires t.Valid() && t.shape == FlatShape(a, b, z) && |t.data| == Size(a) * b
    ensures IsFront(a, b, z, t, MoveDimension(t, |a|, 0))
  {
    MovedShapes(a, b, z);
  }

  lemma BackOf<T(!new)>(a: seq<nat>, b: nat, z: nat, t: Tensor<T>)
    requires t.Valid() && t.shape == FrontShape(a, b, z) && |t.data| == Size(a) * b
    ensures IsBack(a, b, z, t, MoveDimension(t, 0, |a|))
  {
    MovedShapes(a, b, z);
  }

  /** Axis numbers count the batch dimension when they are not negative. */
  function ConvertAxis(axis: int, n: nat): (r: Option<nat>)
    ensures r.Some? <==> 1 <= axis <= n || axis < 0 <= axis + n
    ensures r.Some? ==> r.value < n && (axis - 1 == r.value || axis + n == r.value)
  {
    var converted := if axis < 0 then axis + n else axis - 1;
    if 0 <= converted < n then Some(converted) else None
  }

  /** Axis k > 0 is dimension k - 1, as the batch dimension is not part of the shape; axis k < 0 counts from the end.
      Block by block along every dimension but the first; along dimension 0 slice by slice. */
  method Import<T(!new)>(f: seq<T> -> seq<T>, t: Tensor<T>, axis: int) returns (r: Option<Tensor<T>>)
    requires KeepsLength(f) && t.Valid()
    ensures r.Some? <==> 1 <= axis <= |t.shape| || -|t.shape| <= axis < 0
    ensures r.Some? && (axis == 1 || axis == -|t.shape|) ==> IsAlongFirst(f, t, r.value)
    ensures r.Some? && axis > 1 ==> IsBlockwise(f, t, axis - 1, r.value)
    ensures r.Some? && -|t.shape| < axis < 0 ==> IsBlockwise(f, t, axis + |t.shape|, r.value)
  {
    var converted := ConvertAxis(axis, |t.shape|);
    if converted.None? {
      return None;
    }
    var done := ImportAlong(f, t, converted.value);
    r := Some(done);
  }

  /** The rest of the importer, for the converted axis. */
  method ImportAlong<T(!new)>(f: seq<T> -> seq<T>, t: Tensor<T>, ax: nat) returns (r: Tensor<T>)
    requires KeepsLength(f) && t.Valid() && ax < |t.shape|
    ensures ax == 0 ==> IsAlongFirst(f, t, r)
    ensures ax > 0 ==> IsBlockwise(f, t, ax, r)
  {
    if ax == 0 {
      r := AlongFirst(f, t);
      return;
    }
    FlatSize(t.shape, ax);
    var flat := FlattenTensor(t, ax);
    var front := MoveTensorDimension(flat, ax, 0);
    ghost var a, b, z := t.shape[..ax], Size(t.shape[ax..]), |t.shape| - ax - 1;
    FrontOf(a, b, z, flat);
    var done := AlongFirst(f, front.value);
    var back := MoveTensorDimension(done, 0, ax);
    ThereAndBack(f, a, b, z, flat, front.value, done, back.value);
    r := Reshape(back.value, t.shape);
  }

  lemma ThereAndBack<T(!new)>(f: seq<T> -> seq<T>, a: seq<nat>, b: nat, z: nat,
                              flat: Tensor<T>, front: Tensor<T>, done: Tensor<T>, back: Tensor<T>)
    requires KeepsLength(f) && Positive(a) && IsFront(a, b, z, flat, front) && front.Valid() && front.shape != []
    requires IsAlongFirst(f, front, done) && |a| < |done.shape| && back == MoveDimension(done, 0, |a|)
    ensures BlocksMapped(f, flat.data, back.data, Size(a), b) && |back.data| == |flat.data|
  {
    BackOf(a, b, z, done);
    BlocksReplaced(f, a, b, z, flat, front, done, back);
  }

  // ---------- The first axis ----------

  lemma WholeBlock<T>(shape: seq<nat>, data: seq<T>)
    requires |data| == Size(shape)
    ensures shape[..0] == [] && shape[0..] == shape && Block(data, Size(shape), 0) == data
  {
  }

  /** Along dimension 0 nothing is flattened; the result is blockwise as long as nothing follows that dimension. */
  lemma FirstAxisBlockwise<T(!new)>(f: seq<T> -> seq<T>, t: Tensor<T>, r: Tensor<T>)
    requires KeepsLength(f) && t.Valid() && t.shape != [] && IsAlongFirst(f, t, r) && Size(t.shape[1..]) == 1
    ensures IsBlockwise(f, t, 0, r)
  {
    FirstSize(t.shape);
    WholeBlock(t.shape, t.data);
    WholeBlock(t.shape, r.data);
    assert Column(t.shape[0], t.data, 1, 0) == t.data;
    assert Column(t.shape[0], r.data, 1, 0) == r.data;
  }

  /** Replaces every element by the length of its slice. */
  ghost function Lengths(s: seq<int>): (r: seq<int>)
    ensures |r| == |s|
  {
    seq(|s|, _ => |s|)
  }

  /** And it is not as soon as something follows: then some slice function tells the two apart. */
  lemma FirstAxisNotBlockwise(t: Tensor<int>, r: Tensor<int>)
    requires t.Valid() && t.shape != [] && IsAlongFirst(Lengths, t, r) && Size(t.shape[1..]) > 1
    ensures !IsBlockwise(Lengths, t, 0, r)
  {
    var d, width := t.shape[0], Size(t.shape[1..]);
    FirstSize(t.shape);
    WholeBlock(t.shape, t.data);
    WholeBlock(t.shape, r.data);
    assert Column(d, r.data, width, 0) == Lengths(Column(d, t.data, width, 0));
    assert Column(d, r.data, width, 0)[0] == r.data[0 * width + 0];
    NextMultiple(1, width, d);
    assert Size(t.shape) > d;
  }
}
