/** Dividing the image list into chunks and test, training and validation lists: make_list in tools/im2rec.py. */
module MakeList {
  import opened Arithmetic

  /** The list files of one chunk; a file that is not written at all is empty here. */
  datatype Lists<T> = Lists(test: seq<T>, train: seq<T>, val: seq<T>)

  ghost function Min(a: nat, b: nat): nat { if a <= b then a else b }

  /** r holds the elements of s from number lo up to, not including, number hi, as far as there are any. */
  ghost predicate IsSlice<T>(s: seq<T>, r: seq<T>, lo: nat, hi: nat) {
    && |r| == (if hi <= lo || |s| <= lo then 0 else Min(hi, |s|) - lo)
    && forall k :: 0 <= k < |r| ==> r[k] == s[lo + k]
  }

  /** A slice whose bounds are cut off at the end of the list. */
  function Slice<T>(s: seq<T>, lo: nat, hi: nat): (r: seq<T>)
    requires lo <= hi
  {
    if lo >= |s| then [] else if hi >= |s| then s[lo..] else s[lo..hi]
  }

  function ChunkSize(n: nat, chunks: nat): nat
    requires chunks >= 1
  {
    (n + chunks - 1) / chunks
  }

  /** A share of the chunk size, truncated to a whole number. */
  function Share(size: nat, ratio: real): (n: nat)
    requires ratio >= 0.0
  {
    var x := size as real * ratio;
    assert x >= 0.0;
    x.Floor
  }

  function Divide<T>(chunk: seq<T>, size: nat, train: real, test: real): Lists<T>
    requires train >= 0.0 && test >= 0.0
  {
    DivideAt(chunk, Share(size, train), Share(size, test), train, test)
  }

  function DivideAt<T>(chunk: seq<T>, sep: nat, sepTest: nat, train: real, test: real): Lists<T> {
    if train == 1.0 then Lists([], chunk, [])
    else Lists(
      if test != 0.0 then Slice(chunk, 0, sepTest) else [],
      Slice(chunk, sepTest, sepTest + sep),
      if train + test < 1.0 then Slice(chunk, sepTest + sep, sepTest + sep + |chunk|) else [])
  }

  /** Everything written for one chunk. */
  ghost function All<T>(d: Lists<T>): seq<T> {
    d.test + d.train + d.val
  }

  /** Everything written, chunk by chunk. */
  ghost function Written<T>(files: seq<Lists<T>>): seq<T> {
    if files == [] then []
    else Written(files[..|files| - 1]) + All(files[|files| - 1])
  }

  /** The condition, checkable beforehand, under which no image is lost: the two shares fill a chunk,
      or what they leave over goes to the validation list. */
  ghost predicate SharesFill(n: nat, chunks: nat, train: real, test: real)
    requires chunks >= 1 && train >= 0.0 && test >= 0.0
  {
    var size := ChunkSize(n, chunks);
    n == 0 || train == 1.0 || train + test < 1.0 || Share(size, train) + Share(size, test) >= size
  }

  lemma ChunksCover(n: nat, chunks: nat)
    requires chunks >= 1
    ensures ChunkSize(n, chunks) * chunks >= n && (n >= 1 ==> 1 <= ChunkSize(n, chunks) <= n)
  {
    var x, size := n + chunks - 1, ChunkSize(n, chunks);
    assert x == size * chunks + x % chunks;
    NextMultiple(n, size, chunks);
    NextMultiple(0, chunks, n);
  }

  /** A chunk is divided without loss exactly when it is no longer than the two shares, or the rest is kept. */
  lemma DivideKeeps<T>(chunk: seq<T>, size: nat, train: real, test: real)
    requires train >= 0.0 && test >= 0.0
    ensures All(Divide(chunk, size, train, test)) ==
              if train == 1.0 || train + test < 1.0 then chunk
              else Slice(chunk, 0, Share(size, test) + Share(size, train))
  {
    assert test == 0.0 ==> Share(size, test) == 0;
  }

  function ChunkAt<T>(images: seq<T>, size: nat, i: nat): seq<T> {
    Slice(images, i * size, i * size + size)
  }

  /** The images of the first i chunks. */
  ghost function Taken<T>(images: seq<T>, size: nat, i: nat): seq<T> {
    Slice(images, 0, i * size)
  }

  lemma SliceNext<T>(images: seq<T>, from: nat, to: nat)
    requires from <= to
    ensures Slice(images, 0, from) + Slice(images, from, to) == Slice(images, 0, to)
  {
  }

  lemma NextChunk<T>(images: seq<T>, size: nat, i: nat)
    ensures Taken(images, size, i) + ChunkAt(images, size, i) == Taken(images, size, i + 1)
  {
    assert (i + 1) * size == i * size + size;
    SliceNext(images, i * size, i * size + size);
  }

  /** The files of the first i chunks. */
  ghost function Files<T>(images: seq<T>, size: nat, train: real, test: real, i: nat): (files: seq<Lists<T>>)
    requires train >= 0.0 && test >= 0.0
    ensures |files| == i
  {
    if i == 0 then []
    else Files(images, size, train, test, i - 1) + [Divide(ChunkAt(images, size, i - 1), size, train, test)]
  }

  lemma WrittenNext<T>(images: seq<T>, size: nat, train: real, test: real, i: nat)
    requires train >= 0.0 && test >= 0.0
    ensures Written(Files(images, size, train, test, i + 1)) ==
              Written(Files(images, size, train, test, i)) + All(Divide(ChunkAt(images, size, i), size, train, test))
  {
    var files := Files(images, size, train, test, i + 1);
    assert files[..|files| - 1] == Files(images, size, train, test, i);
  }

  lemma ChunkKept<T>(images: seq<T>, size: nat, train: real, test: real, i: nat)
    requires train >= 0.0 && test >= 0.0
    ensures |All(Divide(ChunkAt(images, size, i), size, train, test))| <= |ChunkAt(images, size, i)|
    ensures train == 1.0 || train + test < 1.0 || Share(size, train) + Share(size, test) >= size ==>
              All(Divide(ChunkAt(images, size, i), size, train, test)) == ChunkAt(images, size, i)
  {
    DivideKeeps(ChunkAt(images, size, i), size, train, test);
  }

  /** If the shares fill a chunk, or the rest is kept, the files of i chunks are the images of i chunks, in order. */
  lemma {:induction false} NothingLost<T>(images: seq<T>, size: nat, train: real, test: real, i: nat)
    requires train >= 0.0 && test >= 0.0
    requires train == 1.0 || train + test < 1.0 || Share(size, train) + Share(size, test) >= size
    ensures Written(Files(images, size, train, test, i)) == Taken(images, size, i)
  {
    if i > 0 {
      NothingLost(images, size, train, test, i - 1);
      WrittenNext(images, size, train, test, i - 1);
      NextChunk(images, size, i - 1);
      ChunkKept(images, size, train, test, i - 1);
    }
  }

  lemma {:induction false} NeverMore<T>(images: seq<T>, size: nat, train: real, test: real, i: nat)
    requires train >= 0.0 && test >= 0.0
    ensures |Written(Files(images, size, train, test, i))| <= |Taken(images, size, i)|
  {
    if i > 0 {
      NeverMore(images, size, train, test, i - 1);
      WrittenNext(images, size, train, test, i - 1);
      NextChunk(images, size, i - 1);
      ChunkKept(images, size, train, test, i - 1);
    }
  }

  lemma FirstChunk<T>(images: seq<T>, size: nat)
    requires size <= |images|
    ensures |ChunkAt(images, size, 0)| == size
  {
  }

  /** If the shares leave a gap and nothing keeps it, the first chunk already loses an image. */
  lemma {:induction false} SomethingLost<T>(images: seq<T>, size: nat, train: real, test: real, i: nat)
    requires train >= 0.0 && test >= 0.0 && 1 <= size <= |images| && i >= 1
    requires train != 1.0 && train + test >= 1.0 && Share(size, train) + Share(size, test) < size
    ensures |Written(Files(images, size, train, test, i))| < |Taken(images, size, i)|
  {
    WrittenNext(images, size, train, test, i - 1);
    NextChunk(images, size, i - 1);
    ChunkKept(images, size, train, test, i - 1);
    if i == 1 {
      FirstChunk(images, size);
      DivideKeeps(ChunkAt(images, size, 0), size, train, test);
    } else {
      SomethingLost(images, size, train, test, i - 1);
    }
  }

  lemma AllChunks<T>(images: seq<T>, chunks: nat, train: real, test: real)
    requires chunks >= 1 && train >= 0.0 && test >= 0.0
    ensures Written(Files(images, ChunkSize(|images|, chunks), train, test, chunks)) == images
            <==> SharesFill(|images|, chunks, train, test)
  {
    var size := ChunkSize(|images|, chunks);
    ChunksCover(|images|, chunks);
    assert Taken(images, size, chunks) == images;
    if images == [] {
      NeverMore(images, size, train, test, chunks);
    } else if SharesFill(|images|, chunks, train, test) {
      NothingLost(images, size, train, test, chunks);
    } else {
      SomethingLost(images, size, train, test, chunks);
    }
  }

  /** The chunk size is the least one with which the chunks hold n images. */
  lemma ChunkSizeIsLeast(n: nat, chunks: nat)
    requires chunks >= 1
    ensures var size := ChunkSize(n, chunks);
            (size - 1) * chunks < n <= size * chunks || (n == 0 && size == 0)
  {
    var x, size := n + chunks - 1, ChunkSize(n, chunks);
    assert x == size * chunks + x % chunks;
    assert (size - 1) * chunks == size * chunks - chunks;
  }

  /** A share is the whole part of the ratio's part of the chunk size. */
  lemma ShareIs(size: nat, ratio: real)
    requires ratio >= 0.0
    ensures Share(size, ratio) as real <= size as real * ratio < Share(size, ratio) as real + 1.0
  {
  }

  /** For the chunk that starts at image number `start`: the test images come first, then the training images, and
      then, unless the ratios add up to 1, those for validation. */
  ghost predicate DividedFrom<T>(images: seq<T>, size: nat, start: nat, sep: nat, sepTest: nat, train: real, test: real,
                                 d: Lists<T>)
  {
    if train == 1.0 then
      d.test == [] && IsSlice(images, d.train, start, start + size) && d.val == []
    else
      && (if test == 0.0 then d.test == [] else IsSlice(images, d.test, start, start + Min(size, sepTest)))
      && IsSlice(images, d.train, start + Min(size, sepTest), start + Min(size, sepTest + sep))
      && (if train + test < 1.0 then IsSlice(images, d.val, start + Min(size, sepTest + sep), start + size)
          else d.val == [])
  }

  lemma SliceIs<T>(s: seq<T>, lo: nat, hi: nat)
    requires lo <= hi
    ensures IsSlice(s, Slice(s, lo, hi), lo, hi)
  {
  }

  lemma SliceOfSlice<T>(s: seq<T>, start: nat, size: nat, chunk: seq<T>, lo: nat, hi: nat, part: seq<T>)
    requires IsSlice(s, chunk, start, start + size) && lo <= hi && IsSlice(chunk, part, lo, hi)
    ensures IsSlice(s, part, start + Min(size, lo), start + Min(size, hi))
  {
  }

  lemma RestOfSlice<T>(s: seq<T>, start: nat, size: nat, chunk: seq<T>, lo: nat, part: seq<T>)
    requires IsSlice(s, chunk, start, start + size) && IsSlice(chunk, part, lo, lo + |chunk|)
    ensures IsSlice(s, part, start + Min(size, lo), start + size)
  {
  }

  /** The three slices of a chunk, in terms of the whole list. */
  lemma PartsAre<T>(images: seq<T>, size: nat, start: nat, sep: nat, sepTest: nat, chunk: seq<T>)
    requires chunk == Slice(images, start, start + size)
    ensures IsSlice(images, chunk, start, start + size)
    ensures IsSlice(images, Slice(chunk, 0, sepTest), start, start + Min(size, sepTest))
    ensures IsSlice(images, Slice(chunk, sepTest, sepTest + sep),
                    start + Min(size, sepTest), start + Min(size, sepTest + sep))
    ensures IsSlice(images, Slice(chunk, sepTest + sep, sepTest + sep + |chunk|),
                    start + Min(size, sepTest + sep), start + size)
  {
    SliceIs(images, start, start + size);
    FrontIs(images, size, start, sepTest, chunk);
    MiddleIs(images, size, start, sep, sepTest, chunk);
    RestIs(images, size, start, sepTest + sep, chunk);
  }

  lemma FrontIs<T>(images: seq<T>, size: nat, start: nat, sepTest: nat, chunk: seq<T>)
    requires IsSlice(images, chunk, start, start + size)
    ensures IsSlice(images, Slice(chunk, 0, sepTest), start, start + Min(size, sepTest))
  {
    SliceIs(chunk, 0, sepTest);
    SliceOfSlice(images, start, size, chunk, 0, sepTest, Slice(chunk, 0, sepTest));
  }

  lemma MiddleIs<T>(images: seq<T>, size: nat, start: nat, sep: nat, sepTest: nat, chunk: seq<T>)
    requires IsSlice(images, chunk, start, start + size)
    ensures IsSlice(images, Slice(chunk, sepTest, sepTest + sep),
                    start + Min(size, sepTest), start + Min(size, sepTest + sep))
  {
    SliceIs(chunk, sepTest, sepTest + sep);
    SliceOfSlice(images, start, size, chunk, sepTest, sepTest + sep, Slice(chunk, sepTest, sepTest + sep));
  }

  lemma RestIs<T>(images: seq<T>, size: nat, start: nat, from: nat, chunk: seq<T>)
    requires IsSlice(images, chunk, start, start + size)
    ensures IsSlice(images, Slice(chunk, from, from + |chunk|), start + Min(size, from), start + size)
  {
    SliceIs(chunk, from, from + |chunk|);
    RestOfSlice(images, start, size, chunk, from, Slice(chunk, from, from + |chunk|));
  }

  lemma DivideAtIs<T>(images: seq<T>, size: nat, start: nat, sep: nat, sepTest: nat, train: real, test: real)
    ensures DividedFrom(images, size, start, sep, sepTest, train, test,
                        DivideAt(Slice(images, start, start + size), sep, sepTest, train, test))
  {
    PartsAre(images, size, start, sep, sepTest, Slice(images, start, start + size));
  }

  lemma ChunkIs<T>(images: seq<T>, size: nat, i: nat, start: nat)
    requires start == i * size
    ensures ChunkAt(images, size, i) == Slice(images, start, start + size)
  {
  }

  lemma {:induction false} FileAt<T>(images: seq<T>, size: nat, train: real, test: real, n: nat, i: nat)
    requires train >= 0.0 && test >= 0.0 && i < n
    ensures Files(images, size, train, test, n)[i] == Divide(ChunkAt(images, size, i), size, train, test)
    decreases n
  {
    if i < n - 1 {
      FileAt(images, size, train, test, n - 1, i);
    }
  }

  lemma DivideIs<T>(chunk: seq<T>, size: nat, train: real, test: real, sep: nat, sepTest: nat)
    requires train >= 0.0 && test >= 0.0 && sep == Share(size, train) && sepTest == Share(size, test)
    ensures Divide(chunk, size, train, test) == DivideAt(chunk, sep, sepTest, train, test)
  {
  }

  /** Which images list file number i holds, `start` being the number of the first image of its chunk. */
  lemma FileIs<T>(images: seq<T>, size: nat, train: real, test: real, n: nat, i: nat, start: nat,
                   sep: nat, sepTest: nat)
    requires train >= 0.0 && test >= 0.0 && i < n && start == i * size
    requires sep == Share(size, train) && sepTest == Share(size, test)
    ensures DividedFrom(images, size, start, sep, sepTest, train, test, Files(images, size, train, test, n)[i])
  {
    FileAt(images, size, train, test, n, i);
    ChunkIs(images, size, i, start);
    DivideIs(ChunkAt(images, size, i), size, train, test, sep, sepTest);
    DivideAtIs(images, size, start, sep, sepTest, train, test);
  }

  /** List file by list file, which images they hold. */
  ghost predicate AllDivided<T>(images: seq<T>, size: nat, sep: nat, sepTest: nat, train: real, test: real,
                                files: seq<Lists<T>>)
  {
    forall i: nat, start: nat :: i < |files| && start == i * size ==>
      DividedFrom(images, size, start, sep, sepTest, train, test, files[i])
  }

  lemma FilesAre<T>(images: seq<T>, size: nat, train: real, test: real, n: nat, sep: nat, sepTest: nat)
    requires train >= 0.0 && test >= 0.0 && sep == Share(size, train) && sepTest == Share(size, test)
    ensures AllDivided(images, size, sep, sepTest, train, test, Files(images, size, train, test, n))
  {
    forall i: nat, start: nat | i < n && start == i * size
      ensures DividedFrom(images, size, start, sep, sepTest, train, test, Files(images, size, train, test, n)[i])
    {
      FileIs(images, size, train, test, n, i, start, sep, sepTest);
    }
  }

  /** The files together hold every image once, in order, exactly when the shares fill or the rest is kept. */
  method Make<T>(images: seq<T>, chunks: nat, train: real, test: real) returns (files: seq<Lists<T>>)
    requires chunks >= 1 && train >= 0.0 && test >= 0.0
    ensures files == Files(images, ChunkSize(|images|, chunks), train, test, chunks)
    ensures var size := ChunkSize(|images|, chunks);
            AllDivided(images, size, Share(size, train), Share(size, test), train, test, files)
    ensures Written(files) == images <==> SharesFill(|images|, chunks, train, test)
  {
    var size := ChunkSize(|images|, chunks);
    files := [];
    for i := 0 to chunks
      invariant files == Files(images, size, train, test, i)
    {
      files := files + [Divide(ChunkAt(images, size, i), size, train, test)];
    }
    AllChunks(images, chunks, train, test);
    FilesAre(images, size, train, test, chunks, Share(size, train), Share(size, test));
  }

  /** Halves of a chunk of five leave one image in no file, although the ratios add up to 1. */
  lemma HalvesLoseAnImage<T>(images: seq<T>)
    requires |images| == 5
    ensures Written(Files(images, ChunkSize(5, 1), 0.5, 0.5, 1)) == images[..4]
  {
    assert 5 as real * 0.5 == 2.5 && Share(5, 0.5) == 2;
    WrittenNext(images, 5, 0.5, 0.5, 0);
    DivideKeeps(ChunkAt(images, 5, 0), 5, 0.5, 0.5);
  }
}
