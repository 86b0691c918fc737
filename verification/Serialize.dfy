/** Byte codec of plugins: serialize.hpp, plugin.hpp, plugin.cpp and PluginFactory.cpp under 3rdparty/onnx-tensorrt. */
module Serialize {
  import opened Arithmetic
  import opened Sequences
  import opened Wrappers

  type byte = x: int | 0 <= x < 256 witness 0

  /** A plain value as its bytes, a C string without its terminator, or a vector of plain values. */
  datatype Field = Pod(bytes: seq<byte>) | CStr(chars: seq<byte>) | Vec(width: nat, elems: seq<seq<byte>>)

  /** The static type that tells the reader what to expect. */
  datatype Kind = PodKind(size: nat) | StrKind | VecKind(width: nat)

  const SIZE_BYTES: nat := 8

  predicate NulFree(s: seq<byte>) { 0 !in s }

  ghost predicate Valid(f: Field) {
    match f
    case Pod(_) => true
    case CStr(chars) => NulFree(chars)
    case Vec(width, elems) => width > 0 && |elems| < Pow256(SIZE_BYTES) && forall e :: e in elems ==> |e| == width
  }

  function KindOf(f: Field): Kind {
    match f
    case Pod(bytes) => PodKind(|bytes|)
    case CStr(_) => StrKind
    case Vec(width, _) => VecKind(width)
  }

  ghost predicate ValidKind(k: Kind) { k.VecKind? ==> k.width > 0 }

  // ---------- Sizes as little-endian words ----------

  function Pow256(k: nat): nat { if k == 0 then 1 else 256 * Pow256(k - 1) }

  function ToBytes(n: nat, k: nat): (s: seq<byte>)
    ensures |s| == k
  {
    if k == 0 then [] else [n % 256] + ToBytes(n / 256, k - 1)
  }

  function FromBytes(s: seq<byte>): nat {
    if s == [] then 0 else s[0] + 256 * FromBytes(s[1..])
  }

  lemma {:induction false} WordRoundTrip(n: nat, k: nat)
    requires n < Pow256(k)
    ensures FromBytes(ToBytes(n, k)) == n
  {
    if k > 0 {
      WordRoundTrip(n / 256, k - 1);
      assert ToBytes(n, k)[1..] == ToBytes(n / 256, k - 1);
    }
  }

  lemma LowByte(b: byte, m: nat)
    ensures (b + 256 * m) % 256 == b && (b + 256 * m) / 256 == m
  {
  }

  lemma {:induction false} WordIsUnique(s: seq<byte>)
    ensures FromBytes(s) < Pow256(|s|) && ToBytes(FromBytes(s), |s|) == s
  {
    if s != [] {
      WordIsUnique(s[1..]);
      LowByte(s[0], FromBytes(s[1..]));
      assert ToBytes(FromBytes(s), |s|) == [s[0]] + ToBytes(FromBytes(s[1..]), |s| - 1);
      assert s == [s[0]] + s[1..];
    }
  }

  // ---------- Vectors ----------

  function Join(elems: seq<seq<byte>>): seq<byte> {
    if elems == [] then [] else elems[0] + Join(elems[1..])
  }

  function Cut(data: seq<byte>, width: nat, count: nat): (elems: seq<seq<byte>>)
    requires |data| == count * width
    ensures |elems| == count
    decreases count
  {
    if count == 0 then []
    else
      assert |data| - width == (count - 1) * width;
      [data[..width]] + Cut(data[width..], width, count - 1)
  }

  lemma OneMore(n: nat, width: nat)
    ensures (n + 1) * width == n * width + width
  {
  }

  lemma {:induction false} JoinLength(elems: seq<seq<byte>>, width: nat)
    requires forall e :: e in elems ==> |e| == width
    ensures |Join(elems)| == |elems| * width
  {
    if elems != [] {
      JoinLength(elems[1..], width);
      OneMore(|elems| - 1, width);
    }
  }

  lemma {:induction false} CutJoin(elems: seq<seq<byte>>, width: nat)
    requires forall e :: e in elems ==> |e| == width
    ensures |Join(elems)| == |elems| * width && Cut(Join(elems), width, |elems|) == elems
  {
    JoinLength(elems, width);
    if elems != [] {
      CutJoin(elems[1..], width);
      assert Join(elems)[..width] == elems[0] && Join(elems)[width..] == Join(elems[1..]);
    }
  }

  lemma {:induction false} JoinCut(data: seq<byte>, width: nat, count: nat)
    requires |data| == count * width
    ensures Join(Cut(data, width, count)) == data && forall e :: e in Cut(data, width, count) ==> |e| == width
    decreases count
  {
    if count > 0 {
      assert |data| - width == (count - 1) * width;
      JoinCut(data[width..], width, count - 1);
      assert Cut(data, width, count)[1..] == Cut(data[width..], width, count - 1);
      assert data == data[..width] + data[width..];
    }
  }

  // ---------- Fields ----------

  function Encode(f: Field): seq<byte> {
    match f
    case Pod(bytes) => bytes
    case CStr(chars) => chars + [0]
    case Vec(_, elems) => ToBytes(|elems|, SIZE_BYTES) + Join(elems)
  }

  /** serialized_size */
  function SizeOf(f: Field): nat {
    match f
    case Pod(bytes) => |bytes|
    case CStr(chars) => |chars| + 1
    case Vec(width, elems) => SIZE_BYTES + |elems| * width
  }

  /** Bytes before the first NUL, or all. */
  function StringLength(s: seq<byte>): (n: nat)
    ensures n <= |s| && NulFree(s[..n]) && (n < |s| ==> s[n] == 0)
  {
    if s == [] || s[0] == 0 then 0
    else
      var n := 1 + StringLength(s[1..]);
      assert s[..n] == [s[0]] + s[1..][..n - 1];
      n
  }

  /** A field of the kind at the front of the bytes, and the rest; None where the original asserts. */
  function Decode(k: Kind, s: seq<byte>): Option<(Field, seq<byte>)> {
    match k
    case PodKind(size) =>
      if |s| < size then None else Some((Pod(s[..size]), s[size..]))
    case StrKind =>
      var n := StringLength(s);
      if |s| < n + 1 then None else Some((CStr(s[..n]), s[n + 1..]))
    case VecKind(width) =>
      if |s| < SIZE_BYTES then None
      else
        var count, rest := FromBytes(s[..SIZE_BYTES]), s[SIZE_BYTES..];
        if |rest| < count * width then None
        else Some((Vec(width, Cut(rest[..count * width], width, count)), rest[count * width..]))
  }

  lemma SizeIsRight(f: Field)
    requires Valid(f)
    ensures |Encode(f)| == SizeOf(f)
  {
    if f.Vec? {
      JoinLength(f.elems, f.width);
    }
  }

  lemma StringLengthIs(chars: seq<byte>, rest: seq<byte>)
    requires NulFree(chars)
    ensures StringLength(chars + [0] + rest) == |chars|
  {
    var s := chars + [0] + rest;
    var n := StringLength(s);
    assert s[..|chars|] == chars && s[|chars|] == 0;
    assert forall k :: 0 <= k < n ==> s[..n][k] == s[k];
  }

  lemma SplitAt(a: seq<byte>, b: seq<byte>, n: nat)
    requires n == |a|
    ensures (a + b)[..n] == a && (a + b)[n..] == b
  {
  }

  lemma VecDecodeEncode(width: nat, elems: seq<seq<byte>>, rest: seq<byte>)
    requires Valid(Vec(width, elems))
    ensures Decode(VecKind(width), Encode(Vec(width, elems)) + rest) == Some((Vec(width, elems), rest))
  {
    var size, data := ToBytes(|elems|, SIZE_BYTES), Join(elems);
    WordRoundTrip(|elems|, SIZE_BYTES);
    CutJoin(elems, width);
    assert size + data + rest == size + (data + rest);
    SplitAt(size, data + rest, SIZE_BYTES);
    SplitAt(data, rest, |elems| * width);
  }

  /** What was written is read back, and nothing after it is touched. */
  lemma DecodeEncode(f: Field, rest: seq<byte>)
    requires Valid(f)
    ensures Decode(KindOf(f), Encode(f) + rest) == Some((f, rest))
  {
    match f
    case Pod(bytes) =>
      SplitAt(bytes, rest, |bytes|);
    case CStr(chars) =>
      StringLengthIs(chars, rest);
      SplitAt(chars + [0], rest, |chars| + 1);
      assert (chars + [0] + rest)[..|chars|] == chars;
    case Vec(width, elems) =>
      VecDecodeEncode(width, elems, rest);
  }

  lemma Rejoin(s: seq<byte>, m: nat, n: nat)
    requires m + n <= |s|
    ensures s == s[..m] + s[m..][..n] + s[m..][n..]
  {
  }

  lemma VecDecoded(width: nat, s: seq<byte>, count: nat, n: nat)
    requires |s| >= SIZE_BYTES + n && count == FromBytes(s[..SIZE_BYTES]) && n == count * width
    ensures Decode(VecKind(width), s) ==
              Some((Vec(width, Cut(s[SIZE_BYTES..][..n], width, count)), s[SIZE_BYTES..][n..]))
  {
  }

  lemma VecRebuilt(width: nat, s: seq<byte>, elems: seq<seq<byte>>, n: nat)
    requires |s| >= SIZE_BYTES + n
    requires Join(elems) == s[SIZE_BYTES..][..n] && ToBytes(|elems|, SIZE_BYTES) == s[..SIZE_BYTES]
    ensures s == Encode(Vec(width, elems)) + s[SIZE_BYTES..][n..]
  {
    Rejoin(s, SIZE_BYTES, n);
  }

  lemma VecEncodeDecode(width: nat, s: seq<byte>)
    requires width > 0 && Decode(VecKind(width), s).Some?
    ensures var (f, rest) := Decode(VecKind(width), s).value;
            Valid(f) && KindOf(f) == VecKind(width) && s == Encode(f) + rest
  {
    var count := FromBytes(s[..SIZE_BYTES]);
    var n := count * width;
    var data := s[SIZE_BYTES..][..n];
    var elems := Cut(data, width, count);
    WordIsUnique(s[..SIZE_BYTES]);
    JoinCut(data, width, count);
    VecDecoded(width, s, count, n);
    VecRebuilt(width, s, elems, n);
  }

  /** Whatever is read back was written: decoding accepts nothing but encodings. */
  lemma EncodeDecode(k: Kind, s: seq<byte>)
    requires ValidKind(k) && Decode(k, s).Some?
    ensures var (f, rest) := Decode(k, s).value;
            Valid(f) && KindOf(f) == k && s == Encode(f) + rest
  {
    match k
    case PodKind(size) =>
      assert s == s[..size] + s[size..];
    case StrKind =>
      var n := StringLength(s);
      assert s == s[..n] + [0] + s[n + 1..];
    case VecKind(width) =>
      VecEncodeDecode(width, s);
  }

  // ---------- The bytes themselves ----------

  lemma Quotients(n: nat, p: nat)
    requires p > 0
    ensures n / 256 / p == n / (256 * p)
  {
    var q := n / 256 / p;
    assert q * p <= n / 256 < (q + 1) * p;
    assert q * (256 * p) <= n < (q + 1) * (256 * p);
    QuotientIs(n, 256 * p, q);
  }

  lemma QuotientIs(n: nat, d: nat, q: nat)
    requires d > 0 && q * d <= n < (q + 1) * d
    ensures n / d == q
  {
    HornerUnique(n / d, n % d, q, n - q * d, d);
  }

  lemma {:induction false} PowPositive(k: nat)
    ensures Pow256(k) > 0
  {
    if k > 0 {
      PowPositive(k - 1);
    }
  }

  /** Byte j of a little-endian word. */
  lemma {:induction false} ToBytesAt(n: nat, k: nat, j: nat)
    requires j < k
    ensures Pow256(j) > 0 && ToBytes(n, k)[j] == n / Pow256(j) % 256
    decreases j
  {
    PowPositive(j);
    if j > 0 {
      ToBytesAt(n / 256, k - 1, j - 1);
      Quotients(n, Pow256(j - 1));
    }
  }

  lemma PowersOf256()
    ensures Pow256(0) == 1 && Pow256(1) == 0x100 && Pow256(4) == 0x1_0000_0000 && Pow256(8) == 0x1_0000_0000_0000_0000
  {
    assert Pow256(2) == 0x1_0000 && Pow256(3) == 0x100_0000;
    assert Pow256(5) == 0x100_0000_0000 && Pow256(6) == 0x1_0000_0000_0000 && Pow256(7) == 0x100_0000_0000_0000;
  }

  lemma {:induction false} JoinAt(elems: seq<seq<byte>>, width: nat, i: nat, j: nat)
    requires (forall e :: e in elems ==> |e| == width) && i < |elems| && j < width
    ensures i * width + j < |Join(elems)| && Join(elems)[i * width + j] == elems[i][j]
    decreases i
  {
    assert elems[0] in elems;
    if i > 0 {
      JoinAt(elems[1..], width, i - 1, j);
      OneMore(i - 1, width);
      JoinLater(elems, width, (i - 1) * width + j, i * width + j);
    }
  }

  lemma JoinLater(elems: seq<seq<byte>>, width: nat, p: nat, q: nat)
    requires elems != [] && |elems[0]| == width && q == width + p && p < |Join(elems[1..])|
    ensures q < |Join(elems)| && Join(elems)[q] == Join(elems[1..])[p]
  {
  }

  /** The bytes of a field, one by one: a plain value as it lies in memory; a string and a zero; the number of
      elements as eight bytes, the lowest first, and then the elements. */
  lemma EncodeBytes(f: Field)
    requires Valid(f)
    ensures f.Pod? ==> Encode(f) == f.bytes
    ensures f.CStr? ==> |Encode(f)| == |f.chars| + 1 && Encode(f)[|f.chars|] == 0 && Encode(f)[..|f.chars|] == f.chars
    ensures f.Vec? ==> |Encode(f)| >= 8 && forall j: nat :: j < 8 ==>
              Pow256(j) > 0 && Encode(f)[j] == |f.elems| / Pow256(j) % 256
    ensures f.Vec? ==> |Encode(f)| >= 8 && forall i: nat, j: nat :: i < |f.elems| && j < f.width ==>
              ByteAt(Encode(f)[8..], f.width, i, j) == f.elems[i][j]
  {
    if f.Vec? {
      assert Encode(f)[8..] == Join(f.elems);
      forall j: nat | j < 8 ensures Pow256(j) > 0 && Encode(f)[j] == |f.elems| / Pow256(j) % 256 {
        ToBytesAt(|f.elems|, SIZE_BYTES, j);
      }
      forall i: nat, j: nat | i < |f.elems| && j < f.width
        ensures ByteAt(Encode(f)[8..], f.width, i, j) == f.elems[i][j]
      {
        assert f.elems[i] in f.elems;
        JoinAt(f.elems, f.width, i, j);
      }
    }
  }

  /** Byte j of element i of width bytes; -1 past the end. */
  ghost function ByteAt(data: seq<byte>, width: nat, i: nat, j: nat): int {
    if i * width + j < |data| then data[i * width + j] else -1
  }

  // ---------- Sequences of fields ----------

  ghost function EncodeAll(fields: seq<Field>): seq<byte> {
    if fields == [] then [] else Encode(fields[0]) + EncodeAll(fields[1..])
  }

  ghost function SizeOfAll(fields: seq<Field>): nat {
    if fields == [] then 0 else SizeOf(fields[0]) + SizeOfAll(fields[1..])
  }

  ghost function Kinds(fields: seq<Field>): seq<Kind> {
    seq(|fields|, k requires 0 <= k < |fields| => KindOf(fields[k]))
  }

  ghost predicate AllValid(fields: seq<Field>) { forall f :: f in fields ==> Valid(f) }

  ghost function DecodeAll(kinds: seq<Kind>, s: seq<byte>): Option<(seq<Field>, seq<byte>)> {
    if kinds == [] then Some(([], s))
    else match Decode(kinds[0], s)
      case None => None
      case Some((f, rest)) =>
        match DecodeAll(kinds[1..], rest)
        case None => None
        case Some((fields, left)) => Some(([f] + fields, left))
  }

  /** The declared size of a sequence of fields is the number of bytes written. */
  lemma {:induction false} SizesAreRight(fields: seq<Field>)
    requires AllValid(fields)
    ensures |EncodeAll(fields)| == SizeOfAll(fields)
  {
    if fields != [] {
      SizeIsRight(fields[0]);
      SizesAreRight(fields[1..]);
    }
  }

  lemma KindsTail(fields: seq<Field>)
    requires fields != []
    ensures Kinds(fields)[1..] == Kinds(fields[1..]) && Kinds(fields)[0] == KindOf(fields[0])
  {
  }

  lemma EncodeFirst(fields: seq<Field>, rest: seq<byte>)
    requires fields != []
    ensures EncodeAll(fields) + rest == Encode(fields[0]) + (EncodeAll(fields[1..]) + rest)
  {
  }

  lemma DecodeFirst(kinds: seq<Kind>, s: seq<byte>, f: Field, rest: seq<byte>, fields: seq<Field>, left: seq<byte>)
    requires kinds != [] && Decode(kinds[0], s) == Some((f, rest))
    requires DecodeAll(kinds[1..], rest) == Some((fields, left))
    ensures DecodeAll(kinds, s) == Some(([f] + fields, left))
  {
  }

  /** Decoding with the kinds of the fields recovers every field and leaves what followed them. */
  lemma {:induction false} DecodeAllEncodeAll(fields: seq<Field>, rest: seq<byte>)
    requires AllValid(fields)
    ensures DecodeAll(Kinds(fields), EncodeAll(fields) + rest) == Some((fields, rest))
  {
    if fields == [] {
      assert EncodeAll(fields) + rest == rest;
    } else {
      var f, more := fields[0], fields[1..];
      var tail := EncodeAll(more) + rest;
      DecodeAllEncodeAll(more, rest);
      DecodeEncode(f, tail);
      EncodeFirst(fields, rest);
      KindsTail(fields);
      DecodeFirst(Kinds(fields), Encode(f) + tail, f, tail, more, rest);
      assert [f] + more == fields;
    }
  }

  lemma FieldInFront(f: Field, fields: seq<Field>, kinds: seq<Kind>)
    requires kinds != [] && KindOf(f) == kinds[0] && Kinds(fields) == kinds[1..] && Valid(f) && AllValid(fields)
    ensures Kinds([f] + fields) == kinds && AllValid([f] + fields)
    ensures EncodeAll([f] + fields) == Encode(f) + EncodeAll(fields)
  {
    assert ([f] + fields)[1..] == fields;
    assert kinds == [kinds[0]] + kinds[1..];
  }

  lemma DecodeParts(kinds: seq<Kind>, s: seq<byte>)
    returns (f: Field, rest: seq<byte>, fields: seq<Field>, left: seq<byte>)
    requires kinds != [] && DecodeAll(kinds, s).Some?
    ensures Decode(kinds[0], s) == Some((f, rest)) && DecodeAll(kinds[1..], rest) == Some((fields, left))
    ensures DecodeAll(kinds, s) == Some(([f] + fields, left))
  {
    f, rest := Decode(kinds[0], s).value.0, Decode(kinds[0], s).value.1;
    fields, left := DecodeAll(kinds[1..], rest).value.0, DecodeAll(kinds[1..], rest).value.1;
  }

  /** And what decodes is an encoding of the decoded fields followed by what is left. */
  lemma {:induction false} EncodeAllDecodeAll(kinds: seq<Kind>, s: seq<byte>)
    requires (forall k :: k in kinds ==> ValidKind(k)) && DecodeAll(kinds, s).Some?
    ensures var (fields, left) := DecodeAll(kinds, s).value;
            AllValid(fields) && Kinds(fields) == kinds && s == EncodeAll(fields) + left
  {
    if kinds != [] {
      var f, rest, fields, left := DecodeParts(kinds, s);
      EncodeDecode(kinds[0], s);
      EncodeAllDecodeAll(kinds[1..], rest);
      FieldInFront(f, fields, kinds);
      Reassociate(Encode(f), EncodeAll(fields), left);
    }
  }
}
