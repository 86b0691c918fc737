/** Cutting one element out of a printed list by searching for separators: getShapeAt and getDtypeAt in
    include/mxnet/lib_api.h. */
module JsonSlices {
  import opened Wrappers
  import opened Arithmetic
  import opened Json

  /** Index of the first c at or after `from`, or -1; a negative start is a huge unsigned one. */
  function Find(s: string, c: char, from: int): (j: int)
    ensures j == -1 || (0 <= from <= j < |s| && s[j] == c)
    decreases |s| - from
  {
    if from < 0 || from >= |s| then -1 else if s[from] == c then from else Find(s, c, from + 1)
  }

  /** substr: throws when the start is past the end; a negative length is a huge unsigned one. */
  function Substr(s: string, pos: int, len: int): Option<string> {
    if pos < 0 || pos > |s| then None
    else if len < 0 || pos + len > |s| then Some(s[pos..])
    else Some(s[pos..pos + len])
  }

  /** One search after another, each starting after the last hit. */
  function FindRepeated(s: string, c: char, from: int, times: nat): int {
    if times == 0 then from else Find(s, c, FindRepeated(s, c, from, times - 1) + 1)
  }

  /** Where the cut of getDtypeAt ends: at the next comma, or at the bracket when there is none. */
  function StopAt(json: string, idx: int): int {
    var comma := Find(json, ',', idx + 1);
    if comma == -1 then Find(json, ']', idx + 1) else comma
  }

  /** The cuts, as functions of the text. */
  ghost function DtypeSlice(dtype: string, index: nat): Option<string> {
    var idx := FindRepeated(dtype, ',', 0, index);
    Substr(dtype, idx + 1, StopAt(dtype, idx) - idx - 1)
  }

  ghost function ShapeSlice(shape: string, index: nat): Option<string> {
    var idx := FindRepeated(shape, '[', 1, index);
    Substr(shape, idx, Find(shape, ']', idx) - idx + 1)
  }

  // ---------- Where the elements stand ----------

  /** All parts stand in the text, closed by a bracket that ends it. */
  ghost predicate Laid(json: string, parts: seq<string>) {
    && (forall k: nat :: k < |parts| ==> PartAt(json, parts, k, 1 + Offset(parts, k), ']'))
    && (parts != [] ==> Offset(parts, |parts|) + 1 == |json|)
  }

  lemma WholeStands(json: string, body: string)
    requires json == "[" + body + "]"
    ensures At(json, 1, body + "]") && |json| == |body| + 2
  {
    BracketLayout(json, 0, '[', body, ']');
  }

  lemma JoinIsLaid(json: string, parts: seq<string>)
    requires At(json, 1, Join(parts) + "]") && |json| == |Join(parts)| + 2
    ensures Laid(json, parts)
  {
    forall k: nat | k < |parts| ensures PartAt(json, parts, k, 1 + Offset(parts, k), ']') {
      PartStands(json, 1, parts, "]", k);
    }
    if parts != [] {
      LastPartEnds(json, 1, parts, "]");
    }
  }

  lemma DumpIsLaid(items: seq<JsonVal>)
    ensures Laid(Dump(List(items)), DumpAll(items))
  {
    WholeStands(Dump(List(items)), Join(DumpAll(items)));
    JoinIsLaid(Dump(List(items)), DumpAll(items));
  }

  // ---------- What the elements are made of ----------

  ghost predicate Without(s: string, c: char) { forall k :: 0 <= k < |s| ==> s[k] != c }

  ghost predicate IsIntList(v: JsonVal) {
    v.List? && WellFormed(v) && forall x :: x in v.items ==> x.Num?
  }

  lemma IntWithout(v: JsonVal, c: char)
    requires v.Num? && WellFormed(v) && !IsDigit(c)
    ensures Without(Dump(v), c)
  {
  }

  lemma {:induction false} MoreWithout(parts: seq<string>, c: char)
    requires (forall k :: 0 <= k < |parts| ==> Without(parts[k], c)) && c != ','
    ensures Without(JoinMore(parts), c)
  {
    if parts != [] {
      assert Without(parts[0], c);
      MoreWithout(parts[1..], c);
    }
  }

  lemma JoinWithout(parts: seq<string>, c: char)
    requires (forall k :: 0 <= k < |parts| ==> Without(parts[k], c)) && c != ','
    ensures Without(Join(parts), c)
  {
    if parts != [] {
      assert Without(parts[0], c);
      MoreWithout(parts[1..], c);
    }
  }

  lemma IntsWithout(items: seq<JsonVal>, c: char)
    requires (forall x :: x in items ==> x.Num? && WellFormed(x)) && !IsDigit(c) && c != ','
    ensures Without(Join(DumpAll(items)), c)
  {
    forall k | 0 <= k < |items| ensures Without(DumpAll(items)[k], c) {
      assert items[k] in items;
      IntWithout(items[k], c);
    }
    JoinWithout(DumpAll(items), c);
  }

  lemma {:induction false} FindIs(s: string, c: char, from: nat, j: nat)
    requires from <= j < |s| && s[j] == c && forall k :: from <= k < j ==> s[k] != c
    ensures Find(s, c, from) == j
    decreases j - from
  {
    if from < j {
      FindIs(s, c, from + 1, j);
    }
  }

  lemma {:induction false} FindNothing(s: string, c: char, from: nat)
    requires from <= |s| && forall k :: from <= k < |s| ==> s[k] != c
    ensures Find(s, c, from) == -1
    decreases |s| - from
  {
    if from < |s| {
      FindNothing(s, c, from + 1);
    }
  }

  lemma AtIndex(json: string, p: nat, s: string, k: nat)
    requires At(json, p, s) && k < |s|
    ensures json[p + k] == s[k]
  {
    assert s[k] == json[p + k];
  }

  /** A search that starts at s and does not hit inside it ends right after it. */
  lemma FindAfter(json: string, p: nat, s: string, c: char)
    requires At(json, p, s) && Without(s, c) && p + |s| < |json| && json[p + |s|] == c
    ensures Find(json, c, p) == p + |s|
  {
    forall m | p <= m < p + |s| ensures json[m] != c {
      AtIndex(json, p, s, m - p);
    }
    FindIs(json, c, p, p + |s|);
  }

  lemma FindNothingAfter(json: string, p: nat, s: string, c: char)
    requires At(json, p, s) && Without(s, c) && p + |s| + 1 == |json| && json[p + |s|] != c
    ensures Find(json, c, p) == -1
  {
    forall m | p <= m < p + |s| ensures json[m] != c {
      AtIndex(json, p, s, m - p);
    }
    FindNothing(json, c, p);
  }

  // ---------- getDtypeAt ----------

  lemma StopAfter(json: string, p: nat, s: string, idx: int)
    requires At(json, p, s) && Without(s, ',') && Without(s, ']') && p + |s| < |json| && idx == p - 1
    requires json[p + |s|] == ',' || (json[p + |s|] == ']' && p + |s| + 1 == |json|)
    ensures StopAt(json, idx) == p + |s|
  {
    if json[p + |s|] == ',' {
      FindAfter(json, p, s, ',');
    } else {
      FindNothingAfter(json, p, s, ',');
      FindAfter(json, p, s, ']');
    }
  }

  /** The texts of an int list hold neither commas nor brackets. */
  ghost predicate Plain(parts: seq<string>) {
    forall k :: 0 <= k < |parts| ==> Without(parts[k], ',') && Without(parts[k], ']')
  }

  lemma IntsArePlain(items: seq<JsonVal>)
    requires IsIntList(List(items))
    ensures Plain(DumpAll(items))
  {
    forall k | 0 <= k < |items| ensures Without(DumpAll(items)[k], ',') && Without(DumpAll(items)[k], ']') {
      assert items[k] in items;
      IntWithout(items[k], ',');
      IntWithout(items[k], ']');
    }
  }

  lemma SubstrIs(json: string, p: nat, s: string)
    requires At(json, p, s)
    ensures Substr(json, p, |s|) == Some(s)
  {
    AtSlice(json, p, s);
  }

  lemma FirstWithBracket(json: string, parts: seq<string>)
    requires Laid(json, parts) && Plain(parts) && parts != [] && json != [] && json[0] == '['
    ensures StopAt(json, -1) == 1 + |parts[0]| && Substr(json, 0, 1 + |parts[0]|) == Some("[" + parts[0])
  {
    var s := "[" + parts[0];
    assert PartAt(json, parts, 0, 1 + Offset(parts, 0), ']') && Offset(parts, 0) == 0;
    AtConcat(json, 0, "[", parts[0]);
    AtChar(json, 0, '[');
    StopAfter(json, 0, s, -1);
    SubstrIs(json, 0, s);
  }

  lemma CutPart(json: string, p: nat, s: string)
    requires At(json, p, s) && Without(s, ',') && Without(s, ']') && p + |s| < |json|
    requires json[p + |s|] == ',' || (json[p + |s|] == ']' && p + |s| + 1 == |json|)
    ensures Substr(json, p, StopAt(json, p - 1) - p) == Some(s)
  {
    StopAfter(json, p, s, p - 1);
    SubstrIs(json, p, s);
  }

  lemma PartOf(json: string, parts: seq<string>, r: nat, p: nat)
    requires Laid(json, parts) && r < |parts| && p == 1 + Offset(parts, r)
    ensures PartAt(json, parts, r, p, ']') && (r + 1 == |parts| ==> p + |parts[r]| + 1 == |json|)
  {
    assert PartAt(json, parts, r, 1 + Offset(parts, r), ']');
  }

  lemma DtypeCutAt(json: string, parts: seq<string>, r: nat, idx: nat)
    requires Laid(json, parts) && Plain(parts) && r < |parts| && idx == Offset(parts, r)
    ensures Substr(json, idx + 1, StopAt(json, idx) - idx - 1) == Some(parts[r])
  {
    PartOf(json, parts, r, idx + 1);
    CutPart(json, idx + 1, parts[r]);
  }

  /** Where k searches for a comma end up, r being k modulo the number of parts: past the last element the search
      misses, and then starts over. */
  ghost function CommaAfter(parts: seq<string>, k: nat, r: nat): int
    requires r < |parts|
  {
    if k > 0 && r == 0 then -1 else Offset(parts, r)
  }

  lemma FirstComma(json: string, parts: seq<string>)
    requires Laid(json, parts) && Plain(parts) && parts != [] && json != [] && json[0] == '['
    ensures Find(json, ',', 0) == if |parts| == 1 then -1 else Offset(parts, 1)
  {
    var s := "[" + parts[0];
    assert PartAt(json, parts, 0, 1 + Offset(parts, 0), ']') && Offset(parts, 0) == 0;
    AtConcat(json, 0, "[", parts[0]);
    AtChar(json, 0, '[');
    assert Offset(parts, 1) == |s|;
    if |parts| == 1 {
      FindNothingAfter(json, 0, s, ',');
    } else {
      FindAfter(json, 0, s, ',');
    }
  }

  lemma NextComma(json: string, parts: seq<string>, r: nat)
    requires Laid(json, parts) && Plain(parts) && r < |parts|
    ensures Find(json, ',', Offset(parts, r) + 1) == if r + 1 == |parts| then -1 else Offset(parts, r + 1)
  {
    var p := 1 + Offset(parts, r);
    assert PartAt(json, parts, r, p, ']');
    if r + 1 == |parts| {
      FindNothingAfter(json, p, parts[r], ',');
    } else {
      FindAfter(json, p, parts[r], ',');
    }
  }

  lemma CommaTurn(json: string, parts: seq<string>, k: nat, r: nat)
    requires Laid(json, parts) && Plain(parts) && parts != [] && json != [] && json[0] == '[' && r < |parts|
    requires k == 0 ==> r == 0
    ensures var next := if r == |parts| - 1 then 0 else r + 1;
            Find(json, ',', CommaAfter(parts, k, r) + 1) == CommaAfter(parts, k + 1, next)
  {
    FirstComma(json, parts);
    NextComma(json, parts, r);
  }

  lemma {:induction false} CommaSearch(json: string, parts: seq<string>, k: nat, r: nat)
    requires Laid(json, parts) && Plain(parts) && json != [] && json[0] == '[' && r < |parts| && r == k % |parts|
    ensures FindRepeated(json, ',', 0, k) == CommaAfter(parts, k, r)
  {
    if k > 0 {
      var before := (k - 1) % |parts|;
      CommaSearch(json, parts, k - 1, before);
      ModAdd(k - 1, 1, |parts|);
      ModSmall(0, |parts|);
      CommaTurn(json, parts, k - 1, before);
    } else {
      ModSmall(0, |parts|);
      assert Offset(parts, 0) == 0;
    }
  }

  /** What the cut gives for element k of a printed list of n > 0 ints, for every k: there is no check, the index
      counts modulo n, and a multiple of n past the start brings the opening bracket along. */
  ghost function DtypeAnswer(items: seq<JsonVal>, k: nat): string
    requires items != []
  {
    if k > 0 && k % |items| == 0 then "[" + Dump(items[0]) else Dump(items[k % |items|])
  }

  lemma DtypeSliceIs(json: string, k: nat, idx: int)
    requires FindRepeated(json, ',', 0, k) == idx
    ensures DtypeSlice(json, k) == Substr(json, idx + 1, StopAt(json, idx) - idx - 1)
  {
  }

  lemma DtypeOfParts(json: string, parts: seq<string>, k: nat, r: nat)
    requires Laid(json, parts) && Plain(parts) && json != [] && json[0] == '[' && r < |parts| && r == k % |parts|
    ensures DtypeSlice(json, k) == Some(if k > 0 && r == 0 then "[" + parts[0] else parts[r])
  {
    CommaSearch(json, parts, k, r);
    DtypeSliceIs(json, k, CommaAfter(parts, k, r));
    if k > 0 && r == 0 {
      FirstWithBracket(json, parts);
    } else {
      DtypeCutAt(json, parts, r, Offset(parts, r));
    }
  }

  lemma DtypeAtEveryIndex(items: seq<JsonVal>, k: nat)
    requires IsIntList(List(items)) && items != []
    ensures DtypeSlice(Dump(List(items)), k) == Some(DtypeAnswer(items, k))
  {
    DumpIsLaid(items);
    IntsArePlain(items);
    DtypeOfParts(Dump(List(items)), DumpAll(items), k, k % |items|);
  }

  /** In range the slice of a printed int list is the printed element. */
  lemma DtypeOfDump(items: seq<JsonVal>, k: nat)
    requires IsIntList(List(items)) && k < |items|
    ensures DtypeSlice(Dump(List(items)), k) == Some(Dump(items[k]))
  {
    DumpIsLaid(items);
    IntsArePlain(items);
    ModSmall(k, |items|);
    DtypeOfParts(Dump(List(items)), DumpAll(items), k, k);
  }

  /** The empty list, for every index. */
  lemma {:induction false} DtypeOfEmpty(k: nat)
    ensures DtypeSlice("[]", k) == Some(if k == 0 then "" else "[")
  {
    NoCommaInEmpty(k);
    FindIs("[]", ']', 0, 1);
    FindIs("[]", ']', 1, 1);
    FindNothing("[]", ',', 0);
    FindNothing("[]", ',', 1);
    assert "[]"[1..1] == "" && "[]"[0..1] == "[";
  }

  lemma {:induction false} NoCommaInEmpty(k: nat)
    ensures FindRepeated("[]", ',', 0, k) == if k == 0 then 0 else -1
  {
    if k > 0 {
      NoCommaInEmpty(k - 1);
      FindNothing("[]", ',', 0);
      FindNothing("[]", ',', 1);
    }
  }

  /** The answer for a text that is a printed int list, in range and past the end. */
  ghost predicate DtypeRight(dtype: string, index: nat, r: Option<string>) {
    forall items: seq<JsonVal> :: IsIntList(List(items)) && items != [] && dtype == Dump(List(items)) ==>
      r == Some(DtypeAnswer(items, index)) && (index < |items| ==> r == Some(Dump(items[index])))
  }

  lemma DtypeIsRight(dtype: string, index: nat)
    ensures DtypeRight(dtype, index, DtypeSlice(dtype, index))
  {
    forall items: seq<JsonVal> | IsIntList(List(items)) && items != [] && dtype == Dump(List(items))
      ensures DtypeSlice(dtype, index) == Some(DtypeAnswer(items, index))
      ensures index < |items| ==> DtypeSlice(dtype, index) == Some(Dump(items[index]))
    {
      DtypeAtEveryIndex(items, index);
      if index < |items| {
        DtypeOfDump(items, index);
      }
    }
  }

  /** The loop of searches computes the slice, for every text and every index. */
  method GetDtypeAt(dtype: string, index: nat) returns (r: Option<string>)
    ensures r == DtypeSlice(dtype, index) && DtypeRight(dtype, index, r)
  {
    DtypeIsRight(dtype, index);
    var idx := 0;
    for x := 0 to index
      invariant idx == FindRepeated(dtype, ',', 0, x)
    {
      idx := Find(dtype, ',', idx + 1);
    }
    var stop := Find(dtype, ',', idx + 1);
    if stop == -1 {
      stop := Find(dtype, ']', idx + 1);
    }
    r := Substr(dtype, idx + 1, stop - idx - 1);
  }

  // ---------- getShapeAt ----------

  /** A text with one opening bracket, first, and one closing bracket, last. */
  ghost predicate Boxed(s: string) {
    && |s| >= 2 && s[0] == '[' && s[|s| - 1] == ']'
    && (forall m :: 1 <= m < |s| ==> s[m] != '[') && (forall m :: 0 <= m < |s| - 1 ==> s[m] != ']')
  }

  lemma ListText(v: JsonVal)
    requires IsIntList(v)
    ensures Boxed(Dump(v))
  {
    IntsWithout(v.items, '[');
    IntsWithout(v.items, ']');
    var s, body := Dump(v), Join(DumpAll(v.items));
    assert forall m :: 1 <= m < |s| - 1 ==> s[m] == body[m - 1];
  }

  /** The opening bracket of the next list is the first one after this list has started. */
  lemma BracketAfter(json: string, p: nat, s: string, next: string)
    requires At(json, p, s) && Boxed(s) && At(json, p + |s| + 1, next) && Boxed(next) && json[p + |s|] == ','
    ensures Find(json, '[', p + 1) == p + |s| + 1
  {
    forall m | p + 1 <= m < p + |s| + 1 ensures json[m] != '[' {
      if m < p + |s| {
        AtIndex(json, p, s, m - p);
      }
    }
    AtIndex(json, p + |s| + 1, next, 0);
    FindIs(json, '[', p + 1, p + |s| + 1);
  }

  lemma FindLast(json: string, p: nat, s: string)
    requires At(json, p, s) && Boxed(s)
    ensures Find(json, ']', p) == p + |s| - 1
  {
    forall m | p <= m < p + |s| - 1 ensures json[m] != ']' {
      AtIndex(json, p, s, m - p);
    }
    AtIndex(json, p, s, |s| - 1);
    FindIs(json, ']', p, p + |s| - 1);
  }

  ghost predicate AllBoxed(parts: seq<string>) {
    forall m :: 0 <= m < |parts| ==> Boxed(parts[m])
  }

  lemma ListsAreBoxed(lists: seq<JsonVal>)
    requires forall l :: l in lists ==> IsIntList(l)
    ensures AllBoxed(DumpAll(lists))
  {
    forall m | 0 <= m < |lists| ensures Boxed(DumpAll(lists)[m]) {
      assert lists[m] in lists;
      ListText(lists[m]);
    }
  }

  /** Where the search for an opening bracket is after a number of turns that leaves remainder m modulo |parts| + 2:
      after the last element it misses, then it finds the bracket that opens the whole text, and then the first
      element again. */
  ghost function BracketAt(parts: seq<string>, m: nat): int {
    if m < |parts| then 1 + Offset(parts, m) else if m == |parts| then -1 else 0
  }

  lemma LastBracket(json: string, parts: seq<string>)
    requires Laid(json, parts) && AllBoxed(parts) && parts != []
    ensures Find(json, '[', Offset(parts, |parts| - 1) + 2) == -1
  {
    var k := |parts| - 1;
    var p := 1 + Offset(parts, k);
    assert PartAt(json, parts, k, p, ']');
    forall m | p + 1 <= m < |json| ensures json[m] != '[' {
      if m < p + |parts[k]| {
        AtIndex(json, p, parts[k], m - p);
      }
    }
    FindNothing(json, '[', p + 1);
  }

  lemma NextBracket(json: string, parts: seq<string>, m: nat)
    requires Laid(json, parts) && AllBoxed(parts) && m < |parts|
    ensures Find(json, '[', Offset(parts, m) + 2) == if m + 1 == |parts| then -1 else 1 + Offset(parts, m + 1)
  {
    if m + 1 == |parts| {
      LastBracket(json, parts);
    } else {
      var p, q := 1 + Offset(parts, m), 1 + Offset(parts, m + 1);
      assert PartAt(json, parts, m, p, ']') && PartAt(json, parts, m + 1, q, ']');
      BracketAfter(json, p, parts[m], parts[m + 1]);
    }
  }

  lemma FirstBrackets(json: string, parts: seq<string>)
    requires Laid(json, parts) && AllBoxed(parts) && parts != [] && json != [] && json[0] == '['
    ensures Find(json, '[', 0) == 0 && Find(json, '[', 1) == 1
  {
    FindIs(json, '[', 0, 0);
    assert PartAt(json, parts, 0, 1 + Offset(parts, 0), ']') && Offset(parts, 0) == 0;
    AtIndex(json, 1, parts[0], 0);
    FindIs(json, '[', 1, 1);
  }

  lemma BracketTurn(json: string, parts: seq<string>, m: nat)
    requires Laid(json, parts) && AllBoxed(parts) && parts != [] && json != [] && json[0] == '[' && m < |parts| + 2
    ensures Find(json, '[', BracketAt(parts, m) + 1) == BracketAt(parts, if m == |parts| + 1 then 0 else m + 1)
  {
    FirstBrackets(json, parts);
    assert Offset(parts, 0) == 0;
    if m < |parts| {
      NextBracket(json, parts, m);
    }
  }

  lemma {:induction false} BracketSearch(json: string, parts: seq<string>, k: nat, m: nat)
    requires Laid(json, parts) && AllBoxed(parts) && parts != [] && json != [] && json[0] == '['
    requires m == k % (|parts| + 2)
    ensures FindRepeated(json, '[', 1, k) == BracketAt(parts, m)
  {
    var n := |parts| + 2;
    if k == 0 {
      ModSmall(0, n);
      assert Offset(parts, 0) == 0;
    } else {
      var before := (k - 1) % n;
      BracketSearch(json, parts, k - 1, before);
      ModAdd(k - 1, 1, n);
      BracketTurn(json, parts, before);
    }
  }

  lemma ShapeCutAt(json: string, parts: seq<string>, m: nat)
    requires Laid(json, parts) && AllBoxed(parts) && m < |parts|
    ensures var idx := 1 + Offset(parts, m);
            Substr(json, idx, Find(json, ']', idx) - idx + 1) == Some(parts[m])
  {
    var p := 1 + Offset(parts, m);
    assert PartAt(json, parts, m, p, ']');
    FindLast(json, p, parts[m]);
    SubstrIs(json, p, parts[m]);
  }

  lemma FirstBoxed(json: string, parts: seq<string>)
    requires Laid(json, parts) && AllBoxed(parts) && parts != [] && json != [] && json[0] == '['
    ensures Substr(json, 0, Find(json, ']', 0) + 1) == Some("[" + parts[0])
  {
    var s := "[" + parts[0];
    assert PartAt(json, parts, 0, 1 + Offset(parts, 0), ']') && Offset(parts, 0) == 0;
    AtConcat(json, 0, "[", parts[0]);
    AtChar(json, 0, '[');
    FindLast(json, 1, parts[0]);
    assert Find(json, ']', 0) == Find(json, ']', 1);
    SubstrIs(json, 0, s);
  }

  /** What the cut gives for element k of a printed list of n > 0 int lists, for every k: the index counts modulo
      n + 2, it throws on remainder n and gives the first element with the opening bracket on remainder n + 1. */
  ghost function ShapeAnswer(lists: seq<JsonVal>, k: nat): Option<string>
    requires lists != []
  {
    var m := k % (|lists| + 2);
    if m < |lists| then Some(Dump(lists[m])) else if m == |lists| then None else Some("[" + Dump(lists[0]))
  }

  lemma ShapeSliceIs(json: string, k: nat, idx: int)
    requires FindRepeated(json, '[', 1, k) == idx
    ensures ShapeSlice(json, k) == Substr(json, idx, Find(json, ']', idx) - idx + 1)
  {
  }

  lemma ShapeOfParts(json: string, parts: seq<string>, k: nat, m: nat)
    requires Laid(json, parts) && AllBoxed(parts) && parts != [] && json != [] && json[0] == '['
    requires m == k % (|parts| + 2)
    ensures ShapeSlice(json, k) ==
              if m < |parts| then Some(parts[m]) else if m == |parts| then None else Some("[" + parts[0])
  {
    BracketSearch(json, parts, k, m);
    ShapeSliceIs(json, k, BracketAt(parts, m));
    if m < |parts| {
      ShapeCutAt(json, parts, m);
    } else if m == |parts| + 1 {
      FirstBoxed(json, parts);
    }
  }

  lemma ShapeAtEveryIndex(lists: seq<JsonVal>, k: nat)
    requires (forall l :: l in lists ==> IsIntList(l)) && lists != []
    ensures ShapeSlice(Dump(List(lists)), k) == ShapeAnswer(lists, k)
  {
    DumpIsLaid(lists);
    ListsAreBoxed(lists);
    ShapeOfParts(Dump(List(lists)), DumpAll(lists), k, k % (|lists| + 2));
  }

  /** In range the slice of a printed list of int lists is the printed element, which reads back as that element. */
  lemma ShapeOfDump(lists: seq<JsonVal>, k: nat)
    requires (forall l :: l in lists ==> IsIntList(l)) && k < |lists|
    ensures ShapeSlice(Dump(List(lists)), k) == Some(Dump(lists[k]))
    ensures Parse(Dump(lists[k]), 0) == Done(lists[k], |Dump(lists[k])|)
  {
    DumpIsLaid(lists);
    ListsAreBoxed(lists);
    ModSmall(k, |lists| + 2);
    ShapeOfParts(Dump(List(lists)), DumpAll(lists), k, k);
    assert lists[k] in lists;
    RoundTrip(lists[k]);
  }

  /** The empty list, for every index. */
  lemma ShapeOfEmpty(k: nat)
    ensures ShapeSlice("[]", k) == if k == 0 then Some("]") else if k % 2 == 1 then None else Some("[]")
  {
    BracketsInEmpty(k);
    FindIs("[]", ']', 0, 1);
    FindIs("[]", ']', 1, 1);
    assert "[]"[1..2] == "]" && "[]"[0..2] == "[]";
  }

  lemma {:induction false} BracketsInEmpty(k: nat)
    ensures FindRepeated("[]", '[', 1, k) == if k == 0 then 1 else if k % 2 == 1 then -1 else 0
  {
    if k > 0 {
      BracketsInEmpty(k - 1);
      FindIs("[]", '[', 0, 0);
      FindNothing("[]", '[', 1);
      FindNothing("[]", '[', 2);
    }
  }

  /** The answer for a text that is a printed list of int lists, in range and past the end. */
  ghost predicate ShapeRight(shape: string, index: nat, r: Option<string>) {
    forall lists: seq<JsonVal> ::
      (forall l :: l in lists ==> IsIntList(l)) && lists != [] && shape == Dump(List(lists)) ==>
        && r == ShapeAnswer(lists, index)
        && (index < |lists| ==> r == Some(Dump(lists[index])) && Parse(r.value, 0) == Done(lists[index], |r.value|))
  }

  lemma ShapeIsRight(shape: string, index: nat)
    ensures ShapeRight(shape, index, ShapeSlice(shape, index))
  {
    forall lists: seq<JsonVal> | (forall l :: l in lists ==> IsIntList(l)) && lists != [] && shape == Dump(List(lists))
      ensures ShapeSlice(shape, index) == ShapeAnswer(lists, index)
      ensures index < |lists| ==> ShapeSlice(shape, index) == Some(Dump(lists[index]))
      ensures index < |lists| ==> Parse(Dump(lists[index]), 0) == Done(lists[index], |Dump(lists[index])|)
    {
      ShapeAtEveryIndex(lists, index);
      if index < |lists| {
        ShapeOfDump(lists, index);
      }
    }
  }

  /** The loop of searches computes the slice, for every text and every index. */
  method GetShapeAt(shape: string, index: nat) returns (r: Option<string>)
    ensures r == ShapeSlice(shape, index) && ShapeRight(shape, index, r)
  {
    ShapeIsRight(shape, index);
    var idx := 1;
    for x := 0 to index
      invariant idx == FindRepeated(shape, '[', 1, x)
    {
      idx := Find(shape, '[', idx + 1);
    }
    var stop := Find(shape, ']', idx);
    r := Substr(shape, idx, stop - idx + 1);
  }
}
