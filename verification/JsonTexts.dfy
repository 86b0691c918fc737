/** What the JSON reader of include/mxnet/lib_api.h makes of texts that nobody printed: any filler between the parts,
    map entries in any order, keys repeated. */
module JsonTexts {
  import opened Sequences
  import opened Json
  import JsonReader

  // ---------- The order of string keys ----------

  /** The common part of two strings that differ at p, or of which one ends there. */
  ghost predicate DifferAt(a: string, b: string, p: nat) {
    p <= |a| && p <= |b| && a[..p] == b[..p] && (p < |a| && p < |b| ==> a[p] != b[p])
  }

  /** The order is the lexicographic one. */
  lemma {:induction false} StrLessIsLexicographic(a: string, b: string, p: nat)
    requires DifferAt(a, b, p)
    requires p < |a| || p < |b|
    ensures StrLess(a, b) <==> p < |b| && (p == |a| || a[p] < b[p])
  {
    if p > 0 {
      assert a[0] == a[..p][0] == b[..p][0] == b[0];
      assert a[1..][..p - 1] == a[..p][1..] && b[1..][..p - 1] == b[..p][1..];
      StrLessIsLexicographic(a[1..], b[1..], p - 1);
    }
  }

  lemma {:induction false} StrLessTotal(a: string, b: string)
    ensures !StrLess(a, a) && !(StrLess(a, b) && StrLess(b, a)) && (StrLess(a, b) || StrLess(b, a) || a == b)
  {
    if a != [] {
      StrLessTotal(a[1..], if b == [] then [] else b[1..]);
      if b != [] && a[0] == b[0] && a[1..] == b[1..] {
        assert a == [a[0]] + a[1..] && b == [b[0]] + b[1..];
      }
    }
  }

  lemma {:induction false} StrLessTransitive(a: string, b: string, c: string)
    requires StrLess(a, b) && StrLess(b, c)
    ensures StrLess(a, c)
  {
    if a != [] && a[0] == b[0] == c[0] {
      StrLessTransitive(a[1..], b[1..], c[1..]);
    }
  }

  // ---------- Insertion into a map ----------

  /** Entries with string keys, in strictly increasing order. */
  ghost predicate Ordered(entries: seq<Entry>) {
    && (forall p :: 0 <= p < |entries| ==> entries[p].key.Str?)
    && (forall p, q :: 0 <= p < q < |entries| ==> StrLess(entries[p].key.str, entries[q].key.str))
  }

  lemma OrderedTail(entries: seq<Entry>)
    requires Ordered(entries) && entries != []
    ensures Ordered(entries[1..])
  {
  }

  lemma {:induction false} LowerBoundSplits(entries: seq<Entry>, k: JsonVal)
    requires Ordered(entries) && k.Str?
    ensures var p := LowerBound(entries, k);
            && (forall q :: 0 <= q < p ==> StrLess(entries[q].key.str, k.str))
            && (forall q :: p <= q < |entries| ==> !StrLess(entries[q].key.str, k.str))
  {
    if entries != [] {
      if KeyLess(entries[0].key, k) {
        OrderedTail(entries);
        LowerBoundSplits(entries[1..], k);
        forall q | 0 <= q < |entries|
          ensures q < LowerBound(entries, k) ==> StrLess(entries[q].key.str, k.str)
          ensures q >= LowerBound(entries, k) ==> !StrLess(entries[q].key.str, k.str)
        {
          assert q > 0 ==> entries[q] == entries[1..][q - 1];
        }
      } else {
        forall q | 0 <= q < |entries| ensures !StrLess(entries[q].key.str, k.str) {
          if q > 0 && StrLess(entries[q].key.str, k.str) {
            StrLessTransitive(entries[0].key.str, entries[q].key.str, k.str);
          }
        }
      }
    }
  }

  /** The entry for k is put in between, or takes the place of the one that was there. */
  lemma InsertShape(entries: seq<Entry>, k: JsonVal, v: JsonVal)
    requires Ordered(entries) && k.Str?
    ensures var p := LowerBound(entries, k);
            Insert(entries, k, v) ==
              if p < |entries| && entries[p].key == k then entries[p := Entry(k, v)]
              else entries[..p] + [Entry(k, v)] + entries[p..]
  {
    var p := LowerBound(entries, k);
    LowerBoundSplits(entries, k);
    if p < |entries| {
      StrLessTotal(k.str, entries[p].key.str);
    }
  }

  ghost predicate Below(entries: seq<Entry>, k: string) {
    forall q :: 0 <= q < |entries| ==> entries[q].key.Str? && StrLess(entries[q].key.str, k)
  }

  ghost predicate Above(entries: seq<Entry>, k: string) {
    forall q :: 0 <= q < |entries| ==> entries[q].key.Str? && StrLess(k, entries[q].key.str)
  }

  lemma OrderedAround(a: seq<Entry>, e: Entry, b: seq<Entry>)
    requires Ordered(a) && Ordered(b) && e.key.Str? && Below(a, e.key.str) && Above(b, e.key.str)
    ensures Ordered(a + [e] + b)
  {
    var all := a + [e] + b;
    forall p, q | 0 <= p < q < |all| ensures StrLess(all[p].key.str, all[q].key.str) {
      if p < |a| && q > |a| {
        StrLessTransitive(all[p].key.str, e.key.str, all[q].key.str);
      }
    }
  }

  lemma InAround(a: seq<Entry>, e: Entry, b: seq<Entry>, x: Entry)
    ensures x in a + [e] + b <==> x in a || x == e || x in b
  {
  }

  /** What is known about position p of the entries when k goes there. */
  ghost predicate GoesTo(entries: seq<Entry>, k: string, p: nat) {
    && p <= |entries| && Ordered(entries)
    && (forall q :: 0 <= q < p ==> StrLess(entries[q].key.str, k))
    && (forall q :: p <= q < |entries| ==> !StrLess(entries[q].key.str, k))
  }

  lemma PartsOrdered(entries: seq<Entry>, k: string, p: nat, r: nat)
    requires GoesTo(entries, k, p) && p <= r <= |entries|
    requires forall q :: r <= q < |entries| ==> entries[q].key.str != k
    ensures Ordered(entries[..p]) && Ordered(entries[r..]) && Below(entries[..p], k) && Above(entries[r..], k)
  {
    forall q | r <= q < |entries| ensures StrLess(k, entries[q].key.str) {
      StrLessTotal(k, entries[q].key.str);
    }
  }

  lemma OnlyHere(entries: seq<Entry>, k: string, p: nat)
    requires GoesTo(entries, k, p)
    ensures p < |entries| && entries[p].key == Str(k) ==> forall q :: p < q < |entries| ==> entries[q].key.str != k
    ensures p < |entries| && entries[p].key != Str(k) ==> forall q :: p <= q < |entries| ==> entries[q].key.str != k
  {
    forall q | p < q < |entries| ensures entries[q].key.str != k {
      StrLessTotal(k, k);
      StrLessTotal(entries[p].key.str, k);
      assert StrLess(entries[p].key.str, entries[q].key.str);
    }
  }

  lemma InConcat(a: seq<Entry>, b: seq<Entry>, x: Entry)
    ensures x in a + b <==> x in a || x in b
  {
  }

  /** The entries before and after the place of key k, and what is in them besides k. */
  ghost predicate Sides(entries: seq<Entry>, k: JsonVal, a: seq<Entry>, b: seq<Entry>)
    requires k.Str?
  {
    && Ordered(a) && Ordered(b) && Below(a, k.str) && Above(b, k.str)
    && forall x: Entry :: x.key != k ==> (x in entries <==> x in a || x in b)
  }

  lemma SidesOfKey(entries: seq<Entry>, k: JsonVal, p: nat)
    requires k.Str? && GoesTo(entries, k.str, p) && p < |entries| && entries[p].key == k
    ensures Sides(entries, k, entries[..p], entries[p + 1..])
  {
    OnlyHere(entries, k.str, p);
    PartsOrdered(entries, k.str, p, p + 1);
    assert entries == entries[..p] + [entries[p]] + entries[p + 1..];
    forall x: Entry | x.key != k ensures x in entries <==> x in entries[..p] || x in entries[p + 1..] {
      InAround(entries[..p], entries[p], entries[p + 1..], x);
    }
  }

  lemma SidesOfGap(entries: seq<Entry>, k: JsonVal, p: nat)
    requires k.Str? && GoesTo(entries, k.str, p) && (p < |entries| ==> entries[p].key != k)
    ensures Sides(entries, k, entries[..p], entries[p..])
  {
    OnlyHere(entries, k.str, p);
    PartsOrdered(entries, k.str, p, p);
    assert entries == entries[..p] + entries[p..];
    forall x: Entry | x.key != k ensures x in entries <==> x in entries[..p] || x in entries[p..] {
      InConcat(entries[..p], entries[p..], x);
    }
  }

  lemma UpdateIsAround(entries: seq<Entry>, p: nat, e: Entry)
    requires p < |entries|
    ensures entries[p := e] == entries[..p] + [e] + entries[p + 1..]
  {
  }

  lemma InsertAround(entries: seq<Entry>, k: JsonVal, v: JsonVal) returns (a: seq<Entry>, b: seq<Entry>)
    requires Ordered(entries) && k.Str?
    ensures Insert(entries, k, v) == a + [Entry(k, v)] + b && Sides(entries, k, a, b)
  {
    var p := LowerBound(entries, k);
    LowerBoundSplits(entries, k);
    InsertShape(entries, k, v);
    if p < |entries| && entries[p].key == k {
      SidesOfKey(entries, k, p);
      UpdateIsAround(entries, p, Entry(k, v));
      a, b := entries[..p], entries[p + 1..];
    } else {
      SidesOfGap(entries, k, p);
      a, b := entries[..p], entries[p..];
    }
  }

  /** map[k] = v: the entries stay in strict order, k has the value v, every other key keeps its own value, and no
      other key appears. */
  lemma InsertIs(entries: seq<Entry>, k: JsonVal, v: JsonVal)
    requires Ordered(entries) && k.Str?
    ensures Ordered(Insert(entries, k, v))
    ensures forall x: Entry :: x in Insert(entries, k, v) <==> x == Entry(k, v) || (x.key != k && x in entries)
  {
    var a, b := InsertAround(entries, k, v);
    OrderedAround(a, Entry(k, v), b);
    forall x: Entry ensures x in Insert(entries, k, v) <==> x == Entry(k, v) || (x.key != k && x in entries) {
      InAround(a, Entry(k, v), b, x);
      StrLessTotal(k.str, k.str);
    }
  }

  /** The pairs put into an empty map one after another. */
  ghost function InsertAll(pairs: seq<Entry>): seq<Entry> {
    if pairs == [] then []
    else var last := pairs[|pairs| - 1]; Insert(InsertAll(pairs[..|pairs| - 1]), last.key, last.value)
  }

  /** x is the last of the pairs with its key. */
  ghost predicate IsLast(pairs: seq<Entry>, x: Entry) {
    exists j :: 0 <= j < |pairs| && pairs[j] == x && forall m :: j < m < |pairs| ==> pairs[m].key != x.key
  }

  lemma LastOfMore(init: seq<Entry>, e: Entry, x: Entry)
    ensures IsLast(init + [e], x) <==> x == e || (x.key != e.key && IsLast(init, x))
  {
    var all := init + [e];
    if x == e {
      assert all[|init|] == x;
    }
    if x.key != e.key && IsLast(init, x) {
      var j :| 0 <= j < |init| && init[j] == x && forall m :: j < m < |init| ==> init[m].key != x.key;
      assert all[j] == x && forall m :: j < m < |all| ==> all[m].key != x.key;
    }
    if IsLast(all, x) && x != e {
      var j :| 0 <= j < |all| && all[j] == x && forall m :: j < m < |all| ==> all[m].key != x.key;
      assert j < |init| && init[j] == x && all[|init|] == e;
      assert forall m :: j < m < |init| ==> init[m] == all[m];
    }
  }

  /** They make the finite map of the pairs, the last value of a key winning, whatever order they come in. */
  lemma {:induction false} LastWins(pairs: seq<Entry>)
    requires forall p :: 0 <= p < |pairs| ==> pairs[p].key.Str?
    ensures Ordered(InsertAll(pairs))
    ensures forall x: Entry :: x in InsertAll(pairs) <==> IsLast(pairs, x)
  {
    if pairs != [] {
      var init, last := pairs[..|pairs| - 1], pairs[|pairs| - 1];
      LastWins(init);
      InsertIs(InsertAll(init), last.key, last.value);
      assert pairs == init + [last];
      forall x: Entry ensures x in InsertAll(pairs) <==> IsLast(pairs, x) {
        LastOfMore(init, last, x);
      }
    }
  }

  // ---------- Texts ----------

  /** A text as written: what stands between the parts of a container is kept. */
  datatype Syntax =
    | Quoted(s: string)
    | Digits(text: string)
    | Items(items: seq<Item>, close: string)
    | Pairs(pairs: seq<Pair>, close: string)

  datatype Item = Item(gap: string, part: Syntax)
  datatype Pair = Pair(before: string, key: string, between: string, value: Syntax)

  ghost function Quote(s: string): string {
    "\"" + s + "\""
  }

  ghost function Text(x: Syntax): string
    decreases x, 1
  {
    match x
    case Quoted(s) => Quote(s)
    case Digits(text) => text
    case Items(items, close) => "[" + (ItemsText(items) + (close + "]"))
    case Pairs(pairs, close) => "{" + (PairsText(pairs) + (close + "}"))
  }

  ghost function ItemsText(items: seq<Item>): string
    decreases items, 0
  {
    if items == [] then "" else items[0].gap + (Text(items[0].part) + ItemsText(items[1..]))
  }

  ghost function PairsText(pairs: seq<Pair>): string
    decreases pairs, 0
  {
    if pairs == [] then ""
    else
      var p := pairs[0];
      p.before + (Quote(p.key) + (p.between + (Text(p.value) + PairsText(pairs[1..]))))
  }

  /** What a text means: a map is its pairs put in one after another. */
  ghost function Meaning(x: Syntax): (v: JsonVal)
    ensures v != Err
    decreases x, 1
  {
    match x
    case Quoted(s) => Str(s)
    case Digits(text) => if AllDigits(text) then Num(Value(text), text) else Str(text)
    case Items(items, _) => List(ItemValues(items))
    case Pairs(pairs, _) => Map(InsertAll(PairEntries(pairs)))
  }

  ghost function ItemValues(items: seq<Item>): (vs: seq<JsonVal>)
    ensures |vs| == |items| && forall k :: 0 <= k < |items| ==> vs[k] == Meaning(items[k].part)
    decreases items, 0
  {
    if items == [] then [] else [Meaning(items[0].part)] + ItemValues(items[1..])
  }

  ghost function PairEntries(pairs: seq<Pair>): (es: seq<Entry>)
    ensures |es| == |pairs|
    ensures forall k :: 0 <= k < |pairs| ==> es[k] == Entry(Str(pairs[k].key), Meaning(pairs[k].value))
    decreases pairs, 0
  {
    if pairs == [] then [] else [Entry(Str(pairs[0].key), Meaning(pairs[0].value))] + PairEntries(pairs[1..])
  }

  /** The value of a map text: its keys in strict order, each with the last value the text gives it, and no others. */
  lemma MapMeaning(pairs: seq<Pair>, close: string)
    ensures var es := Meaning(Pairs(pairs, close)).entries;
            Ordered(es) && forall x: Entry :: x in es <==> IsLast(PairEntries(pairs), x)
  {
    LastWins(PairEntries(pairs));
  }

  ghost predicate AllFiller(s: string) { forall k :: 0 <= k < |s| ==> IsFiller(s[k]) }

  /** Strings without quotes, ints that fit, nothing but filler in between, and no two numbers run together. */
  ghost predicate Readable(x: Syntax)
    decreases x
  {
    match x
    case Quoted(s) => QuoteFree(s)
    case Digits(text) => text != "" && AllDigits(text) && Value(text) <= 2147483647
    case Items(items, close) =>
      && AllFiller(close)
      && (forall k :: 0 <= k < |items| ==> ItemReadable(items[k]))
      && Apart(items)
    case Pairs(pairs, close) =>
      && AllFiller(close)
      && forall k :: 0 <= k < |pairs| ==> PairReadable(pairs[k])
  }

  ghost predicate ItemReadable(item: Item)
    decreases item
  {
    AllFiller(item.gap) && Readable(item.part)
  }

  ghost predicate PairReadable(p: Pair)
    decreases p
  {
    AllFiller(p.before) && QuoteFree(p.key) && AllFiller(p.between) && Readable(p.value)
  }

  ghost predicate Apart(items: seq<Item>) {
    forall k :: 1 <= k < |items| && items[k - 1].part.Digits? && items[k].part.Digits? ==> items[k].gap != ""
  }

  /** A further digit multiplies by ten and adds its place among the ten digits. */
  lemma DecimalPlaces(s: string, d: nat)
    requires AllDigits(s) && d < 10
    ensures Value("") == 0 && AllDigits(s + ["0123456789"[d]]) && Value(s + ["0123456789"[d]]) == 10 * Value(s) + d
  {
    var c := "0123456789"[d];
    assert (s + [c])[..|s|] == s && (s + [c])[|s|] == c;
  }

  // ---------- Reading ----------

  lemma {:induction false} GapSkipped(json: string, i: nat, gap: string)
    requires AllFiller(gap) && At(json, i, gap)
    ensures Parse(json, i) == Parse(json, i + |gap|)
    decreases |gap|
  {
    if gap != "" {
      assert json[i] == gap[0];
      FillerSkipped(json, i);
      GapSkipped(json, i + 1, gap[1..]);
    }
  }

  /** The text goes on, after a number, with something that is no digit. */
  ghost predicate Delimited(json: string, j: nat, x: Syntax) {
    x.Digits? && j < |json| ==> !IsDigit(json[j])
  }

  lemma TextStarts(x: Syntax)
    requires Readable(x)
    ensures Text(x) != "" && (!x.Digits? ==> !IsDigit(Text(x)[0])) && !IsCloser(Text(x)[0])
  {
  }

  lemma ItemsDelimited(items: seq<Item>, close: string, rest: string)
    requires (forall k :: 0 <= k < |items| ==> ItemReadable(items[k])) && AllFiller(close)
    requires rest == ItemsText(items) + close + "]"
    ensures rest != ""
    ensures items == [] || items[0].gap != "" || !items[0].part.Digits? ==> !IsDigit(rest[0])
  {
    if items == [] {
      assert ItemsText(items) + close == close;
      assert rest[0] == if close == "" then ']' else close[0];
    } else {
      TextStarts(items[0].part);
      var gap, text := items[0].gap, Text(items[0].part);
      assert rest[0] == if gap == "" then text[0] else gap[0];
    }
  }

  lemma PairsDelimited(pairs: seq<Pair>, close: string, rest: string)
    requires (forall k :: 0 <= k < |pairs| ==> PairReadable(pairs[k])) && AllFiller(close)
    requires rest == PairsText(pairs) + close + "}"
    ensures rest != "" && !IsDigit(rest[0])
  {
    if pairs == [] {
      assert PairsText(pairs) + close == close;
      assert rest[0] == if close == "" then '}' else close[0];
    } else {
      var before := pairs[0].before;
      assert rest[0] == if before == "" then '"' else before[0];
    }
  }

  /** What the reader makes of any readable text, wherever it stands. */
  lemma {:induction false} TextIsRead(json: string, i: nat, x: Syntax)
    requires Readable(x) && At(json, i, Text(x)) && Delimited(json, i + |Text(x)|, x)
    ensures Parse(json, i) == Done(Meaning(x), i + |Text(x)|)
    decreases x, 4
  {
    match x
    case Quoted(s) =>
      StringReadsBack(json, i, s);
    case Digits(text) =>
      DigitsReadBack(json, i, text);
    case Items(items, close) =>
      ListIsRead(json, i, x);
    case Pairs(pairs, close) =>
      MapIsRead(json, i, x);
  }

  lemma {:induction false} ListIsRead(json: string, i: nat, x: Syntax)
    requires x.Items? && Readable(x) && At(json, i, Text(x))
    ensures Parse(json, i) == Done(Meaning(x), i + |Text(x)|)
    decreases x, 3
  {
    var body, values := ItemsText(x.items) + (x.close + "]"), ItemValues(x.items);
    AtConcat(json, i, "[", body);
    AtChar(json, i, '[');
    assert [] + values == values;
    ItemsAreRead(json, i + 1, x.items, x.close, [], values, i + |Text(x)|);
    OpenList(json, i);
  }

  lemma {:induction false} MapIsRead(json: string, i: nat, x: Syntax)
    requires x.Pairs? && Readable(x) && At(json, i, Text(x))
    ensures Parse(json, i) == Done(Meaning(x), i + |Text(x)|)
    decreases x, 3
  {
    var body, entries := PairsText(x.pairs) + (x.close + "}"), PairEntries(x.pairs);
    AtConcat(json, i, "{", body);
    AtChar(json, i, '{');
    assert [] + entries == entries;
    PairsAreRead(json, i + 1, x.pairs, x.close, [], entries, i + |Text(x)|);
    OpenMap(json, i);
  }

  /** At the closing bracket, with filler before it. */
  lemma CloseList(json: string, i: nat, close: string, done: seq<JsonVal>)
    requires AllFiller(close) && At(json, i, close + "]")
    ensures ParseList(json, i, done) == Done(List(done), i + |close| + 1)
  {
    AtConcat(json, i, close, "]");
    AtChar(json, i + |close|, ']');
    if close != "" {
      GapSkipped(json, i, close);
      assert json[i] == close[0];
      assert Parse(json, i) == Done(Err, i + |close|);
    }
  }

  lemma CloseMap(json: string, i: nat, close: string, done: seq<Entry>)
    requires AllFiller(close) && At(json, i, close + "}")
    ensures ParseMap(json, i, Err, done) == Done(Map(done), i + |close| + 1)
  {
    AtConcat(json, i, close, "}");
    AtChar(json, i + |close|, '}');
    if close != "" {
      GapSkipped(json, i, close);
      assert json[i] == close[0];
      assert Parse(json, i) == Done(Err, i + |close|);
      assert ParseMap(json, i, Err, done) == ParseMap(json, i + |close|, Err, done);
    }
  }

  lemma ItemLayout(json: string, i: nat, gap: string, text: string, more: string, tail: string)
    requires At(json, i, gap + (text + more) + tail)
    ensures At(json, i, gap) && At(json, i + |gap|, text) && At(json, i + |gap| + |text|, more + tail)
  {
    assert gap + (text + more) + tail == gap + (text + (more + tail));
    AtConcat(json, i, gap, text + (more + tail));
    AtConcat(json, i + |gap|, text, more + tail);
  }

  /** One item is read and added to the list. */
  lemma {:induction false} ItemStep(json: string, i: nat, item: Item, j: nat, k: nat, done: seq<JsonVal>)
    requires ItemReadable(item) && At(json, i, item.gap) && j == i + |item.gap| && At(json, j, Text(item.part))
    requires k == j + |Text(item.part)| && k < |json| && (item.part.Digits? ==> !IsDigit(json[k]))
    ensures ParseList(json, i, done) == ParseList(json, k, done + [Meaning(item.part)])
    decreases item, 0
  {
    TextIsRead(json, j, item.part);
    GapSkipped(json, i, item.gap);
    ListStep(json, i, done, Meaning(item.part), k);
  }

  lemma ItemsSplit(items: seq<Item>, tail: string)
    requires items != []
    ensures ItemsText(items) + tail == items[0].gap + (Text(items[0].part) + ItemsText(items[1..])) + tail
  {
  }

  lemma MoreItems(items: seq<Item>, close: string)
    requires items != [] && Apart(items) && AllFiller(close)
    requires forall k :: 0 <= k < |items| ==> ItemReadable(items[k])
    ensures var more := items[1..];
            && Apart(more) && (forall k :: 0 <= k < |more| ==> ItemReadable(more[k]))
            && ItemsText(more) + (close + "]") != ""
            && (items[0].part.Digits? ==> !IsDigit((ItemsText(more) + (close + "]"))[0]))
  {
    var more := items[1..];
    assert forall k :: 0 <= k < |more| ==> more[k] == items[k + 1];
    ItemsDelimited(more, close, ItemsText(more) + close + "]");
    Reassociate(ItemsText(more), close, "]");
    assert items[0].part.Digits? && more != [] ==> more[0].gap != "" || !more[0].part.Digits?;
  }

  /** Where the first item stands, and the others after it. */
  lemma FirstItem(json: string, i: nat, items: seq<Item>, close: string) returns (j: nat, k: nat)
    requires items != [] && Apart(items) && AllFiller(close)
    requires forall k :: 0 <= k < |items| ==> ItemReadable(items[k])
    requires At(json, i, ItemsText(items) + (close + "]"))
    ensures j == i + |items[0].gap| && k == j + |Text(items[0].part)| && k < |json|
    ensures At(json, i, items[0].gap) && At(json, j, Text(items[0].part))
    ensures items[0].part.Digits? ==> !IsDigit(json[k])
    ensures At(json, k, ItemsText(items[1..]) + (close + "]")) && k + |ItemsText(items[1..])| == i + |ItemsText(items)|
  {
    var item, more := items[0], items[1..];
    j := i + |item.gap|;
    k := j + |Text(item.part)|;
    ItemsSplit(items, close + "]");
    ItemLayout(json, i, item.gap, Text(item.part), ItemsText(more), close + "]");
    MoreItems(items, close);
    FirstChar(json, k, ItemsText(more) + (close + "]"));
  }

  lemma ValuesNext(done: seq<JsonVal>, items: seq<Item>)
    requires items != []
    ensures done + ItemValues(items) == done + [Meaning(items[0].part)] + ItemValues(items[1..])
  {
  }

  /** The items at i are added, one after another, to the list of those done before; the list ends at `end`. */
  lemma {:induction false} ItemsAreRead(json: string, i: nat, items: seq<Item>, close: string, done: seq<JsonVal>,
                                        all: seq<JsonVal>, end: nat)
    requires (forall k :: 0 <= k < |items| ==> ItemReadable(items[k])) && Apart(items) && AllFiller(close)
    requires At(json, i, ItemsText(items) + (close + "]"))
    requires all == done + ItemValues(items) && end == i + |ItemsText(items)| + |close| + 1
    ensures ParseList(json, i, done) == Done(List(all), end)
    decreases items, 2
  {
    if items == [] {
      assert ItemsText(items) + (close + "]") == close + "]" && done + [] == done;
      CloseList(json, i, close, done);
    } else {
      var j, k := FirstItem(json, i, items, close);
      MoreItems(items, close);
      ItemStep(json, i, items[0], j, k, done);
      ValuesNext(done, items);
      ItemsAreRead(json, k, items[1..], close, done + [Meaning(items[0].part)], all, end);
    }
  }

  lemma PairLayout(json: string, i: nat, before: string, key: string, between: string, text: string, more: string,
                   tail: string)
    requires At(json, i, before + (key + (between + (text + more))) + tail)
    ensures var j := i + |before|;
            var k := j + |key|;
            var l := k + |between|;
            && At(json, i, before) && At(json, j, key) && At(json, k, between) && At(json, l, text)
            && At(json, l + |text|, more + tail)
  {
    ItemLayout(json, i, before, key, between + (text + more), tail);
    ItemLayout(json, i + |before| + |key|, between, text, more, tail);
  }

  /** The pairs done so far and those to come are put in one after another. */
  lemma InsertAllNext(done: seq<Entry>, e: Entry)
    ensures InsertAll(done + [e]) == Insert(InsertAll(done), e.key, e.value)
  {
    assert (done + [e])[..|done|] == done;
  }

  lemma PairsSplit(pairs: seq<Pair>, tail: string)
    requires pairs != []
    ensures var p := pairs[0];
            PairsText(pairs) + tail ==
              p.before + (Quote(p.key) + (p.between + (Text(p.value) + PairsText(pairs[1..])))) + tail
  {
  }

  lemma MorePairs(pairs: seq<Pair>, close: string)
    requires pairs != [] && AllFiller(close) && forall k :: 0 <= k < |pairs| ==> PairReadable(pairs[k])
    ensures var more := pairs[1..];
            && (forall k :: 0 <= k < |more| ==> PairReadable(more[k]))
            && PairsText(more) + (close + "}") != "" && !IsDigit((PairsText(more) + (close + "}"))[0])
  {
    var more := pairs[1..];
    assert forall k :: 0 <= k < |more| ==> more[k] == pairs[k + 1];
    PairsDelimited(more, close, PairsText(more) + close + "}");
    Reassociate(PairsText(more), close, "}");
  }

  /** A pair stands at i and ends at m: its key at j, its value at l. */
  ghost predicate PairAt(json: string, i: nat, p: Pair, j: nat, k: nat, l: nat, m: nat) {
    && At(json, i, p.before) && j == i + |p.before|
    && At(json, j, Quote(p.key)) && k == j + |Quote(p.key)|
    && At(json, k, p.between) && l == k + |p.between|
    && At(json, l, Text(p.value)) && m == l + |Text(p.value)|
    && m < |json| && !IsDigit(json[m])
  }

  /** Where the first pair stands, and the others after it. */
  lemma FirstPair(json: string, i: nat, pairs: seq<Pair>, close: string) returns (j: nat, k: nat, l: nat, m: nat)
    requires pairs != [] && AllFiller(close) && forall k :: 0 <= k < |pairs| ==> PairReadable(pairs[k])
    requires At(json, i, PairsText(pairs) + (close + "}"))
    ensures PairAt(json, i, pairs[0], j, k, l, m)
    ensures At(json, m, PairsText(pairs[1..]) + (close + "}")) && m + |PairsText(pairs[1..])| == i + |PairsText(pairs)|
  {
    var p, more := pairs[0], pairs[1..];
    j := i + |p.before|;
    k := j + |Quote(p.key)|;
    l := k + |p.between|;
    m := l + |Text(p.value)|;
    PairsSplit(pairs, close + "}");
    PairLayout(json, i, p.before, Quote(p.key), p.between, Text(p.value), PairsText(more), close + "}");
    MorePairs(pairs, close);
    FirstChar(json, m, PairsText(more) + (close + "}"));
  }

  lemma EntriesNext(done: seq<Entry>, pairs: seq<Pair>)
    requires pairs != []
    ensures done + PairEntries(pairs) ==
              done + [Entry(Str(pairs[0].key), Meaning(pairs[0].value))] + PairEntries(pairs[1..])
  {
  }

  lemma MoreReadable(pairs: seq<Pair>)
    requires pairs != [] && forall k :: 0 <= k < |pairs| ==> PairReadable(pairs[k])
    ensures PairReadable(pairs[0]) && forall k :: 0 <= k < |pairs[1..]| ==> PairReadable(pairs[1..][k])
  {
  }

  /** The pairs at i are put, one after another, into the map of those done before; the map ends at `end`. */
  lemma {:induction false} PairsAreRead(json: string, i: nat, pairs: seq<Pair>, close: string, done: seq<Entry>,
                                        all: seq<Entry>, end: nat)
    requires (forall k :: 0 <= k < |pairs| ==> PairReadable(pairs[k])) && AllFiller(close)
    requires At(json, i, PairsText(pairs) + (close + "}"))
    requires all == done + PairEntries(pairs) && end == i + |PairsText(pairs)| + |close| + 1
    ensures ParseMap(json, i, Err, InsertAll(done)) == Done(Map(InsertAll(all)), end)
    decreases pairs, 2
  {
    if pairs == [] {
      assert PairsText(pairs) + (close + "}") == close + "}" && done + [] == done;
      CloseMap(json, i, close, InsertAll(done));
    } else {
      var j, k, l, m := FirstPair(json, i, pairs, close);
      MoreReadable(pairs);
      PairStep(json, i, pairs[0], j, k, l, m, done);
      EntriesNext(done, pairs);
      PairsAreRead(json, m, pairs[1..], close, done + [Entry(Str(pairs[0].key), Meaning(pairs[0].value))], all, end);
    }
  }

  lemma KeyStep(json: string, i: nat, p: Pair, j: nat, k: nat, entries: seq<Entry>)
    requires PairReadable(p) && At(json, i, p.before) && j == i + |p.before|
    requires At(json, j, Quote(p.key)) && k == j + |Quote(p.key)|
    ensures ParseMap(json, i, Err, entries) == ParseMap(json, k, Str(p.key), entries)
  {
    StringReadsBack(json, j, p.key);
    GapSkipped(json, i, p.before);
    MapKeyStep(json, i, entries, Str(p.key), k);
  }

  lemma {:induction false} ValueStep(json: string, k: nat, p: Pair, l: nat, m: nat, entries: seq<Entry>)
    requires PairReadable(p) && At(json, k, p.between) && l == k + |p.between| && At(json, l, Text(p.value))
    requires m == l + |Text(p.value)| && m < |json| && !IsDigit(json[m])
    ensures ParseMap(json, k, Str(p.key), entries) ==
              ParseMap(json, m, Err, Insert(entries, Str(p.key), Meaning(p.value)))
    decreases p, 0
  {
    TextIsRead(json, l, p.value);
    GapSkipped(json, k, p.between);
    MapValueStep(json, k, entries, Str(p.key), Meaning(p.value), m);
  }

  /** One pair is read as its key and its value, and put into the map. */
  lemma {:induction false} PairStep(json: string, i: nat, p: Pair, j: nat, k: nat, l: nat, m: nat, done: seq<Entry>)
    requires PairReadable(p) && PairAt(json, i, p, j, k, l, m)
    ensures ParseMap(json, i, Err, InsertAll(done)) ==
              ParseMap(json, m, Err, InsertAll(done + [Entry(Str(p.key), Meaning(p.value))]))
    decreases p, 1
  {
    KeyStep(json, i, p, j, k, InsertAll(done));
    ValueStep(json, k, p, l, m, InsertAll(done));
    InsertAllNext(done, Entry(Str(p.key), Meaning(p.value)));
  }

  // ---------- The standard, and the printer ----------

  predicate IsSpace(c: char) { c == ' ' || c == '\t' || c == '\n' || c == '\r' }

  ghost predicate Spaces(s: string) { forall k :: 0 <= k < |s| ==> IsSpace(s[k]) }

  /** A structural character with white space around it. */
  ghost predicate Separates(gap: string, c: char) {
    exists a :: 0 <= a < |gap| && gap[a] == c && Spaces(gap[..a]) && Spaces(gap[a + 1..])
  }

  /** Characters that stand for themselves in a string: section 7 of RFC 8259. */
  ghost predicate Unescaped(s: string) {
    forall k :: 0 <= k < |s| ==> s[k] != '"' && s[k] != '\\' && s[k] as int >= 0x20
  }

  /** The grammar of RFC 8259 without literals, fractions, signs and escapes: values separated by commas, names
      separated from values by colons (sections 4 and 5), no leading zero (section 6). */
  ghost predicate Standard(x: Syntax)
    decreases x
  {
    match x
    case Quoted(s) => Unescaped(s)
    case Digits(text) => text != "" && AllDigits(text) && (text[0] == '0' ==> |text| == 1)
    case Items(items, close) =>
      && Spaces(close)
      && forall k :: 0 <= k < |items| ==>
           (if k == 0 then Spaces(items[k].gap) else Separates(items[k].gap, ',')) && Standard(items[k].part)
    case Pairs(pairs, close) =>
      && Spaces(close)
      && forall k :: 0 <= k < |pairs| ==>
           && (if k == 0 then Spaces(pairs[k].before) else Separates(pairs[k].before, ','))
           && Unescaped(pairs[k].key) && Separates(pairs[k].between, ':') && Standard(pairs[k].value)
  }

  /** All ints of the text fit. */
  ghost predicate IntsFit(x: Syntax)
    decreases x
  {
    match x
    case Quoted(_) => true
    case Digits(text) => AllDigits(text) ==> Value(text) <= INT_MAX
    case Items(items, _) => forall k :: 0 <= k < |items| ==> IntsFit(items[k].part)
    case Pairs(pairs, _) => forall k :: 0 <= k < |pairs| ==> IntsFit(pairs[k].value)
  }

  lemma GapIsFiller(gap: string, c: char)
    requires Spaces(gap) || (Separates(gap, c) && IsFiller(c))
    ensures AllFiller(gap)
  {
    if !Spaces(gap) {
      var a :| 0 <= a < |gap| && gap[a] == c && Spaces(gap[..a]) && Spaces(gap[a + 1..]);
      forall k | 0 <= k < |gap| ensures IsFiller(gap[k]) {
        if k < a {
          assert gap[k] == gap[..a][k];
        } else if k > a {
          assert gap[k] == gap[a + 1..][k - a - 1];
        }
      }
    }
  }

  /** Every standard text whose ints fit is readable, so `TextIsRead` says what the reader makes of it. */
  lemma {:induction false} StandardIsReadable(x: Syntax)
    requires Standard(x) && IntsFit(x)
    ensures Readable(x)
    decreases x
  {
    match x
    case Quoted(s) =>
    case Digits(text) =>
    case Items(items, close) =>
      GapIsFiller(close, ',');
      forall k | 0 <= k < |items| ensures ItemReadable(items[k]) && (k > 0 ==> items[k].gap != "") {
        GapIsFiller(items[k].gap, ',');
        StandardIsReadable(items[k].part);
      }
    case Pairs(pairs, close) =>
      GapIsFiller(close, ',');
      forall k | 0 <= k < |pairs| ensures PairReadable(pairs[k]) {
        GapIsFiller(pairs[k].before, ',');
        GapIsFiller(pairs[k].between, ':');
        StandardIsReadable(pairs[k].value);
      }
  }

  /** How a value is printed: commas between the parts, and a colon between spaces after a key. */
  ghost function Printed(v: JsonVal): Syntax
    requires WellFormed(v)
    decreases v, 1
  {
    match v
    case Str(s) => Quoted(s)
    case Num(_, text) => Digits(text)
    case List(items) => Items(PrintedItems(items, ""), "")
    case Map(entries) => Pairs(PrintedPairs(entries, ""), "")
  }

  ghost function PrintedItems(items: seq<JsonVal>, gap: string): (r: seq<Item>)
    requires forall x :: x in items ==> WellFormed(x)
    ensures |r| == |items|
    ensures forall k :: 0 <= k < |items| ==> r[k] == Item(if k == 0 then gap else ",", Printed(items[k]))
    decreases items, 0
  {
    if items == [] then [] else [Item(gap, Printed(items[0]))] + PrintedItems(items[1..], ",")
  }

  ghost function PrintedPairs(entries: seq<Entry>, gap: string): (r: seq<Pair>)
    requires forall e :: e in entries ==> EntryWellFormed(e)
    ensures |r| == |entries|
    ensures forall k :: 0 <= k < |entries| ==>
              EntryWellFormed(entries[k]) && r[k] == PrintedPair(entries[k], if k == 0 then gap else ",")
    decreases entries, 0
  {
    if entries == [] then []
    else [PrintedPair(entries[0], gap)] + PrintedPairs(entries[1..], ",")
  }

  ghost function PrintedPair(e: Entry, gap: string): Pair
    requires EntryWellFormed(e)
    decreases e, 0
  {
    Pair(gap, e.key.str, " : ", Printed(e.value))
  }

  lemma {:induction false} PrintedText(v: JsonVal)
    requires WellFormed(v)
    ensures Text(Printed(v)) == Dump(v)
    decreases v, 1
  {
    match v
    case Str(s) =>
    case Num(_, text) =>
    case List(items) =>
      PrintedItemsText(items, "");
    case Map(entries) =>
      PrintedPairsText(entries, "");
  }

  lemma {:induction false} PrintedItemsText(items: seq<JsonVal>, gap: string)
    requires (forall x :: x in items ==> WellFormed(x)) && (gap == "" || gap == ",")
    ensures ItemsText(PrintedItems(items, gap)) == if gap == "" then Join(DumpAll(items)) else JoinMore(DumpAll(items))
    decreases items, 0
  {
    if items != [] {
      PrintedText(items[0]);
      PrintedItemsText(items[1..], ",");
      var parts := DumpAll(items);
      assert PrintedItems(items, gap)[1..] == PrintedItems(items[1..], ",");
      assert parts[0] == Dump(items[0]) && parts[1..] == DumpAll(items[1..]);
      PartsText(gap, parts);
    }
  }

  lemma PartsText(gap: string, parts: seq<string>)
    requires parts != [] && (gap == "" || gap == ",")
    ensures gap + (parts[0] + JoinMore(parts[1..])) == if gap == "" then Join(parts) else JoinMore(parts)
  {
    if gap == "" {
      assert "" + (parts[0] + JoinMore(parts[1..])) == parts[0] + JoinMore(parts[1..]);
    }
  }

  lemma {:induction false} EntryText(e: Entry, more: string)
    requires EntryWellFormed(e)
    ensures Quote(e.key.str) + (" : " + (Text(Printed(e.value)) + more)) == DumpEntry(e) + more
    decreases e, 0
  {
    PrintedText(e.value);
    var key, value := Dump(e.key), Dump(e.value);
    assert key == Quote(e.key.str) && DumpEntry(e) == key + " : " + value;
    FourParts(key, " : ", value, more);
  }

  lemma FourParts(a: string, b: string, c: string, d: string)
    ensures a + (b + (c + d)) == a + b + c + d
  {
  }

  lemma {:induction false} PrintedPairsText(entries: seq<Entry>, gap: string)
    requires (forall e :: e in entries ==> EntryWellFormed(e)) && (gap == "" || gap == ",")
    ensures PairsText(PrintedPairs(entries, gap)) ==
              if gap == "" then Join(DumpEntries(entries)) else JoinMore(DumpEntries(entries))
    decreases entries, 0
  {
    if entries != [] {
      assert EntryWellFormed(entries[0]);
      PrintedPairsText(entries[1..], ",");
      var parts := DumpEntries(entries);
      assert PrintedPairs(entries, gap)[1..] == PrintedPairs(entries[1..], ",");
      assert parts[0] == DumpEntry(entries[0]) && parts[1..] == DumpEntries(entries[1..]);
      EntryText(entries[0], JoinMore(parts[1..]));
      PartsText(gap, parts);
    }
  }

  /** Strings and keys hold only characters that need no escape. */
  ghost predicate PlainStrings(v: JsonVal)
    decreases v
  {
    match v
    case Err => true
    case Str(s) => Unescaped(s)
    case Num(_, _) => true
    case List(items) => forall k :: 0 <= k < |items| ==> PlainStrings(items[k])
    case Map(entries) => forall k :: 0 <= k < |entries| ==> EntryPlain(entries[k])
  }

  ghost predicate EntryPlain(e: Entry)
    decreases e
  {
    (e.key.Str? ==> Unescaped(e.key.str)) && PlainStrings(e.value)
  }

  lemma {:induction false} DecimalStarts(n: nat)
    ensures n > 0 ==> Decimal(n)[0] != '0'
  {
    if n >= 10 {
      DecimalStarts(n / 10);
      assert Decimal(n)[0] == Decimal(n / 10)[0];
    }
  }

  /** What is printed is standard JSON. */
  lemma {:induction false} PrintedIsStandard(v: JsonVal)
    requires WellFormed(v) && PlainStrings(v)
    ensures Standard(Printed(v))
    decreases v
  {
    match v
    case Str(s) =>
    case Num(n, text) =>
      DecimalStarts(n);
    case List(items) =>
      CommaSeparates();
      forall k | 0 <= k < |items| ensures Standard(Printed(items[k])) {
        PrintedIsStandard(items[k]);
      }
    case Map(entries) =>
      CommaSeparates();
      forall k | 0 <= k < |entries|
        ensures EntryWellFormed(entries[k]) && Unescaped(entries[k].key.str) && Standard(Printed(entries[k].value))
      {
        assert EntryWellFormed(entries[k]) && EntryPlain(entries[k]);
        PrintedIsStandard(entries[k].value);
      }
  }

  lemma CommaSeparates()
    ensures Separates(",", ',') && Separates(" : ", ':')
  {
    assert ","[0] == ',' && ","[..0] == "" && ","[1..] == "";
    assert " : "[1] == ':' && " : "[..1] == " " && " : "[2..] == " ";
  }

  /** parse_to_json on a whole text. */
  method ParseToJson(json: string) returns (r: Outcome)
    ensures r == Parse(json, 0)
    ensures forall x: Syntax :: Readable(x) && json == Text(x) ==> r == Done(Meaning(x), |json|)
  {
    r := JsonReader.Read(json, 0);
    forall x: Syntax | Readable(x) && json == Text(x) ensures r == Done(Meaning(x), |json|) {
      TextIsRead(json, 0, x);
    }
  }
}
