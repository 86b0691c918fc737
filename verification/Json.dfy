/** The JSON reader and printer of include/mxnet/lib_api.h. */
module Json {

  datatype JsonVal =
    | Err
    | Str(str: string)
    | Num(num: int, text: string)
    | List(items: seq<JsonVal>)
    | Map(entries: seq<Entry>)

  datatype Entry = Entry(key: JsonVal, value: JsonVal)

  /** How a call ends: with a value and an index, with an exception, or not at all. */
  datatype Outcome = Done(val: JsonVal, idx: nat) | Throws | Hangs

  const INT_MAX := 2147483647

  predicate IsDigit(c: char) { '0' <= c <= '9' }

  predicate IsCloser(c: char) { c == ']' || c == '}' }

  /** A character that parse() steps over. */
  predicate IsFiller(c: char) { !IsDigit(c) && !IsCloser(c) && c != '"' && c != '[' && c != '{' }

  // ---------- Numbers ----------

  function DigitValue(c: char): nat
    requires IsDigit(c)
  {
    (c as int - '0' as int) as nat
  }

  ghost predicate AllDigits(s: string) { forall k :: 0 <= k < |s| ==> IsDigit(s[k]) }

  function Value(s: string): nat
    requires AllDigits(s)
  {
    if s == [] then 0 else Value(s[..|s| - 1]) * 10 + DigitValue(s[|s| - 1])
  }

  /** First index at or after i whose character is not a digit. */
  function EndOfDigits(json: string, i: nat): (j: nat)
    requires i <= |json|
    ensures i <= j <= |json|
    ensures forall k :: i <= k < j ==> IsDigit(json[k])
    ensures j < |json| ==> !IsDigit(json[j])
    decreases |json| - i
  {
    if i < |json| && IsDigit(json[i]) then EndOfDigits(json, i + 1) else i
  }

  function ParseNum(json: string, i: nat): Outcome
    requires i <= |json|
  {
    var j := EndOfDigits(json, i);
    var text := json[i..j];
    if text == "" || Value(text) > INT_MAX then Throws else Done(Num(Value(text), text), j)
  }

  // ---------- Strings ----------

  /** First index at or after i holding a quote, or the end. */
  function EndOfString(json: string, i: nat): (j: nat)
    requires i <= |json|
    ensures i <= j <= |json|
    ensures forall k :: i <= k < j ==> json[k] != '"'
    ensures j < |json| ==> json[j] == '"'
    decreases |json| - i
  {
    if i < |json| && json[i] != '"' then EndOfString(json, i + 1) else i
  }

  function ParseString(json: string, i: nat): Outcome
    requires i <= |json|
  {
    var j := EndOfString(json, i);
    if j < |json| then Done(Str(json[i..j]), j + 1) else Done(Err, j)
  }

  // ---------- Maps ----------

  predicate StrLess(a: string, b: string) {
    b != [] && (a == [] || a[0] < b[0] || (a[0] == b[0] && StrLess(a[1..], b[1..])))
  }

  /** Order of the keys that a map can have without breaking the order: strings and numbers. */
  predicate KeyLess(a: JsonVal, b: JsonVal) {
    match a
    case Str(s) => b.Str? && StrLess(s, b.str)
    case Num(n, _) => b.Num? && n < b.num
    case _ => false
  }

  /** Position of the first entry whose key is not less than k. */
  function LowerBound(entries: seq<Entry>, k: JsonVal): (p: nat)
    ensures p <= |entries|
  {
    if entries == [] || !KeyLess(entries[0].key, k) then 0 else 1 + LowerBound(entries[1..], k)
  }

  /** map[k] = v on entries kept in key order. */
  function Insert(entries: seq<Entry>, k: JsonVal, v: JsonVal): seq<Entry> {
    var p := LowerBound(entries, k);
    if p < |entries| && !KeyLess(k, entries[p].key) then entries[p := Entry(entries[p].key, v)]
    else entries[..p] + [Entry(k, v)] + entries[p..]
  }

  // ---------- The recursive descent ----------

  /** A value at or after i. Closers are left for the caller, who may not want them. */
  function Parse(json: string, i: nat): (r: Outcome)
    ensures r.Done? ==> r.idx >= i && (r.val != Err ==> r.idx > i)
    ensures r.Done? && r.idx == i && i < |json| ==> IsCloser(json[i])
    ensures r.Done? && r.val == Err && r.idx < |json| ==> IsCloser(json[r.idx])
    decreases |json| - i, 1
  {
    if i >= |json| then Done(Err, i)
    else if json[i] == '"' then Continue(json, i, ParseString(json, i + 1))
    else if IsDigit(json[i]) then ParseNum(json, i)
    else if json[i] == '[' then Continue(json, i, ParseList(json, i + 1, []))
    else if json[i] == '{' then Continue(json, i, ParseMap(json, i + 1, Err, []))
    else if IsCloser(json[i]) then Done(Err, i)
    else Parse(json, i + 1)
  }

  /** After a part that yields no value, parse() steps on. */
  function Continue(json: string, i: nat, part: Outcome): (r: Outcome)
    requires i < |json| && (part.Done? ==> part.idx > i)
    ensures r.Done? ==> r.idx > i
    ensures r.Done? && r.val == Err && r.idx < |json| ==> IsCloser(json[r.idx])
    decreases |json| - i, 0
  {
    if part.Done? && part.val == Err then Parse(json, part.idx + 1) else part
  }

  function ParseList(json: string, i: nat, items: seq<JsonVal>): (r: Outcome)
    ensures r.Done? ==> r.idx >= i && (r.val == Err ==> r.idx >= |json|)
    decreases |json| - i, 2
  {
    if i >= |json| then Done(Err, i)
    else if json[i] == ']' then Done(List(items), i + 1)
    else
      var r := Parse(json, i);
      if !r.Done? then r
      else if r.idx == i then Hangs   // the same iteration forever
      else ParseList(json, r.idx, if r.val == Err then items else items + [r.val])
  }

  function ParseMap(json: string, i: nat, key: JsonVal, entries: seq<Entry>): (r: Outcome)
    ensures r.Done? ==> r.idx >= i && (r.val == Err ==> r.idx >= |json|)
    decreases |json| - i, 2
  {
    if i >= |json| then Done(Err, i)
    else if json[i] == '}' then Done(Map(entries), i + 1)
    else
      var r := Parse(json, i);
      if !r.Done? then r
      else if r.idx == i then Hangs   // the index never moves again
      else if key == Err then ParseMap(json, r.idx, r.val, entries)
      else ParseMap(json, r.idx, Err, Insert(entries, key, r.val))
  }

  // ---------- The printer ----------

  function Dump(v: JsonVal): string
    decreases v, 1
  {
    match v
    case Err => "json(Error)"
    case Str(s) => "\"" + s + "\""
    case Num(_, text) => text
    case List(items) => "[" + Join(DumpAll(items)) + "]"
    case Map(entries) => "{" + Join(DumpEntries(entries)) + "}"
  }

  /** The parts separated by commas. */
  function Join(parts: seq<string>): string {
    if parts == [] then "" else parts[0] + JoinMore(parts[1..])
  }

  function JoinMore(parts: seq<string>): string {
    if parts == [] then "" else "," + parts[0] + JoinMore(parts[1..])
  }

  function DumpAll(items: seq<JsonVal>): (parts: seq<string>)
    ensures |parts| == |items|
    ensures forall k :: 0 <= k < |items| ==> parts[k] == Dump(items[k])
    decreases items, 0
  {
    if items == [] then [] else [Dump(items[0])] + DumpAll(items[1..])
  }

  function DumpEntry(e: Entry): string
    decreases e, 0
  {
    Dump(e.key) + " : " + Dump(e.value)
  }

  function DumpEntries(entries: seq<Entry>): (parts: seq<string>)
    ensures |parts| == |entries|
    ensures forall k :: 0 <= k < |entries| ==> parts[k] == DumpEntry(entries[k])
    decreases entries, 0
  {
    if entries == [] then [] else [DumpEntry(entries[0])] + DumpEntries(entries[1..])
  }

  // ---------- Values that print and read back ----------

  ghost predicate QuoteFree(s: string) { forall k :: 0 <= k < |s| ==> s[k] != '"' }

  function Decimal(n: nat): (s: string)
    ensures |s| > 0 && AllDigits(s) && Value(s) == n
  {
    var d := [('0' as int + n % 10) as char];
    if n < 10 then
      d
    else
      var s := Decimal(n / 10) + d;
      assert s[..|s| - 1] == Decimal(n / 10);
      s
  }

  /** Value trees of quote-free strings, ints, lists and maps with string keys in order. */
  ghost predicate WellFormed(v: JsonVal)
    decreases v
  {
    match v
    case Err => false
    case Str(s) => QuoteFree(s)
    case Num(n, text) => 0 <= n <= INT_MAX && text == Decimal(n)
    case List(items) => forall x :: x in items ==> WellFormed(x)
    case Map(entries) =>
      && (forall e :: e in entries ==> EntryWellFormed(e))
      && (forall p, q :: 0 <= p < q < |entries| ==> KeyLess(entries[p].key, entries[q].key))
  }

  ghost predicate EntryWellFormed(e: Entry)
    decreases e
  {
    e.key.Str? && QuoteFree(e.key.str) && WellFormed(e.value)
  }

  /** `s` stands in the text at index i. */
  ghost predicate At(json: string, i: nat, s: string) {
    i + |s| <= |json| && forall k :: 0 <= k < |s| ==> s[k] == json[i + k]
  }

  lemma AtConcat(json: string, i: nat, a: string, b: string)
    ensures At(json, i, a + b) <==> At(json, i, a) && At(json, i + |a|, b)
  {
    var ab := a + b;
    if At(json, i, ab) {
      forall k | 0 <= k < |a| ensures a[k] == json[i + k] {
        assert ab[k] == a[k];
      }
      forall k | 0 <= k < |b| ensures b[k] == json[i + |a| + k] {
        assert ab[|a| + k] == b[k];
      }
    }
  }

  lemma AtChar(json: string, i: nat, c: char)
    ensures At(json, i, [c]) <==> i < |json| && json[i] == c
  {
    assert [c][0] == c;
  }

  lemma AtSlice(json: string, i: nat, s: string)
    requires At(json, i, s)
    ensures json[i..i + |s|] == s
  {
  }

  lemma EndOfDigitsIs(json: string, i: nat, j: nat)
    requires i <= j <= |json| && (forall k :: i <= k < j ==> IsDigit(json[k])) && (j < |json| ==> !IsDigit(json[j]))
    ensures EndOfDigits(json, i) == j
  {
    var e := EndOfDigits(json, i);
    assert e < |json| ==> !IsDigit(json[e]);
  }

  lemma EndOfStringIs(json: string, i: nat, j: nat)
    requires i <= j < |json| && (forall k :: i <= k < j ==> json[k] != '"') && json[j] == '"'
    ensures EndOfString(json, i) == j
  {
    var e := EndOfString(json, i);
    assert e < |json| ==> json[e] == '"';
  }

  lemma DigitsReadBack(json: string, i: nat, s: string)
    requires |s| > 0 && AllDigits(s) && Value(s) <= INT_MAX && At(json, i, s)
    requires i + |s| < |json| ==> !IsDigit(json[i + |s|])
    ensures Parse(json, i) == Done(Num(Value(s), s), i + |s|)
  {
    var j := i + |s|;
    forall k | i <= k < j ensures IsDigit(json[k]) {
      assert s[k - i] == json[k];
    }
    EndOfDigitsIs(json, i, j);
    AtSlice(json, i, s);
  }

  lemma NumberReadsBack(json: string, i: nat, n: nat, text: string)
    requires n <= INT_MAX && text == Decimal(n) && At(json, i, text)
    requires i + |text| < |json| ==> !IsDigit(json[i + |text|])
    ensures Parse(json, i) == Done(Num(n, text), i + |text|)
  {
    DigitsReadBack(json, i, text);
  }

  lemma StringReadsBack(json: string, i: nat, s: string)
    requires QuoteFree(s) && At(json, i, "\"" + s + "\"")
    ensures Parse(json, i) == Done(Str(s), i + |s| + 2)
  {
    AtConcat(json, i, "\"" + s, "\"");
    AtConcat(json, i, "\"", s);
    AtChar(json, i, '"');
    AtChar(json, i + 1 + |s|, '"');
    var j := i + 1 + |s|;
    forall k | i + 1 <= k < j ensures json[k] != '"' {
      assert s[k - i - 1] == json[k];
    }
    EndOfStringIs(json, i + 1, j);
    AtSlice(json, i + 1, s);
  }

  // ---------- Reading back what was printed ----------

  /** The text does not go on with a digit after a number. */
  ghost predicate Ends(json: string, j: nat, v: JsonVal) {
    v.Num? && j < |json| ==> !IsDigit(json[j])
  }

  lemma FillerSkipped(json: string, i: nat)
    requires i < |json| && IsFiller(json[i])
    ensures Parse(json, i) == Parse(json, i + 1)
  {
  }

  lemma {:induction false} LowerBoundEnd(entries: seq<Entry>, k: JsonVal)
    requires forall p :: 0 <= p < |entries| ==> KeyLess(entries[p].key, k)
    ensures LowerBound(entries, k) == |entries|
  {
    if entries != [] {
      LowerBoundEnd(entries[1..], k);
    }
  }

  /** A key greater than all others goes to the end. */
  lemma InsertLast(entries: seq<Entry>, k: JsonVal, v: JsonVal)
    requires forall p :: 0 <= p < |entries| ==> KeyLess(entries[p].key, k)
    ensures Insert(entries, k, v) == entries + [Entry(k, v)]
  {
    LowerBoundEnd(entries, k);
    assert entries[..|entries|] == entries && entries[|entries|..] == [];
  }

  // Where the parts of a printed value stand.

  lemma FirstChar(json: string, i: nat, s: string)
    requires |s| > 0 && At(json, i, s)
    ensures i < |json| && json[i] == s[0]
  {
    assert s[0] == json[i];
  }

  lemma BracketLayout(json: string, i: nat, open: char, body: string, close: char)
    requires At(json, i, [open] + body + [close])
    ensures i < |json| && json[i] == open && At(json, i + 1, body + [close])
  {
    assert [open] + body + [close] == [open] + (body + [close]);
    AtConcat(json, i, [open], body + [close]);
    AtChar(json, i, open);
  }

  /** The character after a part: a separator or the closing bracket, but no digit. */
  lemma MoreStarts(parts: seq<string>, close: string)
    requires |close| == 1 && IsCloser(close[0])
    ensures var s := JoinMore(parts) + close;
            |s| > 0 && s[0] == if parts == [] then close[0] else ','
  {
  }

  lemma HeadLayout(json: string, i: nat, s: string, more: string)
    requires At(json, i, s + more) && |more| > 0
    ensures At(json, i, s) && At(json, i + |s|, more) && i + |s| < |json| && json[i + |s|] == more[0]
  {
    AtConcat(json, i, s, more);
    FirstChar(json, i + |s|, more);
  }

  lemma PartsLayout(json: string, i: nat, parts: seq<string>, close: string)
    requires parts != [] && |close| == 1 && IsCloser(close[0]) && At(json, i, Join(parts) + close)
    ensures var j := i + |parts[0]|;
            && At(json, i, parts[0]) && At(json, j, JoinMore(parts[1..]) + close)
            && |Join(parts)| == |parts[0]| + |JoinMore(parts[1..])|
            && j < |json| && json[j] == if |parts| == 1 then close[0] else ','
  {
    var more := JoinMore(parts[1..]);
    MoreStarts(parts[1..], close);
    assert Join(parts) + close == parts[0] + (more + close);
    HeadLayout(json, i, parts[0], more + close);
  }

  lemma MoreIsComma(parts: seq<string>)
    requires parts != []
    ensures JoinMore(parts) == "," + Join(parts)
  {
  }

  lemma MorePartsLayout(json: string, i: nat, parts: seq<string>, close: string)
    requires parts != [] && |close| == 1 && IsCloser(close[0]) && At(json, i, JoinMore(parts) + close)
    ensures i < |json| && json[i] == ',' && At(json, i + 1, Join(parts) + close)
    ensures |JoinMore(parts)| == 1 + |Join(parts)|
  {
    MoreIsComma(parts);
    assert "," + Join(parts) + close == "," + (Join(parts) + close);
    AtConcat(json, i, ",", Join(parts) + close);
    AtChar(json, i, ',');
  }

  /** Offset of part k in the joined parts. */
  ghost function Offset(parts: seq<string>, k: nat): nat
    requires k <= |parts|
  {
    if k == 0 then 0 else Offset(parts, k - 1) + |parts[k - 1]| + 1
  }

  lemma {:induction false} TailStands(json: string, i: nat, parts: seq<string>, close: string, k: nat)
    requires k < |parts| && |close| == 1 && IsCloser(close[0]) && At(json, i, Join(parts) + close)
    ensures At(json, i + Offset(parts, k), Join(parts[k..]) + close)
    ensures |Join(parts)| == Offset(parts, k) + |Join(parts[k..])|
    decreases k
  {
    if k == 0 {
      assert parts[0..] == parts;
    } else {
      var tail, p := parts[k - 1..], i + Offset(parts, k - 1);
      TailStands(json, i, parts, close, k - 1);
      PartsLayout(json, p, tail, close);
      assert tail[1..] == parts[k..];
      MorePartsLayout(json, p + |tail[0]|, parts[k..], close);
    }
  }

  /** Part k stands at its offset, followed by a comma or, if it is the last, by the closing bracket. */
  ghost predicate PartAt(json: string, parts: seq<string>, k: nat, p: nat, close: char)
    requires k < |parts|
  {
    && At(json, p, parts[k]) && p + |parts[k]| < |json|
    && json[p + |parts[k]|] == if k + 1 < |parts| then ',' else close
  }

  lemma PartStands(json: string, i: nat, parts: seq<string>, close: string, k: nat)
    requires k < |parts| && |close| == 1 && IsCloser(close[0]) && At(json, i, Join(parts) + close)
    ensures PartAt(json, parts, k, i + Offset(parts, k), close[0])
  {
    TailStands(json, i, parts, close, k);
    PartsLayout(json, i + Offset(parts, k), parts[k..], close);
  }

  lemma LastPartEnds(json: string, i: nat, parts: seq<string>, close: string)
    requires parts != [] && |close| == 1 && IsCloser(close[0]) && At(json, i, Join(parts) + close)
    ensures |Join(parts)| + 1 == Offset(parts, |parts|)
  {
    var k := |parts| - 1;
    TailStands(json, i, parts, close, k);
    assert parts[k..] == [parts[k]] && [parts[k]][1..] == [];
  }

  lemma EntryLayout(json: string, i: nat, e: Entry)
    requires At(json, i, DumpEntry(e))
    ensures var k := Dump(e.key);
            && At(json, i, k) && At(json, i + |k| + 3, Dump(e.value)) && |DumpEntry(e)| == |k| + 3 + |Dump(e.value)|
            && i + |k| + 3 <= |json| && json[i + |k|] == ' ' && json[i + |k| + 1] == ':' && json[i + |k| + 2] == ' '
  {
    var k, v := Dump(e.key), Dump(e.value);
    AtConcat(json, i, k + " : ", v);
    AtConcat(json, i, k, " : ");
    var sep := " : ";
    assert sep[0] == ' ' && sep[1] == ':' && sep[2] == ' ';
  }

  // What the parser does at each of them.

  lemma OpenList(json: string, i: nat)
    requires i < |json| && json[i] == '[' && ParseList(json, i + 1, []).Done? && ParseList(json, i + 1, []).val != Err
    ensures Parse(json, i) == ParseList(json, i + 1, [])
  {
  }

  lemma OpenMap(json: string, i: nat)
    requires i < |json| && json[i] == '{'
    requires ParseMap(json, i + 1, Err, []).Done? && ParseMap(json, i + 1, Err, []).val != Err
    ensures Parse(json, i) == ParseMap(json, i + 1, Err, [])
  {
  }

  lemma CloserEndsValue(json: string, i: nat)
    requires i < |json| && Parse(json, i).Done? && Parse(json, i).val != Err
    ensures !IsCloser(json[i])
  {
  }

  lemma ListStep(json: string, i: nat, done: seq<JsonVal>, v: JsonVal, j: nat)
    requires i < |json| && Parse(json, i) == Done(v, j) && v != Err
    ensures ParseList(json, i, done) == ParseList(json, j, done + [v])
  {
    CloserEndsValue(json, i);
  }

  lemma CommaListStep(json: string, i: nat, done: seq<JsonVal>, v: JsonVal, j: nat)
    requires i < |json| && json[i] == ',' && Parse(json, i + 1) == Done(v, j) && v != Err
    ensures ParseList(json, i, done) == ParseList(json, j, done + [v])
  {
    FillerSkipped(json, i);
    ListStep(json, i, done, v, j);
  }

  lemma MapKeyStep(json: string, i: nat, done: seq<Entry>, k: JsonVal, j: nat)
    requires i < |json| && Parse(json, i) == Done(k, j) && k != Err
    ensures ParseMap(json, i, Err, done) == ParseMap(json, j, k, done)
  {
    CloserEndsValue(json, i);
  }

  lemma MapValueStep(json: string, i: nat, done: seq<Entry>, k: JsonVal, v: JsonVal, j: nat)
    requires i < |json| && Parse(json, i) == Done(v, j) && v != Err && k != Err
    ensures ParseMap(json, i, k, done) == ParseMap(json, j, Err, Insert(done, k, v))
  {
    CloserEndsValue(json, i);
  }

  /** Inside any text, a printed value is read back and parsing stops exactly at its end. */
  lemma {:induction false} ReadsBack(json: string, i: nat, v: JsonVal)
    requires WellFormed(v) && At(json, i, Dump(v)) && Ends(json, i + |Dump(v)|, v)
    ensures Parse(json, i) == Done(v, i + |Dump(v)|)
    decreases v, 2
  {
    match v
    case Str(s) =>
      StringReadsBack(json, i, s);
    case Num(n, text) =>
      NumberReadsBack(json, i, n, text);
    case List(items) =>
      BracketLayout(json, i, '[', Join(DumpAll(items)), ']');
      ItemsReadBack(json, i + 1, items, DumpAll(items));
      OpenList(json, i);
    case Map(entries) =>
      BracketLayout(json, i, '{', Join(DumpEntries(entries)), '}');
      EntriesReadBack(json, i + 1, entries, DumpEntries(entries));
      OpenMap(json, i);
  }

  /** Where reading stands before part k: at the start, or at the comma before it. */
  ghost function Before(i: nat, parts: seq<string>, k: nat): nat
    requires k <= |parts|
  {
    if k == 0 then i else i + Offset(parts, k) - 1
  }

  /** Item k is read at its place. */
  ghost predicate ItemRead(json: string, i: nat, parts: seq<string>, items: seq<JsonVal>, k: nat)
    requires k < |parts| == |items|
  {
    var p := i + Offset(parts, k);
    && p < |json| && p + |parts[k]| < |json| && items[k] != Err && Parse(json, p) == Done(items[k], p + |parts[k]|)
    && json[p + |parts[k]|] == if k + 1 < |parts| then ',' else ']'
  }

  lemma ItemStep(json: string, i: nat, parts: seq<string>, items: seq<JsonVal>, k: nat)
    requires k < |parts| == |items| && ItemRead(json, i, parts, items, k)
    requires k > 0 ==> ItemRead(json, i, parts, items, k - 1)
    ensures ParseList(json, Before(i, parts, k), items[..k]) == ParseList(json, Before(i, parts, k + 1), items[..k + 1])
  {
    var q := i + Offset(parts, k) + |parts[k]|;
    assert items[..k + 1] == items[..k] + [items[k]];
    assert Before(i, parts, k + 1) == q;
    if k == 0 {
      ListStep(json, i, items[..0], items[0], q);
    } else {
      var p := i + Offset(parts, k);
      assert Before(i, parts, k) == p - 1 && json[p - 1] == ',';
      CommaListStep(json, p - 1, items[..k], items[k], q);
    }
  }

  lemma {:induction false} ItemsParse(json: string, i: nat, parts: seq<string>, items: seq<JsonVal>, k: nat)
    requires k <= |parts| == |items| && items != []
    requires forall m :: 0 <= m < |items| ==> ItemRead(json, i, parts, items, m)
    ensures ParseList(json, Before(i, parts, k), items[..k]) == Done(List(items), i + Offset(parts, |parts|))
    decreases |items| - k
  {
    if k == |items| {
      assert ItemRead(json, i, parts, items, k - 1);
      assert items[..k] == items;
    } else {
      assert ItemRead(json, i, parts, items, k) && (k > 0 ==> ItemRead(json, i, parts, items, k - 1));
      ItemStep(json, i, parts, items, k);
      ItemsParse(json, i, parts, items, k + 1);
    }
  }

  lemma {:induction false} ItemsReadBack(json: string, i: nat, items: seq<JsonVal>, parts: seq<string>)
    requires (forall x :: x in items ==> WellFormed(x)) && parts == DumpAll(items) && At(json, i, Join(parts) + "]")
    ensures ParseList(json, i, []) == Done(List(items), i + |Join(parts)| + 1)
    decreases items
  {
    if items == [] {
      FirstChar(json, i, Join(parts) + "]");
    } else {
      forall k: nat | k < |items| ensures ItemRead(json, i, parts, items, k) {
        assert items[k] in items;
        PartStands(json, i, parts, "]", k);
        ItemReadsBack(json, i, items, parts, k);
      }
      LastPartEnds(json, i, parts, "]");
      ItemsParse(json, i, parts, items, 0);
      assert items[..0] == [];
    }
  }

  lemma {:induction false} ItemReadsBack(json: string, i: nat, items: seq<JsonVal>, parts: seq<string>, k: nat)
    requires k < |items| == |parts| && WellFormed(items[k]) && parts[k] == Dump(items[k])
    requires PartAt(json, parts, k, i + Offset(parts, k), ']')
    ensures ItemRead(json, i, parts, items, k)
    decreases items[k], 3
  {
    ReadsBack(json, i + Offset(parts, k), items[k]);
    ReadInside(json, i + Offset(parts, k), items[k]);
  }

  lemma ReadInside(json: string, p: nat, v: JsonVal)
    requires Parse(json, p).Done? && Parse(json, p).val == v && v != Err
    ensures p < |json|
  {
  }

  lemma SeparatorSkipped(json: string, j: nat)
    requires j + 3 <= |json| && json[j] == ' ' && json[j + 1] == ':' && json[j + 2] == ' '
    ensures Parse(json, j) == Parse(json, j + 3)
  {
    FillerSkipped(json, j);
    FillerSkipped(json, j + 1);
    FillerSkipped(json, j + 2);
  }

  lemma KeyReadsBack(json: string, i: nat, e: Entry)
    requires e.key.Str? && QuoteFree(e.key.str) && At(json, i, Dump(e.key))
    ensures i < |json| && Parse(json, i) == Done(e.key, i + |Dump(e.key)|)
  {
    StringReadsBack(json, i, e.key.str);
  }

  lemma {:induction false} ValueReadsBack(json: string, j: nat, v: JsonVal)
    requires WellFormed(v) && j + 3 <= |json| && json[j] == ' ' && json[j + 1] == ':' && json[j + 2] == ' '
    requires At(json, j + 3, Dump(v)) && Ends(json, j + 3 + |Dump(v)|, v)
    ensures Parse(json, j) == Done(v, j + 3 + |Dump(v)|)
    decreases v, 3
  {
    ReadsBack(json, j + 3, v);
    SeparatorSkipped(json, j);
  }

  /** An entry is read at p: its key, and after the separator its value, which ends at q. */
  ghost predicate EntryAt(json: string, p: nat, e: Entry, q: nat) {
    var j := p + |Dump(e.key)|;
    && p < |json| && j < |json| && e.key != Err && e.value != Err
    && Parse(json, p) == Done(e.key, j) && Parse(json, j) == Done(e.value, q)
  }

  lemma EntryStep(json: string, p: nat, e: Entry, done: seq<Entry>, q: nat)
    requires EntryAt(json, p, e, q) && forall k :: 0 <= k < |done| ==> KeyLess(done[k].key, e.key)
    ensures ParseMap(json, p, Err, done) == ParseMap(json, q, Err, done + [e])
  {
    var j := p + |Dump(e.key)|;
    MapKeyStep(json, p, done, e.key, j);
    MapValueStep(json, j, done, e.key, e.value, q);
    InsertLast(done, e.key, e.value);
  }

  /** Entry k is read at its place, and the text goes on as it should. */
  ghost predicate EntryRead(json: string, i: nat, parts: seq<string>, entries: seq<Entry>, k: nat)
    requires k < |parts| == |entries|
  {
    var q := i + Offset(parts, k) + |parts[k]|;
    && EntryAt(json, i + Offset(parts, k), entries[k], q)
    && q < |json| && json[q] == if k + 1 < |parts| then ',' else '}'
  }

  lemma EntryAtIs(json: string, p: nat, e: Entry, q: nat)
    requires p < |json| && e.key != Err && e.value != Err
    requires Parse(json, p) == Done(e.key, p + |Dump(e.key)|)
    requires p + |Dump(e.key)| < |json| && Parse(json, p + |Dump(e.key)|) == Done(e.value, q)
    ensures EntryAt(json, p, e, q)
  {
  }

  /** One printed entry is read as its key, the separator and its value. */
  lemma {:induction false} EntryReadsBack(json: string, i: nat, e: Entry)
    requires EntryWellFormed(e) && At(json, i, DumpEntry(e)) && Ends(json, i + |DumpEntry(e)|, e.value)
    ensures EntryAt(json, i, e, i + |DumpEntry(e)|)
    decreases e, 0
  {
    EntryLayout(json, i, e);
    KeyReadsBack(json, i, e);
    ValueReadsBack(json, i + |Dump(e.key)|, e.value);
    EntryAtIs(json, i, e, i + |DumpEntry(e)|);
  }

  /** A value that is followed by a separator or a closer ends there. */
  lemma EndsBefore(json: string, q: nat, v: JsonVal)
    requires q < |json| && !IsDigit(json[q])
    ensures Ends(json, q, v)
  {
  }

  lemma {:induction false} EntryReadsAt(json: string, i: nat, entries: seq<Entry>, parts: seq<string>, k: nat)
    requires k < |entries| == |parts| && EntryWellFormed(entries[k]) && parts[k] == DumpEntry(entries[k])
    requires PartAt(json, parts, k, i + Offset(parts, k), '}')
    ensures EntryRead(json, i, parts, entries, k)
    decreases entries[k], 1
  {
    var p := i + Offset(parts, k);
    EndsBefore(json, p + |parts[k]|, entries[k].value);
    EntryReadsBack(json, p, entries[k]);
  }

  lemma CommaEntryStep(json: string, c: nat, e: Entry, done: seq<Entry>, q: nat)
    requires c < |json| && json[c] == ',' && EntryAt(json, c + 1, e, q)
    requires forall k :: 0 <= k < |done| ==> KeyLess(done[k].key, e.key)
    ensures ParseMap(json, c, Err, done) == ParseMap(json, q, Err, done + [e])
  {
    var j := c + 1 + |Dump(e.key)|;
    FillerSkipped(json, c);
    MapKeyStep(json, c, done, e.key, j);
    MapValueStep(json, j, done, e.key, e.value, q);
    InsertLast(done, e.key, e.value);
  }

  lemma EntryAdvance(json: string, i: nat, parts: seq<string>, entries: seq<Entry>, k: nat)
    requires k < |parts| == |entries| && EntryRead(json, i, parts, entries, k)
    requires k > 0 ==> EntryRead(json, i, parts, entries, k - 1)
    requires forall p :: 0 <= p < k ==> KeyLess(entries[p].key, entries[k].key)
    ensures ParseMap(json, Before(i, parts, k), Err, entries[..k]) ==
              ParseMap(json, Before(i, parts, k + 1), Err, entries[..k + 1])
  {
    var p, e := i + Offset(parts, k), entries[k];
    var q := p + |parts[k]|;
    assert entries[..k + 1] == entries[..k] + [e];
    assert Before(i, parts, k + 1) == q;
    if k == 0 {
      EntryStep(json, p, e, entries[..k], q);
    } else {
      assert Before(i, parts, k) == p - 1 && json[p - 1] == ',';
      CommaEntryStep(json, p - 1, e, entries[..k], q);
    }
  }

  lemma {:induction false} EntriesParse(json: string, i: nat, parts: seq<string>, entries: seq<Entry>, k: nat)
    requires k <= |parts| == |entries| && entries != []
    requires forall m :: 0 <= m < |entries| ==> EntryRead(json, i, parts, entries, m)
    requires forall p, q :: 0 <= p < q < |entries| ==> KeyLess(entries[p].key, entries[q].key)
    ensures ParseMap(json, Before(i, parts, k), Err, entries[..k]) == Done(Map(entries), i + Offset(parts, |parts|))
    decreases |entries| - k
  {
    if k == |entries| {
      assert EntryRead(json, i, parts, entries, k - 1);
      assert entries[..k] == entries;
    } else {
      assert EntryRead(json, i, parts, entries, k) && (k > 0 ==> EntryRead(json, i, parts, entries, k - 1));
      EntryAdvance(json, i, parts, entries, k);
      EntriesParse(json, i, parts, entries, k + 1);
    }
  }

  lemma {:induction false} EntriesReadBack(json: string, i: nat, entries: seq<Entry>, parts: seq<string>)
    requires WellFormed(Map(entries)) && parts == DumpEntries(entries) && At(json, i, Join(parts) + "}")
    ensures ParseMap(json, i, Err, []) == Done(Map(entries), i + |Join(parts)| + 1)
    decreases entries
  {
    if entries == [] {
      FirstChar(json, i, Join(parts) + "}");
    } else {
      forall k: nat | k < |entries| ensures EntryRead(json, i, parts, entries, k) {
        assert entries[k] in entries;
        PartStands(json, i, parts, "}", k);
        EntryReadsAt(json, i, entries, parts, k);
      }
      LastPartEnds(json, i, parts, "}");
      EntriesParse(json, i, parts, entries, 0);
      assert entries[..0] == [];
    }
  }

  /** parse_to_json(dump(v)) == v for every well-formed value tree. */
  lemma RoundTrip(v: JsonVal)
    requires WellFormed(v)
    ensures Parse(Dump(v), 0) == Done(v, |Dump(v)|)
  {
    ReadsBack(Dump(v), 0, v);
  }
}
