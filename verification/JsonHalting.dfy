/** Which texts make the JSON reader of include/mxnet/lib_api.h hang or throw. */
module JsonHalting {
  import opened Json

  datatype Bracket = Square | Curly

  datatype Fate = Halts | Raises | Loops

  function Opener(c: char): Bracket
    requires c == '[' || c == '{'
  {
    if c == '[' then Square else Curly
  }

  predicate Closes(c: char, b: Bracket) {
    if b.Square? then c == ']' else c == '}'
  }

  /** The fate of reading on at i with these containers open, the innermost last, told by one scan of the text
      with an explicit stack: a closer that does not match the innermost container is fatal, a closer with no
      container open or the end of the first value stops the reader, and so does the end of the text. */
  function Scan(json: string, i: nat, stack: seq<Bracket>): Fate
    decreases |json| - i
  {
    if i >= |json| then Halts
    else if json[i] == '"' then
      var j := EndOfString(json, i + 1);
      if j < |json| then After(json, j + 1, stack, i) else Halts
    else if IsDigit(json[i]) then
      var j := EndOfDigits(json, i);
      if Value(json[i..j]) > INT_MAX then Raises else After(json, j, stack, i)
    else if json[i] == '[' || json[i] == '{' then Scan(json, i + 1, stack + [Opener(json[i])])
    else if IsCloser(json[i]) then
      if stack == [] then Halts
      else if !Closes(json[i], stack[|stack| - 1]) then Loops
      else After(json, i + 1, stack[..|stack| - 1], i)
    else Scan(json, i + 1, stack)
  }

  /** A value has just ended before j. */
  function After(json: string, j: nat, stack: seq<Bracket>, i: nat): Fate
    requires i < |json| && j > i
    decreases |json| - i, 0
  {
    if stack == [] then Halts else Scan(json, j, stack)
  }

  /** The fate of a call of the reader. */
  function FateOf(r: Outcome): Fate {
    match r
    case Done(_, _) => Halts
    case Throws => Raises
    case Hangs => Loops
  }

  /** What the scan says once a part of the text has been read inside the containers `stack`. */
  ghost predicate PartAgrees(r: Outcome, scan: Fate, json: string, stack: seq<Bracket>) {
    match r
    case Done(v, j) => scan == if stack == [] then Halts else Scan(json, j, stack)
    case Throws => scan == Raises
    case Hangs => scan == Loops
  }

  /** The same for a container, which may be cut short by the end of the text. */
  ghost predicate ContainerAgrees(r: Outcome, scan: Fate, json: string, stack: seq<Bracket>) {
    if r.Done? && r.val == Err then r.idx >= |json| && scan == Halts else PartAgrees(r, scan, json, stack)
  }

  lemma ContinueAgrees(json: string, i: nat, part: Outcome, scan: Fate, stack: seq<Bracket>)
    requires i < |json| && (part.Done? ==> part.idx > i) && ContainerAgrees(part, scan, json, stack)
    ensures PartAgrees(Continue(json, i, part), scan, json, stack)
  {
    if part.Done? && part.val == Err {
      assert Parse(json, part.idx + 1) == Done(Err, part.idx + 1);
    }
  }

  lemma TopOfStack(json: string, i: nat, stack: seq<Bracket>, b: Bracket)
    requires i < |json| && IsCloser(json[i])
    ensures Scan(json, i, stack + [b]) ==
              if !Closes(json[i], b) then Loops else if stack == [] then Halts else Scan(json, i + 1, stack)
  {
    assert (stack + [b])[|stack|] == b && (stack + [b])[..|stack|] == stack;
  }

  lemma StringAgrees(json: string, i: nat, stack: seq<Bracket>)
    requires i < |json| && json[i] == '"'
    ensures ContainerAgrees(ParseString(json, i + 1), Scan(json, i, stack), json, stack)
  {
    var j := EndOfString(json, i + 1);
    assert Scan(json, i, stack) == if j < |json| then After(json, j + 1, stack, i) else Halts;
  }

  /** The recursive descent and the scan agree wherever they start. */
  lemma {:induction false} ParseAgrees(json: string, i: nat, stack: seq<Bracket>)
    ensures PartAgrees(Parse(json, i), Scan(json, i, stack), json, stack)
    decreases |json| - i, 1
  {
    if i < |json| {
      if json[i] == '"' {
        StringAgrees(json, i, stack);
        ContinueAgrees(json, i, ParseString(json, i + 1), Scan(json, i, stack), stack);
      } else if IsDigit(json[i]) {
        assert EndOfDigits(json, i) > i;
      } else if json[i] == '[' {
        ListAgrees(json, i + 1, [], stack);
        ContinueAgrees(json, i, ParseList(json, i + 1, []), Scan(json, i, stack), stack);
      } else if json[i] == '{' {
        MapAgrees(json, i + 1, Err, [], stack);
        ContinueAgrees(json, i, ParseMap(json, i + 1, Err, []), Scan(json, i, stack), stack);
      } else if !IsCloser(json[i]) {
        ParseAgrees(json, i + 1, stack);
      }
    }
  }

  lemma {:induction false} ListAgrees(json: string, i: nat, items: seq<JsonVal>, stack: seq<Bracket>)
    ensures ContainerAgrees(ParseList(json, i, items), Scan(json, i, stack + [Square]), json, stack)
    decreases |json| - i, 2
  {
    if i < |json| {
      if IsCloser(json[i]) {
        assert Parse(json, i) == Done(Err, i);
        TopOfStack(json, i, stack, Square);
      } else {
        var r := Parse(json, i);
        ParseAgrees(json, i, stack + [Square]);
        if r.Done? {
          ListAgrees(json, r.idx, if r.val == Err then items else items + [r.val], stack);
        }
      }
    }
  }

  lemma {:induction false} MapAgrees(json: string, i: nat, key: JsonVal, entries: seq<Entry>, stack: seq<Bracket>)
    ensures ContainerAgrees(ParseMap(json, i, key, entries), Scan(json, i, stack + [Curly]), json, stack)
    decreases |json| - i, 2
  {
    if i < |json| {
      if IsCloser(json[i]) {
        assert Parse(json, i) == Done(Err, i);
        TopOfStack(json, i, stack, Curly);
      } else {
        var r := Parse(json, i);
        ParseAgrees(json, i, stack + [Curly]);
        if r.Done? {
          if key == Err {
            MapAgrees(json, r.idx, r.val, entries, stack);
          } else {
            MapAgrees(json, r.idx, Err, Insert(entries, key, r.val), stack);
          }
        }
      }
    }
  }

  /** The reader halts, throws or hangs on a text exactly as the scan of its brackets says. */
  lemma ReaderFate(json: string)
    ensures FateOf(Parse(json, 0)) == Scan(json, 0, [])
  {
    ParseAgrees(json, 0, []);
  }

  // ---------- Why a hang is one ----------

  /** The loop of parse_list or parse_map, which ends at the closer c, is left at index i. */
  ghost predicate Leaves(json: string, i: nat, c: char) {
    i >= |json| || json[i] == c || Parse(json, i).Throws?
  }

  /** The index after n turns of that loop from index i; a call that hangs keeps it where it is. */
  ghost function IndexAfter(json: string, i: nat, c: char, n: nat): nat
    decreases n
  {
    if n == 0 || Leaves(json, i, c) || Parse(json, i).Hangs? then i
    else IndexAfter(json, Parse(json, i).idx, c, n - 1)
  }

  ghost predicate NeverEnds(json: string, i: nat, c: char) {
    forall n: nat :: !Leaves(json, IndexAfter(json, i, c, n), c)
  }

  lemma {:induction false} StaysPut(json: string, i: nat, c: char, n: nat)
    requires !Leaves(json, i, c) && (Parse(json, i).Hangs? || Parse(json, i).idx == i)
    ensures IndexAfter(json, i, c, n) == i
  {
    if n > 0 {
      StaysPut(json, i, c, n - 1);
    }
  }

  lemma NeverEndsNext(json: string, i: nat, c: char)
    requires !Leaves(json, i, c) && Parse(json, i).Done?
    ensures NeverEnds(json, i, c) <==> NeverEnds(json, Parse(json, i).idx, c)
  {
    var j := Parse(json, i).idx;
    if NeverEnds(json, i, c) {
      forall n: nat ensures !Leaves(json, IndexAfter(json, j, c, n), c) {
        assert IndexAfter(json, i, c, n + 1) == IndexAfter(json, j, c, n);
      }
    }
    if NeverEnds(json, j, c) {
      forall n: nat ensures !Leaves(json, IndexAfter(json, i, c, n), c) {
        assert n > 0 ==> IndexAfter(json, i, c, n) == IndexAfter(json, j, c, n - 1);
      }
    }
  }

  lemma FirstTurn(json: string, i: nat, c: char)
    ensures Leaves(json, i, c) ==> !NeverEnds(json, i, c)
    ensures !Leaves(json, i, c) && (Parse(json, i).Hangs? || Parse(json, i).idx == i) ==> NeverEnds(json, i, c)
  {
    assert IndexAfter(json, i, c, 0) == i;
    if !Leaves(json, i, c) && (Parse(json, i).Hangs? || Parse(json, i).idx == i) {
      forall n: nat ensures !Leaves(json, IndexAfter(json, i, c, n), c) {
        StaysPut(json, i, c, n);
      }
    }
  }

  /** parse_list hangs exactly when its loop, taken turn by turn, is never left. */
  lemma {:induction false} ListHangs(json: string, i: nat, items: seq<JsonVal>)
    ensures ParseList(json, i, items).Hangs? <==> NeverEnds(json, i, ']')
    decreases |json| - i
  {
    FirstTurn(json, i, ']');
    if !Leaves(json, i, ']') && Parse(json, i).Done? && Parse(json, i).idx > i {
      var r := Parse(json, i);
      NeverEndsNext(json, i, ']');
      ListHangs(json, r.idx, if r.val == Err then items else items + [r.val]);
    }
  }

  /** And so does parse_map. */
  lemma {:induction false} MapHangs(json: string, i: nat, key: JsonVal, entries: seq<Entry>)
    ensures ParseMap(json, i, key, entries).Hangs? <==> NeverEnds(json, i, '}')
    decreases |json| - i
  {
    FirstTurn(json, i, '}');
    if !Leaves(json, i, '}') && Parse(json, i).Done? && Parse(json, i).idx > i {
      var r := Parse(json, i);
      NeverEndsNext(json, i, '}');
      if key == Err {
        MapHangs(json, r.idx, r.val, entries);
      } else {
        MapHangs(json, r.idx, Err, Insert(entries, key, r.val));
      }
    }
  }

  /** A closing brace met inside a list keeps the reader where it is for ever. */
  lemma MismatchedCloserHangs()
    ensures Parse("[}", 0) == Hangs
  {
    ReaderFate("[}");
    assert Scan("[}", 1, [Square]) == Loops;
    assert [] + [Square] == [Square];
  }
}
