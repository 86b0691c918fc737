/** The JSON reader and printer as include/mxnet/lib_api.h runs them, loop by loop. */
module JsonReader {
  import opened Json

  // ---------- The parse functions, which advance an index ----------

  method ReadString(json: string, start: nat) returns (val: JsonVal, idx: nat)
    requires start <= |json|
    ensures Done(val, idx) == ParseString(json, start)
  {
    var text := "";
    idx := start;
    while idx < |json|
      invariant start <= idx <= |json| && text == json[start..idx]
      invariant EndOfString(json, start) == EndOfString(json, idx)
    {
      if json[idx] == '"' {
        return Str(text), idx + 1;
      }
      text := text + [json[idx]];
      idx := idx + 1;
    }
    val := Err;
  }

  method ReadNum(json: string, start: nat) returns (r: Outcome)
    requires start <= |json|
    ensures r == ParseNum(json, start)
  {
    var text := "";
    var idx := start;
    while idx < |json|
      invariant start <= idx <= |json| && text == json[start..idx] && AllDigits(text)
      invariant EndOfDigits(json, start) == EndOfDigits(json, idx)
    {
      if IsDigit(json[idx]) {
        text := text + [json[idx]];
        idx := idx + 1;
      } else {
        break;
      }
    }
    // stoi accepts what fits an int and throws otherwise
    if text == "" || Value(text) > INT_MAX {
      return Throws;
    }
    r := Done(Num(Value(text), text), idx);
  }

  method ReadList(json: string, start: nat) returns (r: Outcome)
    ensures r == ParseList(json, start, [])
    decreases |json| - start, 2
  {
    var items: seq<JsonVal>, idx := [], start;
    while idx < |json|
      invariant start <= idx && ParseList(json, start, []) == ParseList(json, idx, items)
    {
      if json[idx] == ']' {
        return Done(List(items), idx + 1);
      }
      var item := Read(json, idx);
      if !item.Done? {
        return item;
      }
      if item.idx == idx {
        return Hangs;
      }
      idx := item.idx;
      if item.val != Err {
        items := items + [item.val];
      }
    }
    r := Done(Err, idx);
  }

  method ReadMap(json: string, start: nat) returns (r: Outcome)
    ensures r == ParseMap(json, start, Err, [])
    decreases |json| - start, 2
  {
    var entries: seq<Entry>, key, idx := [], Err, start;
    while idx < |json|
      invariant start <= idx && ParseMap(json, start, Err, []) == ParseMap(json, idx, key, entries)
    {
      if json[idx] == '}' {
        return Done(Map(entries), idx + 1);
      }
      var item := Read(json, idx);
      if !item.Done? {
        return item;
      }
      if item.idx == idx {
        return Hangs;
      }
      idx := item.idx;
      if key == Err {
        key := item.val;
      } else {
        entries := Insert(entries, key, item.val);
        key := Err;
      }
    }
    r := Done(Err, idx);
  }

  method Read(json: string, start: nat) returns (r: Outcome)
    ensures r == Parse(json, start)
    decreases |json| - start, 1
  {
    var idx := start;
    while idx < |json|
      invariant start <= idx && Parse(json, start) == Parse(json, idx)
    {
      var part := Done(Err, idx);
      if json[idx] == '"' {
        var val, j := ReadString(json, idx + 1);
        part := Done(val, j);
      } else if IsDigit(json[idx]) {
        part := ReadNum(json, idx);
      } else if json[idx] == '[' {
        part := ReadList(json, idx + 1);
      } else if json[idx] == '{' {
        part := ReadMap(json, idx + 1);
      } else if IsCloser(json[idx]) {
        return Done(Err, idx);
      }
      if !part.Done? || part.val != Err {
        return part;
      }
      idx := part.idx + 1;
    }
    r := Done(Err, idx);
  }

  // ---------- dump ----------

  /** The text printed before part i, and the parts still to come, make up the whole. */
  ghost predicate Printed(s: string, parts: seq<string>, i: nat, open: string)
    requires i <= |parts|
  {
    s + Join(parts[i..]) == open + Join(parts)
  }

  lemma PrintPart(s: string, parts: seq<string>, i: nat, open: string)
    requires i < |parts| && Printed(s, parts, i, open)
    ensures Printed(if i < |parts| - 1 then s + parts[i] + "," else s + parts[i], parts, i + 1, open)
  {
    var rest := parts[i + 1..];
    assert parts[i..][1..] == rest;
    if rest != [] {
      MoreIsComma(rest);
      assert s + (parts[i] + ("," + Join(rest))) == s + parts[i] + "," + Join(rest);
    } else {
      assert s + (parts[i] + "") == s + parts[i] + "";
    }
  }

  method PrintList(items: seq<JsonVal>) returns (s: string)
    ensures s == "[" + Join(DumpAll(items)) + "]"
    decreases items, 0
  {
    ghost var parts := DumpAll(items);
    s := "[";
    assert parts[0..] == parts;
    for i := 0 to |items|
      invariant Printed(s, parts, i, "[")
    {
      PrintPart(s, parts, i, "[");
      var item := Print(items[i]);
      s := s + item;
      if i < |items| - 1 {
        s := s + ",";
      }
    }
    assert parts[|items|..] == [];
    s := s + "]";
  }

  method PrintMap(entries: seq<Entry>) returns (s: string)
    ensures s == "{" + Join(DumpEntries(entries)) + "}"
    decreases entries, 0
  {
    ghost var parts := DumpEntries(entries);
    s := "{";
    assert parts[0..] == parts;
    for i := 0 to |entries|
      invariant Printed(s, parts, i, "{")
    {
      PrintPart(s, parts, i, "{");
      var entry := PrintEntry(entries[i]);
      s := s + entry;
      if i < |entries| - 1 {
        s := s + ",";
      }
    }
    assert parts[|entries|..] == [];
    s := s + "}";
  }

  method PrintEntry(e: Entry) returns (s: string)
    ensures s == DumpEntry(e)
    decreases e, 0
  {
    var key := Print(e.key);
    var value := Print(e.value);
    s := key + " : " + value;
  }

  /** dump, with the bodies of its two loops' cases apart. */
  method Print(v: JsonVal) returns (s: string)
    ensures s == Dump(v)
    decreases v, 1
  {
    match v {
      case Err => s := "json(Error)";
      case Str(str) => s := "\"" + str + "\"";
      case Num(_, text) => s := text;
      case List(items) => s := PrintList(items);
      case Map(entries) => s := PrintMap(entries);
    }
  }
}
