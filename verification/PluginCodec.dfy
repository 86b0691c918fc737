/** Writing plugins into a buffer and creating them back from it: plugin.hpp, plugin.cpp, serialize.hpp and
    PluginFactory.cpp under 3rdparty/onnx-tensorrt. */
module PluginCodec {
  import opened Wrappers
  import opened Sequences
  import opened Serialize

  /** "Pv01" */
  const MAGIC: seq<byte> := [80, 118, 48, 49]

  // ---------- Writing through an advancing buffer ----------

  /** The bytes x stand at pos and nothing else has changed. */
  ghost predicate Placed(was: seq<byte>, now: seq<byte>, pos: nat, x: seq<byte>) {
    pos + |x| <= |was| && now == was[..pos] + x + was[pos + |x|..]
  }

  lemma CopyByte(was: seq<byte>, now: seq<byte>, pos: nat, x: seq<byte>, b: byte)
    requires Placed(was, now, pos, x) && pos + |x| < |was|
    ensures Placed(was, now[pos + |x| := b], pos, x + [b])
  {
  }

  /** memcpy to position pos; returns the position after it. */
  method CopyTo(buffer: array<byte>, pos: nat, data: seq<byte>) returns (next: nat)
    requires pos + |data| <= buffer.Length
    modifies buffer
    ensures next == pos + |data| && Placed(old(buffer[..]), buffer[..], pos, data)
  {
    next := pos;
    assert data[..0] == [];
    ghost var was := buffer[..];
    for k := 0 to |data|
      invariant next == pos + k && Placed(was, buffer[..], pos, data[..k])
    {
      CopyByte(was, buffer[..], pos, data[..k], data[k]);
      buffer[next] := data[k];
      next := next + 1;
      assert data[..k + 1] == data[..k] + [data[k]];
    }
    assert data[..|data|] == data;
  }

  /** Two adjacent copies are one. */
  lemma CopyTwice(b0: seq<byte>, b1: seq<byte>, b2: seq<byte>, pos: nat, x: seq<byte>, y: seq<byte>)
    requires Placed(b0, b1, pos, x) && pos + |x| + |y| <= |b0| && Placed(b1, b2, pos + |x|, y)
    ensures Placed(b0, b2, pos, x + y)
  {
    assert b1[..pos + |x|] == b0[..pos] + x;
    assert b1[pos + |x| + |y|..] == b0[pos + |x| + |y|..];
  }

  /** A vector: its length, then its elements. */
  method SerializeVector(buffer: array<byte>, pos: nat, elems: seq<seq<byte>>) returns (next: nat)
    requires pos + SIZE_BYTES + |Join(elems)| <= buffer.Length
    modifies buffer
    ensures next == pos + SIZE_BYTES + |Join(elems)|
    ensures Placed(old(buffer[..]), buffer[..], pos, ToBytes(|elems|, SIZE_BYTES) + Join(elems))
  {
    ghost var b0 := buffer[..];
    var size := ToBytes(|elems|, SIZE_BYTES);
    next := CopyTo(buffer, pos, size);
    ghost var b1 := buffer[..];
    next := CopyTo(buffer, next, Join(elems));
    CopyTwice(b0, b1, buffer[..], pos, size, Join(elems));
  }

  method SerializeValue(buffer: array<byte>, pos: nat, f: Field) returns (next: nat)
    requires Valid(f) && pos + SizeOf(f) <= buffer.Length
    modifies buffer
    ensures next == pos + |Encode(f)| == pos + SizeOf(f)
    ensures Placed(old(buffer[..]), buffer[..], pos, Encode(f))
  {
    SizeIsRight(f);
    match f
    case Pod(bytes) =>
      next := CopyTo(buffer, pos, bytes);
    case CStr(chars) =>
      next := CopyTo(buffer, pos, chars + [0]);
    case Vec(width, elems) =>
      next := SerializeVector(buffer, pos, elems);
  }

  // ---------- A plugin behind its header ----------

  /** Everything serialize() writes for a plugin: the magic string, the type name, then its fields. */
  ghost function PluginFields(pluginType: seq<byte>, fields: seq<Field>): seq<Field> {
    [CStr(MAGIC), CStr(pluginType)] + fields
  }

  /** getSerializationSize: the size of the magic array counts its terminator. */
  ghost function DeclaredSize(pluginType: seq<byte>, fields: seq<Field>): nat {
    |MAGIC| + 1 + 1 + |pluginType| + SizeOfAll(fields)
  }

  lemma DeclaredSizeIsRight(pluginType: seq<byte>, fields: seq<Field>)
    requires NulFree(pluginType) && AllValid(fields)
    ensures |EncodeAll(PluginFields(pluginType, fields))| == DeclaredSize(pluginType, fields)
  {
    var all := PluginFields(pluginType, fields);
    SizesAreRight(all);
    assert all[1..][1..] == fields;
  }

  lemma PrefixTail(fields: seq<Field>, k: nat)
    requires 0 < k <= |fields|
    ensures fields[..k][0] == fields[0] && fields[..k][1..] == fields[1..][..k - 1]
    ensures EncodeAll(fields[..k]) == Encode(fields[0]) + EncodeAll(fields[1..][..k - 1])
  {
    assert fields[..k][1..] == fields[1..][..k - 1];
  }

  lemma {:induction false} EncodeAllPrefix(fields: seq<Field>, k: nat)
    requires AllValid(fields) && k < |fields|
    ensures EncodeAll(fields[..k + 1]) == EncodeAll(fields[..k]) + Encode(fields[k])
  {
    PrefixTail(fields, k + 1);
    if k == 0 {
      assert fields[1..][..0] == [] && fields[..0] == [];
    } else {
      var rest := fields[1..];
      assert AllValid(rest) && rest[k - 1] == fields[k];
      EncodeAllPrefix(rest, k - 1);
      PrefixTail(fields, k);
      Reassociate(Encode(fields[0]), EncodeAll(rest[..k - 1]), Encode(fields[k]));
    }
  }

  lemma {:induction false} SizesFit(fields: seq<Field>, k: nat)
    requires k < |fields|
    ensures SizeOfAll(fields[..k]) + SizeOf(fields[k]) <= SizeOfAll(fields)
  {
    if k > 0 {
      SizesFit(fields[1..], k - 1);
      assert fields[..k][1..] == fields[1..][..k - 1];
    }
  }

  /** Fills a buffer of the declared size exactly. */
  method SerializePlugin(buffer: array<byte>, pluginType: seq<byte>, fields: seq<Field>)
    requires NulFree(pluginType) && AllValid(fields) && buffer.Length == DeclaredSize(pluginType, fields)
    modifies buffer
    ensures buffer[..] == EncodeAll(PluginFields(pluginType, fields))
  {
    ghost var all := PluginFields(pluginType, fields);
    DeclaredSizeIsRight(pluginType, fields);
    SizesAreRight(all);
    var list := [CStr(MAGIC), CStr(pluginType)] + fields;
    var next := 0;
    for k := 0 to |list|
      invariant next == |EncodeAll(all[..k])| == SizeOfAll(all[..k]) <= buffer.Length
      invariant buffer[..next] == EncodeAll(all[..k])
    {
      EncodeAllPrefix(all, k);
      SizesFit(all, k);
      SizesAreRight(all[..k]);
      SizesAreRight(all[..k + 1]);
      assert Valid(list[k]);
      next := SerializeValue(buffer, next, list[k]);
    }
    assert all[..|list|] == all;
  }

  // ---------- Reading through an advancing buffer ----------

  /** The data pointer and the number of bytes left, as the bytes left. */
  class Input {
    var rest: seq<byte>

    constructor (data: seq<byte>)
      ensures rest == data
    {
      rest := data;
    }

    /** strnlen */
    method Length() returns (n: nat)
      ensures n == StringLength(rest)
    {
      n := 0;
      while n < |rest| && rest[n] != 0
        invariant n <= |rest| && StringLength(rest) == n + StringLength(rest[n..])
      {
        assert rest[n..][1..] == rest[n + 1..];
        n := n + 1;
      }
    }

    /** Reads one field; None is where the original's assertion fails. */
    method DeserializeValue(k: Kind) returns (f: Option<Field>)
      modifies this
      ensures match Decode(k, old(rest))
              case None => f.None?
              case Some((g, left)) => f == Some(g) && rest == left
      decreases k.VecKind?
    {
      match k {
        case PodKind(size) =>
          if |rest| < size {
            return None;
          }
          f := Some(Pod(rest[..size]));
          rest := rest[size..];
        case StrKind =>
          var n := Length();
          if |rest| < n + 1 {
            return None;
          }
          f := Some(CStr(rest[..n]));
          rest := rest[n + 1..];
        case VecKind(width) =>
          var word := DeserializeValue(PodKind(SIZE_BYTES));
          if word.None? {
            return None;
          }
          var count := FromBytes(word.value.bytes);
          if |rest| < count * width {
            return None;
          }
          f := Some(Vec(width, Cut(rest[..count * width], width, count)));
          rest := rest[count * width..];
      }
    }
  }

  // ---------- The factory ----------

  /** What createPlugin does: aborts on data cut short, returns null on a foreign or unregistered header,
      or hands the rest of the data to the plugin's own reader. */
  datatype Creation = Aborts | Null | Created(pluginType: seq<byte>, fields: seq<Field>, left: seq<byte>)

  ghost function CreateFrom(registry: map<seq<byte>, seq<Kind>>, data: seq<byte>): Creation {
    match Decode(StrKind, data)
    case None => Aborts
    case Some((magic, afterMagic)) =>
      if magic != CStr(MAGIC) then Null
      else match Decode(StrKind, afterMagic)
        case None => Aborts
        case Some((name, afterName)) =>
          if name.chars !in registry then Null
          else match DecodeAll(registry[name.chars], afterName)
            case None => Aborts
            case Some((fields, left)) => Created(name.chars, fields, left)
  }

  /** Reading `kinds` from `rest`, after the fields in `done`, gives what was to be read. */
  ghost predicate StillReads(goal: Option<(seq<Field>, seq<byte>)>, done: seq<Field>, kinds: seq<Kind>,
                             rest: seq<byte>) {
    match DecodeAll(kinds, rest)
    case None => goal.None?
    case Some((fields, left)) => goal == Some((done + fields, left))
  }

  lemma NextKind(goal: Option<(seq<Field>, seq<byte>)>, done: seq<Field>, kinds: seq<Kind>, k: nat, rest: seq<byte>)
    requires k < |kinds| && StillReads(goal, done, kinds[k..], rest)
    ensures match Decode(kinds[k], rest)
            case None => goal.None?
            case Some((f, left)) => StillReads(goal, done + [f], kinds[k + 1..], left)
  {
    assert kinds[k..][0] == kinds[k] && kinds[k..][1..] == kinds[k + 1..];
    match Decode(kinds[k], rest)
    case None =>
    case Some((f, left)) =>
      if DecodeAll(kinds[k + 1..], left).Some? {
        var fields := DecodeAll(kinds[k + 1..], left).value.0;
        assert done + ([f] + fields) == done + [f] + fields;
      }
  }

  class PluginFactory {
    const registry: map<seq<byte>, seq<Kind>>
    var owned: seq<seq<Field>>

    constructor (registry: map<seq<byte>, seq<Kind>>)
      ensures this.registry == registry && owned == []
    {
      this.registry, owned := registry, [];
    }

    /** The registered reader of a plugin type: its fields one after another. */
    method ReadFields(input: Input, kinds: seq<Kind>) returns (fields: Option<seq<Field>>)
      modifies input
      ensures match DecodeAll(kinds, old(input.rest))
              case None => fields.None?
              case Some((all, left)) => fields == Some(all) && input.rest == left
    {
      var done: seq<Field> := [];
      ghost var goal := DecodeAll(kinds, input.rest);
      assert kinds[0..] == kinds && (goal.Some? ==> [] + goal.value.0 == goal.value.0);
      for k := 0 to |kinds|
        invariant StillReads(goal, done, kinds[k..], input.rest)
      {
        NextKind(goal, done, kinds, k, input.rest);
        var f := input.DeserializeValue(kinds[k]);
        if f.None? {
          return None;
        }
        done := done + [f.value];
      }
      assert kinds[|kinds|..] == [] && done + [] == done;
      fields := Some(done);
    }

    /** A plugin that was created is kept; nothing else is. */
    method CreatePlugin(data: seq<byte>) returns (r: Creation)
      modifies this
      ensures r == CreateFrom(registry, data)
      ensures owned == old(owned) + if r.Created? then [r.fields] else []
    {
      var input := new Input(data);
      var magic := input.DeserializeValue(StrKind);
      if magic.None? {
        return Aborts;
      }
      if magic.value != CStr(MAGIC) {
        return Null;
      }
      var name := input.DeserializeValue(StrKind);
      if name.None? {
        return Aborts;
      }
      if name.value.chars !in registry {
        return Null;
      }
      var fields := ReadFields(input, registry[name.value.chars]);
      if fields.None? {
        return Aborts;
      }
      owned := owned + [fields.value];
      r := Created(name.value.chars, fields.value, input.rest);
    }
  }

  lemma EncodedPlugin(pluginType: seq<byte>, fields: seq<Field>)
    ensures EncodeAll(PluginFields(pluginType, fields)) ==
              Encode(CStr(MAGIC)) + (Encode(CStr(pluginType)) + EncodeAll(fields))
  {
    var all := PluginFields(pluginType, fields);
    assert all[1..] == [CStr(pluginType)] + fields && all[1..][1..] == fields;
  }

  /** What serialize() wrote for a registered plugin, createPlugin turns back into all its fields, with no byte left. */
  lemma PluginRoundTrip(registry: map<seq<byte>, seq<Kind>>, pluginType: seq<byte>, fields: seq<Field>)
    requires NulFree(pluginType) && AllValid(fields) && pluginType in registry && registry[pluginType] == Kinds(fields)
    ensures CreateFrom(registry, EncodeAll(PluginFields(pluginType, fields))) == Created(pluginType, fields, [])
  {
    var body := EncodeAll(fields);
    EncodedPlugin(pluginType, fields);
    DecodeEncode(CStr(MAGIC), Encode(CStr(pluginType)) + body);
    DecodeEncode(CStr(pluginType), body);
    DecodeAllEncodeAll(fields, []);
    assert body + [] == body;
  }

  /** The bytes of a serialized plugin begin with the letters P, v, 0, 1 and a zero; then come the type name, a zero
      and the fields. */
  lemma HeaderBytes(pluginType: seq<byte>, fields: seq<Field>)
    ensures EncodeAll(PluginFields(pluginType, fields)) ==
              [0x50, 0x76, 0x30, 0x31, 0] + (pluginType + [0] + EncodeAll(fields))
  {
    EncodedPlugin(pluginType, fields);
  }

  lemma FirstString(s: seq<byte>, rest: seq<byte>)
    requires NulFree(s)
    ensures Decode(StrKind, s + [0] + rest) == Some((CStr(s), rest))
  {
    DecodeEncode(CStr(s), rest);
  }

  lemma NoString(data: seq<byte>)
    ensures Decode(StrKind, data).None? <==> NulFree(data)
  {
    var n := StringLength(data);
    assert n < |data| ==> data[n] in data;
    assert n == |data| ==> data[..n] == data;
  }

  /** What becomes of any data, case by case: it must begin with two terminated strings; the first must be the magic
      one, the second a registered name, and only then is the plugin's own reader asked. */
  lemma CreationCases(registry: map<seq<byte>, seq<Kind>>, m: seq<byte>, t: seq<byte>, body: seq<byte>)
    requires NulFree(m) && NulFree(t)
    ensures CreateFrom(registry, m) == Aborts
    ensures m != MAGIC ==> CreateFrom(registry, m + [0] + body) == Null
    ensures CreateFrom(registry, MAGIC + [0] + t) == Aborts
    ensures CreateFrom(registry, MAGIC + [0] + (t + [0] + body)) == AfterHeader(registry, t, body)
  {
    NoString(m);
    FirstString(m, body);
    FirstString(MAGIC, t);
    NoString(t);
    FirstString(MAGIC, t + [0] + body);
    FirstString(t, body);
  }

  /** Behind a good header: null for a name that is not registered, otherwise what the reader makes of the body. */
  ghost function AfterHeader(registry: map<seq<byte>, seq<Kind>>, t: seq<byte>, body: seq<byte>): Creation {
    if t !in registry then Null
    else match DecodeAll(registry[t], body)
      case None => Aborts
      case Some((fields, left)) => Created(t, fields, left)
  }

  lemma ReassociateFour(a: seq<byte>, b: seq<byte>, c: seq<byte>, d: seq<byte>)
    ensures a + (b + (c + d)) == a + (b + c) + d
  {
  }

  /** And nothing is created from data that is not the encoding of such a plugin. */
  lemma OnlyEncodingsCreate(registry: map<seq<byte>, seq<Kind>>, data: seq<byte>)
    requires forall t, k :: t in registry && k in registry[t] ==> ValidKind(k)
    requires CreateFrom(registry, data).Created?
    ensures var c := CreateFrom(registry, data);
            && c.pluginType in registry && AllValid(c.fields) && Kinds(c.fields) == registry[c.pluginType]
            && data == EncodeAll(PluginFields(c.pluginType, c.fields)) + c.left
  {
    var c := CreateFrom(registry, data);
    var afterMagic := Decode(StrKind, data).value.1;
    var (name, afterName) := Decode(StrKind, afterMagic).value;
    var body := EncodeAll(c.fields);
    assert data == Encode(CStr(MAGIC)) + afterMagic by { EncodeDecode(StrKind, data); }
    assert afterMagic == Encode(CStr(c.pluginType)) + afterName by { EncodeDecode(StrKind, afterMagic); }
    EncodeAllDecodeAll(registry[c.pluginType], afterName);
    EncodedPlugin(c.pluginType, c.fields);
    ReassociateFour(Encode(CStr(MAGIC)), Encode(CStr(c.pluginType)), body, c.left);
  }
}
