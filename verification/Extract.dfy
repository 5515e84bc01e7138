/**
 Prompt-bearing text in a request payload (`frostglass/gateway/extract.py`).

 The collectors of `extract_text` are the methods of `Collector`, which append to a shared list. What they visit is
 described once, by `Plan`: in a value of a given shape, which children hold prompt text, in which order, and of which
 shape they are. `replace_text` assigns into a copy at every location, one location at a time.
 */
module Extract {
  import opened Outcomes
  import opened JsonTree

  datatype TextLocation = TextLocation(path: Path, text: string)

  /** The roles a value can play in a payload. */
  datatype Shape =
    | Payload | Content | Block | Messages | Message | ToolCalls | ToolCall | CallFunction
    | Tools | Tool | ToolFunction | AnyJson | JsonBranch | Schema | TextList | Input | TextOnly

  const SCHEMA_TEXT_KEYS := {"description", "default", "const", "title"}
  const SCHEMA_LIST_KEYS := {"enum", "examples"}

  datatype Visit = Visit(index: nat, shape: Shape)

  /** A string in this role is prompt text. */
  predicate Collects(shape: Shape) {
    shape.Content? || shape.AnyJson? || shape.TextOnly? || shape.Input?
  }

  function All(v: Json, shape: Shape): seq<Visit> { seq(Count(v), i requires 0 <= i < Count(v) => Visit(i, shape)) }

  /** The listed keys that are present, in the order of the list. */
  function Named(v: Json, keys: seq<(string, Shape)>): seq<Visit> {
    if keys == [] then []
    else
      match Child(v, Key(keys[0].0))
      case None => Named(v, keys[1..])
      case Some(i) => [Visit(i, keys[0].1)] + Named(v, keys[1..])
  }

  function SchemaChild(key: string, item: Json): Shape {
    if key in SCHEMA_TEXT_KEYS && item.JStr? then TextOnly
    else if key in SCHEMA_LIST_KEYS && item.JList? then TextList
    else Schema
  }

  function SchemaVisits(v: Json): seq<Visit> {
    match v
    case JObj(fields) =>
      seq(|fields|, i requires 0 <= i < |fields| => Visit(i, SchemaChild(fields[i].key, fields[i].value)))
    case _ => All(v, Schema)
  }

  function KeysOf(shape: Shape): seq<(string, Shape)> {
    match shape
    case Payload => [("system", Content), ("messages", Messages), ("tools", Tools), ("input", Input)]
    case Block => [("text", TextOnly), ("input", JsonBranch), ("content", Content)]
    case Message => [("content", Content), ("tool_calls", ToolCalls), ("tool_result", TextOnly)]
    case ToolCall => [("function", CallFunction), ("input", JsonBranch)]
    case CallFunction => [("arguments", TextOnly)]
    case Tool => [("description", TextOnly), ("input_schema", Schema), ("function", ToolFunction)]
    case ToolFunction => [("description", TextOnly), ("parameters", Schema)]
    case _ => []
  }

  /** What a list of this role holds. */
  function ItemsOf(shape: Shape): Option<Shape> {
    match shape
    case Content => Some(Block)
    case Messages => Some(Message)
    case ToolCalls => Some(ToolCall)
    case Tools => Some(Tool)
    case TextList => Some(TextOnly)
    case Input => Some(TextOnly)
    case _ => None
  }

  /** The children of `v` that hold prompt text. */
  function Plan(shape: Shape, v: Json): seq<Visit> {
    if shape.AnyJson? || shape.JsonBranch? then All(v, AnyJson)
    else if shape.Schema? then SchemaVisits(v)
    else if v.JObj? then Named(v, KeysOf(shape))
    else if v.JList? && ItemsOf(shape).Some? then All(v, ItemsOf(shape).value)
    else []
  }

  ghost predicate InRange(plan: seq<Visit>, v: Json) {
    forall k :: 0 <= k < |plan| ==> plan[k].index < Count(v)
  }

  ghost predicate IndicesDistinct(plan: seq<Visit>) {
    forall k, l :: 0 <= k < l < |plan| ==> plan[k].index != plan[l].index
  }

  lemma {:induction false} NamedInRange(v: Json, keys: seq<(string, Shape)>)
    ensures InRange(Named(v, keys), v)
  {
    if keys != [] { NamedInRange(v, keys[1..]); }
  }

  lemma PlanInRange(shape: Shape, v: Json)
    ensures InRange(Plan(shape, v), v)
  {
    NamedInRange(v, KeysOf(shape));
  }

  lemma {:induction false} NamedFrom(v: Json, keys: seq<(string, Shape)>, k: nat)
    requires k < |Named(v, keys)|
    ensures Named(v, keys)[k].index < Count(v)
    ensures exists l :: 0 <= l < |keys| && Seg(v, Named(v, keys)[k].index) == Key(keys[l].0)
  {
    NamedInRange(v, keys);
    var first := Child(v, Key(keys[0].0));
    if first.None? || k > 0 {
      var k' := if first.None? then k else k - 1;
      NamedFrom(v, keys[1..], k');
      var l :| 0 <= l < |keys[1..]| && Seg(v, Named(v, keys[1..])[k'].index) == Key(keys[1..][l].0);
      assert keys[l + 1] == keys[1..][l];
    }
  }

  lemma {:induction false} NamedDistinct(v: Json, keys: seq<(string, Shape)>)
    requires forall i, j :: 0 <= i < j < |keys| ==> keys[i].0 != keys[j].0
    ensures IndicesDistinct(Named(v, keys))
  {
    if keys != [] {
      NamedDistinct(v, keys[1..]);
      var plan, rest := Named(v, keys), Named(v, keys[1..]);
      if Child(v, Key(keys[0].0)).Some? {
        forall l | 1 <= l < |plan| ensures plan[0].index != plan[l].index {
          NamedFrom(v, keys[1..], l - 1);
        }
      }
    }
  }

  lemma PlanDistinct(shape: Shape, v: Json)
    ensures IndicesDistinct(Plan(shape, v))
  {
    NamedDistinct(v, KeysOf(shape));
  }

  // ---- what is extracted ----

  /** The text locations in a value of the given shape, in the order they are collected. */
  function Locations(shape: Shape, v: Json, path: Path): seq<TextLocation>
    decreases v, 1, 0
  {
    if v.JStr? then (if Collects(shape) then [TextLocation(path, v.s)] else [])
    else
      PlanInRange(shape, v);
      LocationsOver(Plan(shape, v), v, path)
  }

  function LocationsOver(plan: seq<Visit>, v: Json, path: Path): seq<TextLocation>
    requires InRange(plan, v)
    decreases v, 0, |plan|
  {
    if plan == [] then []
    else
      var first := Locations(plan[0].shape, Kid(v, plan[0].index), path + [Seg(v, plan[0].index)]);
      first + LocationsOver(plan[1..], v, path)
  }

  lemma {:induction false} LocationsAppend(a: seq<Visit>, b: seq<Visit>, v: Json, path: Path)
    requires InRange(a, v) && InRange(b, v)
    ensures InRange(a + b, v)
    ensures LocationsOver(a + b, v, path) == LocationsOver(a, v, path) + LocationsOver(b, v, path)
    decreases |a|
  {
    if a == [] {
      assert a + b == b;
    } else {
      LocationsAppend(a[1..], b, v, path);
      assert (a + b)[1..] == a[1..] + b && (a + b)[0] == a[0];
      var first := Locations(a[0].shape, Kid(v, a[0].index), path + [Seg(v, a[0].index)]);
      var x, y := LocationsOver(a[1..], v, path), LocationsOver(b, v, path);
      assert first + (x + y) == first + x + y;
    }
  }

  lemma LocationsNext(plan: seq<Visit>, i: nat, v: Json, path: Path)
    requires i < |plan| && InRange(plan, v)
    ensures InRange(plan[..i], v) && InRange(plan[..i + 1], v)
    ensures LocationsOver(plan[..i + 1], v, path)
         == LocationsOver(plan[..i], v, path)
          + Locations(plan[i].shape, Kid(v, plan[i].index), path + [Seg(v, plan[i].index)])
  {
    assert plan[..i + 1] == plan[..i] + [plan[i]];
    LocationsAppend(plan[..i], [plan[i]], v, path);
    assert [plan[i]][1..] == [];
  }

  /** The locations under one key of an object. */
  function Under(v: Json, key: string, shape: Shape, path: Path): seq<TextLocation> {
    match Get(v, key) case None => [] case Some(x) => Locations(shape, x, path + [Key(key)])
  }

  lemma NamedNext(v: Json, keys: seq<(string, Shape)>, path: Path)
    requires v.JObj? && keys != []
    ensures InRange(Named(v, keys), v) && InRange(Named(v, keys[1..]), v)
    ensures LocationsOver(Named(v, keys), v, path)
         == Under(v, keys[0].0, keys[0].1, path) + LocationsOver(Named(v, keys[1..]), v, path)
  {
    NamedInRange(v, keys);
    NamedInRange(v, keys[1..]);
    var plan := Named(v, keys);
    if Child(v, Key(keys[0].0)).Some? {
      assert plan[1..] == Named(v, keys[1..]);
    }
  }

  lemma {:induction false} NoPlanNoLocations(shape: Shape, v: Json, path: Path)
    requires !v.JStr? && Plan(shape, v) == []
    ensures Locations(shape, v, path) == []
  {
  }

  /** A role that takes no children and no string collects nothing. */
  lemma OnlyStrings(v: Json, path: Path)
    requires !v.JStr?
    ensures Locations(TextOnly, v, path) == []
  {
    NoPlanNoLocations(TextOnly, v, path);
  }

  /** The locations in an object of a role with fixed keys. */
  function UnderAll(v: Json, keys: seq<(string, Shape)>, path: Path): seq<TextLocation> {
    if keys == [] then [] else Under(v, keys[0].0, keys[0].1, path) + UnderAll(v, keys[1..], path)
  }

  lemma {:induction false} NamedIsUnderAll(v: Json, keys: seq<(string, Shape)>, path: Path)
    requires v.JObj?
    ensures InRange(Named(v, keys), v) && LocationsOver(Named(v, keys), v, path) == UnderAll(v, keys, path)
  {
    NamedInRange(v, keys);
    if keys != [] {
      NamedNext(v, keys, path);
      NamedIsUnderAll(v, keys[1..], path);
    }
  }

  lemma RecordLocations(shape: Shape, v: Json, path: Path)
    requires v.JObj? && !shape.AnyJson? && !shape.JsonBranch? && !shape.Schema?
    ensures Locations(shape, v, path) == UnderAll(v, KeysOf(shape), path)
  {
    NamedIsUnderAll(v, KeysOf(shape), path);
  }

  /** Collecting key by key: what is found so far and what the remaining keys hold. */
  function Pending(found: seq<TextLocation>, v: Json, keys: seq<(string, Shape)>, i: nat, path: Path): seq<TextLocation>
    requires i <= |keys|
  {
    found + UnderAll(v, keys[i..], path)
  }

  lemma PendingStep(found: seq<TextLocation>, v: Json, keys: seq<(string, Shape)>, i: nat, path: Path)
    requires i < |keys|
    ensures Pending(found + Under(v, keys[i].0, keys[i].1, path), v, keys, i + 1, path)
         == Pending(found, v, keys, i, path)
  {
    assert keys[i..][1..] == keys[i + 1..] && keys[i..][0] == keys[i];
    var here, rest := Under(v, keys[i].0, keys[i].1, path), UnderAll(v, keys[i + 1..], path);
    assert found + (here + rest) == found + here + rest;
  }

  lemma PendingDone(found: seq<TextLocation>, v: Json, keys: seq<(string, Shape)>, path: Path)
    ensures Pending(found, v, keys, |keys|, path) == found
  {
    assert keys[|keys|..] == [];
  }

  lemma PendingAll(found: seq<TextLocation>, shape: Shape, v: Json, path: Path)
    requires v.JObj? && !shape.AnyJson? && !shape.JsonBranch? && !shape.Schema?
    ensures Pending(found, v, KeysOf(shape), 0, path) == found + Locations(shape, v, path)
  {
    RecordLocations(shape, v, path);
    assert KeysOf(shape)[0..] == KeysOf(shape);
  }

  /** The locations in the first `i` children a value's role visits. */
  function UpTo(shape: Shape, v: Json, path: Path, i: nat): seq<TextLocation>
    requires i <= |Plan(shape, v)|
  {
    PlanInRange(shape, v);
    LocationsOver(Plan(shape, v)[..i], v, path)
  }

  lemma UpToNext(shape: Shape, v: Json, path: Path, i: nat)
    requires i < |Plan(shape, v)|
    ensures Plan(shape, v)[i].index < Count(v)
    ensures UpTo(shape, v, path, i + 1)
         == UpTo(shape, v, path, i)
          + Locations(Plan(shape, v)[i].shape, Kid(v, Plan(shape, v)[i].index),
                      path + [Seg(v, Plan(shape, v)[i].index)])
  {
    PlanInRange(shape, v);
    LocationsNext(Plan(shape, v), i, v, path);
  }

  lemma UpToItem(shape: Shape, v: Json, path: Path, i: nat)
    requires v.JList? && ItemsOf(shape).Some? && i < |v.items|
    ensures |Plan(shape, v)| == |v.items|
    ensures UpTo(shape, v, path, i + 1)
         == UpTo(shape, v, path, i) + Locations(ItemsOf(shape).value, v.items[i], path + [Index(i)])
  {
    UpToNext(shape, v, path, i);
  }

  lemma UpToField(v: Json, path: Path, i: nat)
    requires v.JObj? && i < |v.fields|
    ensures |Plan(Schema, v)| == |v.fields|
    ensures var (key, item) := (v.fields[i].key, v.fields[i].value);
            var here := Locations(SchemaChild(key, item), item, path + [Key(key)]);
            UpTo(Schema, v, path, i + 1) == UpTo(Schema, v, path, i) + here
  {
    UpToNext(Schema, v, path, i);
  }

  lemma UpToSchemaItem(v: Json, path: Path, i: nat)
    requires v.JList? && i < |v.items|
    ensures |Plan(Schema, v)| == |v.items|
    ensures UpTo(Schema, v, path, i + 1) == UpTo(Schema, v, path, i) + Locations(Schema, v.items[i], path + [Index(i)])
  {
    UpToNext(Schema, v, path, i);
  }

  lemma UpToEnds(shape: Shape, v: Json, path: Path)
    requires !v.JStr?
    ensures UpTo(shape, v, path, 0) == []
    ensures UpTo(shape, v, path, |Plan(shape, v)|) == Locations(shape, v, path)
  {
    assert Plan(shape, v)[..|Plan(shape, v)|] == Plan(shape, v);
  }

  // ---- the collectors ----

  class Collector {
    var found: seq<TextLocation>

    constructor ()
      ensures found == []
    {
      found := [];
    }

    /** `found.append(...)` if there is a string under the key. */
    method AppendText(v: Json, key: string, path: Path)
      modifies this
      ensures found == old(found) + Under(v, key, TextOnly, path)
    {
      match Get(v, key) {
        case Some(x) =>
          if x.JStr? {
            found := found + [TextLocation(path + [Key(key)], x.s)];
          } else {
            OnlyStrings(x, path + [Key(key)]);
          }
        case None =>
      }
    }

    method CollectJson(value: Json, path: Path)
      modifies this
      ensures found == old(found) + Locations(AnyJson, value, path)
      decreases value
    {
      if value.JStr? {
        found := found + [TextLocation(path, value.s)];
      } else if value.JList? {
        UpToEnds(AnyJson, value, path);
        for i := 0 to |value.items|
          invariant |Plan(AnyJson, value)| == |value.items| && found == old(found) + UpTo(AnyJson, value, path, i)
        {
          UpToNext(AnyJson, value, path, i);
          CollectJson(value.items[i], path + [Index(i)]);
        }
      } else if value.JObj? {
        UpToEnds(AnyJson, value, path);
        for i := 0 to |value.fields|
          invariant |Plan(AnyJson, value)| == |value.fields| && found == old(found) + UpTo(AnyJson, value, path, i)
        {
          UpToNext(AnyJson, value, path, i);
          CollectJson(value.fields[i].value, path + [Key(value.fields[i].key)]);
        }
      }
    }

    /** `if isinstance(v, dict | list): collect_json(v, path)`. */
    method CollectBranch(value: Json, path: Path)
      modifies this
      ensures found == old(found) + Locations(JsonBranch, value, path)
    {
      if value.JList? || value.JObj? {
        CollectJson(value, path);
      }
    }

    method CollectTextList(value: Json, path: Path)
      requires value.JList?
      modifies this
      ensures found == old(found) + Locations(TextList, value, path)
    {
      UpToEnds(TextList, value, path);
      for i := 0 to |value.items|
        invariant |Plan(TextList, value)| == |value.items| && found == old(found) + UpTo(TextList, value, path, i)
      {
        UpToItem(TextList, value, path, i);
        if value.items[i].JStr? {
          found := found + [TextLocation(path + [Index(i)], value.items[i].s)];
        } else {
          OnlyStrings(value.items[i], path + [Index(i)]);
        }
      }
    }

    method CollectSchema(value: Json, path: Path)
      modifies this
      ensures found == old(found) + Locations(Schema, value, path)
      decreases value
    {
      if value.JObj? {
        UpToEnds(Schema, value, path);
        for i := 0 to |value.fields|
          invariant |Plan(Schema, value)| == |value.fields| && found == old(found) + UpTo(Schema, value, path, i)
        {
          UpToField(value, path, i);
          var key, item, child := value.fields[i].key, value.fields[i].value, path + [Key(value.fields[i].key)];
          if key in SCHEMA_TEXT_KEYS && item.JStr? {
            found := found + [TextLocation(child, item.s)];
          } else if key in SCHEMA_LIST_KEYS && item.JList? {
            CollectTextList(item, child);
          } else {
            CollectSchema(item, child);
          }
        }
      } else if value.JList? {
        UpToEnds(Schema, value, path);
        for i := 0 to |value.items|
          invariant |Plan(Schema, value)| == |value.items| && found == old(found) + UpTo(Schema, value, path, i)
        {
          UpToSchemaItem(value, path, i);
          CollectSchema(value.items[i], path + [Index(i)]);
        }
      }
    }

    method CollectBlock(block: Json, path: Path)
      modifies this
      ensures found == old(found) + Locations(Block, block, path)
      decreases block, 1
    {
      if !block.JObj? {
        return;
      }
      PendingAll(found, Block, block, path);
      PendingStep(found, block, KeysOf(Block), 0, path);
      AppendText(block, "text", path);
      PendingStep(found, block, KeysOf(Block), 1, path);
      BranchUnder(block, "input", path);
      PendingStep(found, block, KeysOf(Block), 2, path);
      ContentUnder(block, "content", path);
      PendingDone(found, block, KeysOf(Block), path);
    }

    method CollectContent(value: Json, path: Path)
      modifies this
      ensures found == old(found) + Locations(Content, value, path)
      decreases value, 2
    {
      if value.JStr? {
        found := found + [TextLocation(path, value.s)];
      } else if value.JList? {
        UpToEnds(Content, value, path);
        for i := 0 to |value.items|
          invariant |Plan(Content, value)| == |value.items| && found == old(found) + UpTo(Content, value, path, i)
        {
          UpToItem(Content, value, path, i);
          CollectBlock(value.items[i], path + [Index(i)]);
        }
      }
    }

    method CollectCallFunction(fn: Json, path: Path)
      modifies this
      ensures found == old(found) + Locations(CallFunction, fn, path)
    {
      if !fn.JObj? {
        return;
      }
      PendingAll(found, CallFunction, fn, path);
      PendingStep(found, fn, KeysOf(CallFunction), 0, path);
      AppendText(fn, "arguments", path);
      PendingDone(found, fn, KeysOf(CallFunction), path);
    }

    method CollectToolCall(call: Json, path: Path)
      modifies this
      ensures found == old(found) + Locations(ToolCall, call, path)
    {
      if !call.JObj? {
        return;
      }
      PendingAll(found, ToolCall, call, path);
      PendingStep(found, call, KeysOf(ToolCall), 0, path);
      CallFunctionUnder(call, "function", path);
      PendingStep(found, call, KeysOf(ToolCall), 1, path);
      BranchUnder(call, "input", path);
      PendingDone(found, call, KeysOf(ToolCall), path);
    }

    method CollectToolCalls(value: Json, path: Path)
      modifies this
      ensures found == old(found) + Locations(ToolCalls, value, path)
    {
      if !value.JList? {
        return;
      }
      UpToEnds(ToolCalls, value, path);
      for i := 0 to |value.items|
        invariant |Plan(ToolCalls, value)| == |value.items| && found == old(found) + UpTo(ToolCalls, value, path, i)
      {
        UpToItem(ToolCalls, value, path, i);
        CollectToolCall(value.items[i], path + [Index(i)]);
      }
    }

    method CollectMessage(message: Json, path: Path)
      modifies this
      ensures found == old(found) + Locations(Message, message, path)
    {
      if !message.JObj? {
        return;
      }
      PendingAll(found, Message, message, path);
      PendingStep(found, message, KeysOf(Message), 0, path);
      ContentUnder(message, "content", path);
      PendingStep(found, message, KeysOf(Message), 1, path);
      ToolCallsUnder(message, "tool_calls", path);
      PendingStep(found, message, KeysOf(Message), 2, path);
      AppendText(message, "tool_result", path);
      PendingDone(found, message, KeysOf(Message), path);
    }

    method CollectMessages(value: Json, path: Path)
      modifies this
      ensures found == old(found) + Locations(Messages, value, path)
    {
      if !value.JList? {
        return;
      }
      UpToEnds(Messages, value, path);
      for i := 0 to |value.items|
        invariant |Plan(Messages, value)| == |value.items| && found == old(found) + UpTo(Messages, value, path, i)
      {
        UpToItem(Messages, value, path, i);
        CollectMessage(value.items[i], path + [Index(i)]);
      }
    }

    method CollectToolFunction(fn: Json, path: Path)
      modifies this
      ensures found == old(found) + Locations(ToolFunction, fn, path)
    {
      if !fn.JObj? {
        return;
      }
      PendingAll(found, ToolFunction, fn, path);
      PendingStep(found, fn, KeysOf(ToolFunction), 0, path);
      AppendText(fn, "description", path);
      PendingStep(found, fn, KeysOf(ToolFunction), 1, path);
      SchemaUnder(fn, "parameters", path);
      PendingDone(found, fn, KeysOf(ToolFunction), path);
    }

    method CollectTool(tool: Json, path: Path)
      modifies this
      ensures found == old(found) + Locations(Tool, tool, path)
    {
      if !tool.JObj? {
        return;
      }
      PendingAll(found, Tool, tool, path);
      PendingStep(found, tool, KeysOf(Tool), 0, path);
      AppendText(tool, "description", path);
      PendingStep(found, tool, KeysOf(Tool), 1, path);
      SchemaUnder(tool, "input_schema", path);
      PendingStep(found, tool, KeysOf(Tool), 2, path);
      ToolFunctionUnder(tool, "function", path);
      PendingDone(found, tool, KeysOf(Tool), path);
    }

    method CollectTools(value: Json, path: Path)
      modifies this
      ensures found == old(found) + Locations(Tools, value, path)
    {
      if !value.JList? {
        return;
      }
      UpToEnds(Tools, value, path);
      for i := 0 to |value.items|
        invariant |Plan(Tools, value)| == |value.items| && found == old(found) + UpTo(Tools, value, path, i)
      {
        UpToItem(Tools, value, path, i);
        CollectTool(value.items[i], path + [Index(i)]);
      }
    }

    method CollectInput(value: Json, path: Path)
      modifies this
      ensures found == old(found) + Locations(Input, value, path)
    {
      if value.JStr? {
        found := found + [TextLocation(path, value.s)];
      } else if value.JList? {
        CollectTextList(value, path);
        assert Plan(Input, value) == Plan(TextList, value);
      }
    }

    method BranchUnder(v: Json, key: string, path: Path)
      modifies this
      ensures found == old(found) + Under(v, key, JsonBranch, path)
    {
      match Get(v, key) {
        case Some(x) => CollectBranch(x, path + [Key(key)]);
        case None =>
      }
    }

    method CallFunctionUnder(v: Json, key: string, path: Path)
      modifies this
      ensures found == old(found) + Under(v, key, CallFunction, path)
    {
      match Get(v, key) {
        case Some(x) => CollectCallFunction(x, path + [Key(key)]);
        case None =>
      }
    }

    method ContentUnder(v: Json, key: string, path: Path)
      modifies this
      ensures found == old(found) + Under(v, key, Content, path)
      decreases v, 0
    {
      match Get(v, key) {
        case Some(x) => CollectContent(x, path + [Key(key)]);
        case None =>
      }
    }

    method InputUnder(v: Json, key: string, path: Path)
      modifies this
      ensures found == old(found) + Under(v, key, Input, path)
    {
      match Get(v, key) {
        case Some(x) => CollectInput(x, path + [Key(key)]);
        case None =>
      }
    }

    method MessagesUnder(v: Json, key: string, path: Path)
      modifies this
      ensures found == old(found) + Under(v, key, Messages, path)
    {
      match Get(v, key) {
        case Some(x) => CollectMessages(x, path + [Key(key)]);
        case None =>
      }
    }

    method SchemaUnder(v: Json, key: string, path: Path)
      modifies this
      ensures found == old(found) + Under(v, key, Schema, path)
    {
      match Get(v, key) {
        case Some(x) => CollectSchema(x, path + [Key(key)]);
        case None =>
      }
    }

    method ToolCallsUnder(v: Json, key: string, path: Path)
      modifies this
      ensures found == old(found) + Under(v, key, ToolCalls, path)
    {
      match Get(v, key) {
        case Some(x) => CollectToolCalls(x, path + [Key(key)]);
        case None =>
      }
    }

    method ToolFunctionUnder(v: Json, key: string, path: Path)
      modifies this
      ensures found == old(found) + Under(v, key, ToolFunction, path)
    {
      match Get(v, key) {
        case Some(x) => CollectToolFunction(x, path + [Key(key)]);
        case None =>
      }
    }

    method ToolsUnder(v: Json, key: string, path: Path)
      modifies this
      ensures found == old(found) + Under(v, key, Tools, path)
    {
      match Get(v, key) {
        case Some(x) => CollectTools(x, path + [Key(key)]);
        case None =>
      }
    }
  }

  function Extracted(payload: Json): seq<TextLocation> { Locations(Payload, payload, []) }

  method ExtractText(payload: Json) returns (found: seq<TextLocation>)
    ensures found == Extracted(payload)
  {
    var collector := new Collector();
    if !payload.JObj? {
      if !payload.JStr? { NoPlanNoLocations(Payload, payload, []); }
      return collector.found;
    }
    PendingAll(collector.found, Payload, payload, []);
    PendingStep(collector.found, payload, KeysOf(Payload), 0, []);
    collector.ContentUnder(payload, "system", []);
    PendingStep(collector.found, payload, KeysOf(Payload), 1, []);
    collector.MessagesUnder(payload, "messages", []);
    PendingStep(collector.found, payload, KeysOf(Payload), 2, []);
    collector.ToolsUnder(payload, "tools", []);
    PendingStep(collector.found, payload, KeysOf(Payload), 3, []);
    collector.InputUnder(payload, "input", []);
    PendingDone(collector.found, payload, KeysOf(Payload), []);
    found := collector.found;
  }
}
