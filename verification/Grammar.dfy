/**
 Which strings of a request are prompt text: a grammar of paths, written on their segments alone, and the proof that
 `extract_text` finds exactly the strings whose path is in it.
 */
module Grammar {
  import opened Outcomes
  import opened JsonTree
  import opened Extract
  import opened Replace

  // ---- the grammar ----

  /** `system`, `messages`, `tools` or `input`, and what may follow. */
  predicate PromptPath(p: Path) {
    p != [] &&
    (|| (p[0] == Key("system") && ContentPath(p[1..]))
     || (p[0] == Key("messages") && MessagesPath(p[1..]))
     || (p[0] == Key("tools") && ToolsPath(p[1..]))
     || (p[0] == Key("input") && (p[1..] == [] || (|p| == 2 && p[1].Index?))))
  }

  /** Content is a string or a list of blocks. */
  predicate ContentPath(p: Path)
    decreases |p|, 1
  {
    p == [] || (p[0].Index? && BlockPath(p[1..]))
  }

  /** A block's text, any string inside its input, and its nested content. */
  predicate BlockPath(p: Path)
    decreases |p|, 0
  {
    p != [] &&
    (|| p == [Key("text")]
     || (p[0] == Key("input") && p[1..] != [])
     || (p[0] == Key("content") && ContentPath(p[1..])))
  }

  predicate MessagesPath(p: Path) {
    |p| >= 2 && p[0].Index? &&
    (|| (p[1] == Key("content") && ContentPath(p[2..]))
     || (p[1] == Key("tool_calls") && ToolCallsPath(p[2..]))
     || p[1..] == [Key("tool_result")])
  }

  /** The arguments of a called function, and any string inside a call's input. */
  predicate ToolCallsPath(p: Path) {
    |p| >= 3 && p[0].Index? && (p[1..] == [Key("function"), Key("arguments")] || p[1] == Key("input"))
  }

  predicate ToolsPath(p: Path) {
    |p| >= 2 && p[0].Index? &&
    (|| p[1..] == [Key("description")]
     || (p[1] == Key("input_schema") && SchemaPath(p[2..]))
     || p[1..] == [Key("function"), Key("description")]
     || (|p| >= 3 && p[1] == Key("function") && p[2] == Key("parameters") && SchemaPath(p[3..])))
  }

  /**
   In a schema: a string under a text key, or one element of a list under a list key; nothing else that such a list
   holds; any other segment leads to a schema again.
   */
  predicate SchemaPath(p: Path)
    decreases |p|
  {
    if p == [] then false
    else if |p| == 1 then p[0] in {Key("description"), Key("default"), Key("const"), Key("title")}
    else if p[0] in {Key("enum"), Key("examples")} && p[1].Index? then |p| == 2
    else SchemaPath(p[1..])
  }

  // ---- the roles of values follow it ----

  /** The paths below a value of the given role. */
  predicate Below(shape: Shape, p: Path) {
    match shape
    case Payload => PromptPath(p)
    case Content => ContentPath(p)
    case Block => BlockPath(p)
    case Messages => MessagesPath(p)
    case Message => MessagesPath([Index(0)] + p)
    case ToolCalls => ToolCallsPath(p)
    case ToolCall => ToolCallsPath([Index(0)] + p)
    case CallFunction => p == [Key("arguments")]
    case Tools => ToolsPath(p)
    case Tool => ToolsPath([Index(0)] + p)
    case ToolFunction => p == [Key("description")] || (p != [] && p[0] == Key("parameters") && SchemaPath(p[1..]))
    case AnyJson => true
    case JsonBranch => p != []
    case Schema => SchemaPath(p)
    case TextList => |p| == 1 && p[0].Index?
    case Input => p == [] || (|p| == 1 && p[0].Index?)
    case TextOnly => p == []
  }

  ghost predicate StringAt(v: Json, p: Path) { Resolve(v, p).Some? && Resolve(v, p).value.JStr? }

  /** Some visit of the plan goes to child `i`, in a role below which `p` is prompt text. */
  ghost predicate Leads(plan: seq<Visit>, i: nat, p: Path) {
    exists k :: 0 <= k < |plan| && plan[k].index == i && Below(plan[k].shape, p)
  }

  /** The visits of a record are those under its keys. */
  lemma {:induction false} NamedLeads(v: Json, keys: seq<(string, Shape)>, i: nat, p: Path)
    requires DistinctFields(v) && v.JObj? && i < Count(v)
    ensures Leads(Named(v, keys), i, p) <==>
            exists k :: 0 <= k < |keys| && Seg(v, i) == Key(keys[k].0) && Below(keys[k].1, p)
    decreases |keys|
  {
    if keys != [] {
      var rest, plan := keys[1..], Named(v, keys);
      NamedLeads(v, rest, i, p);
      var first := Child(v, Key(keys[0].0));
      if Seg(v, i) == Key(keys[0].0) { ChildIs(v, i); }
      assert first == Some(i) <==> Seg(v, i) == Key(keys[0].0);
      LeadsFirst(v, keys, i, p);
      assert (exists k :: 0 <= k < |keys| && Seg(v, i) == Key(keys[k].0) && Below(keys[k].1, p))
          <==> (Seg(v, i) == Key(keys[0].0) && Below(keys[0].1, p))
               || exists k :: 0 <= k < |rest| && Seg(v, i) == Key(rest[k].0) && Below(rest[k].1, p) by {
        SplitKeys(v, keys, i, p);
      }
    }
  }

  lemma SplitKeys(v: Json, keys: seq<(string, Shape)>, i: nat, p: Path)
    requires keys != [] && i < Count(v)
    ensures (exists k :: 0 <= k < |keys| && Seg(v, i) == Key(keys[k].0) && Below(keys[k].1, p))
            <==> (Seg(v, i) == Key(keys[0].0) && Below(keys[0].1, p))
                 || exists k :: 0 <= k < |keys[1..]| && Seg(v, i) == Key(keys[1..][k].0) && Below(keys[1..][k].1, p)
  {
    if k :| 0 <= k < |keys[1..]| && Seg(v, i) == Key(keys[1..][k].0) && Below(keys[1..][k].1, p) {
      assert keys[k + 1] == keys[1..][k];
    }
    if k :| 0 < k < |keys| && Seg(v, i) == Key(keys[k].0) && Below(keys[k].1, p) {
      assert keys[1..][k - 1] == keys[k];
    }
  }

  lemma LeadsFirst(v: Json, keys: seq<(string, Shape)>, i: nat, p: Path)
    requires keys != []
    ensures Leads(Named(v, keys), i, p) <==>
            (Child(v, Key(keys[0].0)) == Some(i) && Below(keys[0].1, p)) || Leads(Named(v, keys[1..]), i, p)
  {
    var plan, rest := Named(v, keys), Named(v, keys[1..]);
    if Child(v, Key(keys[0].0)).Some? {
      assert plan[1..] == rest && plan[0] == Visit(Child(v, Key(keys[0].0)).value, keys[0].1);
      if k :| 0 <= k < |rest| && rest[k].index == i && Below(rest[k].shape, p) { assert plan[k + 1] == rest[k]; }
      if k :| 0 < k < |plan| && plan[k].index == i && Below(plan[k].shape, p) { assert rest[k - 1] == plan[k]; }
      assert plan[0].index == i && Below(plan[0].shape, p) ==> Leads(plan, i, p);
    }
  }

  lemma AllLeads(v: Json, shape: Shape, i: nat, p: Path)
    requires i < Count(v)
    ensures Leads(All(v, shape), i, p) <==> Below(shape, p)
  {
    assert All(v, shape)[i] == Visit(i, shape);
  }

  lemma SchemaLeads(v: Json, i: nat, p: Path)
    requires v.JObj? && i < Count(v)
    ensures Leads(SchemaVisits(v), i, p) <==> Below(SchemaChild(v.fields[i].key, v.fields[i].value), p)
  {
    assert SchemaVisits(v)[i] == Visit(i, SchemaChild(v.fields[i].key, v.fields[i].value));
  }

  /** In a schema the child's own kind tells which role it has, and the rest of the path tells its kind. */
  lemma SchemaStep(v: Json, i: nat, p: Path)
    requires i < Count(v) && StringAt(Kid(v, i), p)
    ensures Leads(SchemaVisits(v), i, p) <==> SchemaPath([Seg(v, i)] + p)
  {
    var q := [Seg(v, i)] + p;
    assert q[1..] == p;
    if p != [] {
      assert p[0].Index? <==> Kid(v, i).JList? by { ChildKind(Kid(v, i), p[0]); }
    }
    if v.JObj? {
      SchemaLeads(v, i, p);
    } else {
      AllLeads(v, Schema, i, p);
    }
  }

  /** A segment that leads somewhere is an index in a list and a key in an object. */
  lemma ChildKind(v: Json, s: Segment)
    requires Child(v, s).Some?
    ensures (s.Index? ==> v.JList?) && (s.Key? ==> v.JObj?)
  {
  }

  /** A record: its keys, spelled out. */
  lemma RecordStep(shape: Shape, v: Json, i: nat, p: Path)
    requires DistinctFields(v) && v.JObj? && i < Count(v)
    requires !shape.AnyJson? && !shape.JsonBranch? && !shape.Schema?
    ensures Leads(Named(v, KeysOf(shape)), i, p) <==> Below(shape, [Seg(v, i)] + p)
  {
    match shape
    case Payload => PayloadStep(v, i, p);
    case Block => BlockStep(v, i, p);
    case Message => MessageStep(v, i, p);
    case ToolCall => ToolCallStep(v, i, p);
    case CallFunction => CallFunctionStep(v, i, p);
    case Tool => ToolStep(v, i, p);
    case ToolFunction => ToolFunctionStep(v, i, p);
    case _ => KeylessStep(shape, v, i, p);
  }

  /** Roles of strings and lists take nothing from an object. */
  lemma KeylessStep(shape: Shape, v: Json, i: nat, p: Path)
    requires v.JObj? && i < Count(v) && KeysOf(shape) == []
    requires !shape.AnyJson? && !shape.JsonBranch? && !shape.Schema?
    ensures !Leads(Named(v, KeysOf(shape)), i, p) && !Below(shape, [Seg(v, i)] + p)
  {
    var q := [Seg(v, i)] + p;
    assert q[0].Key?;
  }

  lemma PayloadStep(v: Json, i: nat, p: Path)
    requires DistinctFields(v) && v.JObj? && i < Count(v)
    ensures Leads(Named(v, KeysOf(Payload)), i, p) <==> PromptPath([Seg(v, i)] + p)
  {
    var q, keys := [Seg(v, i)] + p, KeysOf(Payload);
    NamedLeads(v, keys, i, p);
    assert q[1..] == p && q[0] == Seg(v, i);
    assert keys[0] == ("system", Content) && keys[1] == ("messages", Messages);
    assert keys[2] == ("tools", Tools) && keys[3] == ("input", Input);
  }

  lemma BlockStep(v: Json, i: nat, p: Path)
    requires DistinctFields(v) && v.JObj? && i < Count(v)
    ensures Leads(Named(v, KeysOf(Block)), i, p) <==> BlockPath([Seg(v, i)] + p)
  {
    var q, s, keys := [Seg(v, i)] + p, Seg(v, i), KeysOf(Block);
    NamedLeads(v, keys, i, p);
    assert q[1..] == p && q[0] == s;
    assert keys[0] == ("text", TextOnly) && keys[1] == ("input", JsonBranch) && keys[2] == ("content", Content);
    assert q == [Key("text")] <==> s == Key("text") && p == [];
  }

  lemma CallFunctionStep(v: Json, i: nat, p: Path)
    requires DistinctFields(v) && v.JObj? && i < Count(v)
    ensures Leads(Named(v, KeysOf(CallFunction)), i, p) <==> [Seg(v, i)] + p == [Key("arguments")]
  {
    var q, s, keys := [Seg(v, i)] + p, Seg(v, i), KeysOf(CallFunction);
    NamedLeads(v, keys, i, p);
    assert keys[0] == ("arguments", TextOnly);
    assert q == [Key("arguments")] <==> s == Key("arguments") && p == [] by { assert q[0] == s && q[1..] == p; }
  }

  lemma ToolFunctionStep(v: Json, i: nat, p: Path)
    requires DistinctFields(v) && v.JObj? && i < Count(v)
    ensures Leads(Named(v, KeysOf(ToolFunction)), i, p) <==> Below(ToolFunction, [Seg(v, i)] + p)
  {
    var q, s, keys := [Seg(v, i)] + p, Seg(v, i), KeysOf(ToolFunction);
    NamedLeads(v, keys, i, p);
    assert q[1..] == p && q[0] == s;
    assert keys[0] == ("description", TextOnly) && keys[1] == ("parameters", Schema);
    assert q == [Key("description")] <==> s == Key("description") && p == [];
  }

  lemma MessageStep(v: Json, i: nat, p: Path)
    requires DistinctFields(v) && v.JObj? && i < Count(v)
    ensures Leads(Named(v, KeysOf(Message)), i, p) <==> MessagesPath([Index(0)] + ([Seg(v, i)] + p))
  {
    var r, s, keys := [Index(0)] + ([Seg(v, i)] + p), Seg(v, i), KeysOf(Message);
    NamedLeads(v, keys, i, p);
    assert keys[0] == ("content", Content) && keys[1] == ("tool_calls", ToolCalls);
    assert keys[2] == ("tool_result", TextOnly);
    assert r[2..] == p && r[1] == s && r[1..] == [s] + p;
    assert r[1..] == [Key("tool_result")] <==> s == Key("tool_result") && p == [];
  }

  lemma ToolCallStep(v: Json, i: nat, p: Path)
    requires DistinctFields(v) && v.JObj? && i < Count(v)
    ensures Leads(Named(v, KeysOf(ToolCall)), i, p) <==> ToolCallsPath([Index(0)] + ([Seg(v, i)] + p))
  {
    var r, s, keys := [Index(0)] + ([Seg(v, i)] + p), Seg(v, i), KeysOf(ToolCall);
    NamedLeads(v, keys, i, p);
    assert keys[0] == ("function", CallFunction) && keys[1] == ("input", JsonBranch);
    assert r[1] == s && r[1..] == [s] + p;
    assert r[1..] == [Key("function"), Key("arguments")] <==> s == Key("function") && p == [Key("arguments")] by {
      assert ([s] + p)[1..] == p;
      assert [Key("function"), Key("arguments")] == [Key("function")] + [Key("arguments")];
    }
  }

  lemma ToolStep(v: Json, i: nat, p: Path)
    requires DistinctFields(v) && v.JObj? && i < Count(v)
    ensures Leads(Named(v, KeysOf(Tool)), i, p) <==> ToolsPath([Index(0)] + ([Seg(v, i)] + p))
  {
    var keys := KeysOf(Tool);
    NamedLeads(v, keys, i, p);
    assert keys[0] == ("description", TextOnly) && keys[1] == ("input_schema", Schema);
    assert keys[2] == ("function", ToolFunction);
    ToolsPathOf(Seg(v, i), p);
  }

  /** Tool paths, by what follows the index. */
  lemma ToolsPathOf(s: Segment, p: Path)
    ensures ToolsPath([Index(0)] + ([s] + p)) <==>
            || (s == Key("description") && p == [])
            || (s == Key("input_schema") && SchemaPath(p))
            || (s == Key("function") && Below(ToolFunction, p))
  {
    var r := [Index(0)] + ([s] + p);
    assert r[1] == s && r[1..] == [s] + p && r[2..] == p;
    assert ([s] + p)[1..] == p && |[s] + p| == 1 + |p|;
    if p == [] {
      assert [s] + p == [s];
    } else {
      assert r[2] == p[0] && r[3..] == p[1..];
      assert [Key("function"), Key("description")] == [Key("function")] + [Key("description")];
      assert [s] + p == [Key("function"), Key("description")] <==> s == Key("function") && p == [Key("description")];
    }
  }

  /** A list: its elements, all in one role. */
  lemma ListStep(shape: Shape, v: Json, i: nat, p: Path)
    requires v.JList? && i < Count(v)
    requires !shape.AnyJson? && !shape.JsonBranch? && !shape.Schema?
    ensures Leads(Plan(shape, v), i, p) <==> Below(shape, [Seg(v, i)] + p)
  {
    if ItemsOf(shape).Some? {
      AllLeads(v, ItemsOf(shape).value, i, p);
      ItemsBelow(shape, i, p);
    } else {
      assert Plan(shape, v) == [];
      NoItemsBelow(shape, i, p);
    }
  }

  lemma ItemsBelow(shape: Shape, i: nat, p: Path)
    requires ItemsOf(shape).Some?
    ensures Below(ItemsOf(shape).value, p) <==> Below(shape, [Index(i)] + p)
  {
    var q := [Index(i)] + p;
    assert q[1..] == p && q[0] == Index(i);
    SameAfterIndex(q, p);
  }

  lemma NoItemsBelow(shape: Shape, i: nat, p: Path)
    requires ItemsOf(shape).None? && !shape.AnyJson? && !shape.JsonBranch? && !shape.Schema?
    ensures !Below(shape, [Index(i)] + p)
  {
    var q := [Index(i)] + p;
    var r := [Index(0)] + q;
    assert q[0] == Index(i) && r[1] == Index(i) && r[1..] == q;
  }

  /** Which index comes first does not matter. */
  lemma SameAfterIndex(q: Path, p: Path)
    requires q != [] && q[0].Index? && q[1..] == p
    ensures MessagesPath(q) == MessagesPath([Index(0)] + p) && ToolCallsPath(q) == ToolCallsPath([Index(0)] + p)
    ensures ToolsPath(q) == ToolsPath([Index(0)] + p)
  {
    var r := [Index(0)] + p;
    assert r[1..] == q[1..];
    assert |p| >= 1 ==> r[1] == q[1] && r[2..] == q[2..];
    assert |p| >= 2 ==> r[2] == q[2] && r[3..] == q[3..];
  }

  /** What the collectors visit in a value is what the grammar allows after its segment. */
  lemma PlanStep(shape: Shape, v: Json, i: nat, p: Path)
    requires DistinctFields(v) && i < Count(v) && StringAt(Kid(v, i), p)
    ensures Leads(Plan(shape, v), i, p) <==> Below(shape, [Seg(v, i)] + p)
  {
    if shape.AnyJson? || shape.JsonBranch? {
      AllLeads(v, AnyJson, i, p);
    } else if shape.Schema? {
      SchemaStep(v, i, p);
    } else if v.JObj? {
      RecordStep(shape, v, i, p);
    } else {
      ListStep(shape, v, i, p);
    }
  }

  // ---- extraction is the grammar ----

  /** Every location lies strictly below a value that is no string. */
  lemma NotHere(shape: Shape, v: Json, path: Path)
    requires !v.JStr?
    ensures !Listed(Locations(shape, v, path), path)
  {
    PlanInRange(shape, v);
    LocationsOverUnder(Plan(shape, v), v, path);
    var all := LocationsOver(Plan(shape, v), v, path);
    forall i | 0 <= i < |all| ensures all[i].path != path {
      var k :| 0 <= k < |Plan(shape, v)| && path + [Seg(v, Plan(shape, v)[k].index)] <= all[i].path;
    }
  }

  /** A path that leaves a value through no child of it is no location. */
  lemma NowhereElse(shape: Shape, v: Json, path: Path, rel: Path)
    requires rel != [] && (v.JStr? || Child(v, rel[0]).None?)
    ensures !Listed(Locations(shape, v, path), path + rel)
  {
    if !v.JStr? {
      PlanInRange(shape, v);
      LocationsOverUnder(Plan(shape, v), v, path);
      var all := LocationsOver(Plan(shape, v), v, path);
      forall i | 0 <= i < |all| ensures all[i].path != path + rel {
        var k :| 0 <= k < |Plan(shape, v)| && path + [Seg(v, Plan(shape, v)[k].index)] <= all[i].path;
        var below := path + [Seg(v, Plan(shape, v)[k].index)];
        assert below[|path|] == Seg(v, Plan(shape, v)[k].index) && all[i].path[|path|] == below[|path|];
        assert (path + rel)[|path|] == rel[0];
      }
    } else {
      assert forall l :: l in Locations(shape, v, path) ==> l.path == path;
      assert |path + rel| > |path|;
    }
  }

  lemma {:induction false} ListedExactly(shape: Shape, v: Json, path: Path, rel: Path)
    requires WellFormed(v)
    ensures Listed(Locations(shape, v, path), path + rel) <==> Below(shape, rel) && StringAt(v, rel)
    decreases |rel|
  {
    if rel == [] {
      assert path + rel == path;
      if v.JStr? {
        if Collects(shape) { assert Locations(shape, v, path)[0].path == path; }
      } else {
        NotHere(shape, v, path);
      }
    } else if v.JStr? || Child(v, rel[0]).None? {
      NowhereElse(shape, v, path, rel);
    } else {
      var i, p := Child(v, rel[0]).value, rel[1..];
      var below := path + [Seg(v, i)];
      assert path + rel == below + p && rel == [Seg(v, i)] + p;
      PlanInRange(shape, v);
      forall k | 0 <= k < |Plan(shape, v)| && Plan(shape, v)[k].index == i
        ensures Listed(Locations(Plan(shape, v)[k].shape, Kid(v, i), below), below + p)
                <==> Below(Plan(shape, v)[k].shape, p) && StringAt(Kid(v, i), p)
      {
        ListedExactly(Plan(shape, v)[k].shape, Kid(v, i), below, p);
      }
      ListedInKid(shape, v, path, i, p);
    }
  }

  /** One step: if what is extracted below a child follows the grammar, so does what is extracted through it. */
  lemma ListedInKid(shape: Shape, v: Json, path: Path, i: nat, p: Path)
    requires WellFormed(v) && !v.JStr? && i < Count(v)
    requires forall k :: 0 <= k < |Plan(shape, v)| && Plan(shape, v)[k].index == i ==>
               (Listed(Locations(Plan(shape, v)[k].shape, Kid(v, i), path + [Seg(v, i)]), path + [Seg(v, i)] + p)
                <==> Below(Plan(shape, v)[k].shape, p) && StringAt(Kid(v, i), p))
    ensures Listed(Locations(shape, v, path), path + [Seg(v, i)] + p)
            <==> Below(shape, [Seg(v, i)] + p) && StringAt(Kid(v, i), p)
  {
    PlanInRange(shape, v);
    PlanDistinct(shape, v);
    ListedBelow(Plan(shape, v), v, path, i, path + [Seg(v, i)] + p);
    if StringAt(Kid(v, i), p) { PlanStep(shape, v, i, p); }
  }

  /** `extract_text` finds the strings of the payload whose path is in the grammar, and nothing else. */
  lemma ExtractsExactly(payload: Json, p: Path)
    requires WellFormed(payload)
    ensures Listed(Extracted(payload), p) <==>
            PromptPath(p) && Resolve(payload, p).Some? && Resolve(payload, p).value.JStr?
  {
    assert [] + p == p;
    ListedExactly(Payload, payload, [], p);
  }

  // ---- the order of extraction ----

  /** The order in which a record's keys are visited. */
  function Place(shape: Shape, key: string): nat {
    match shape
    case Payload => if key == "system" then 0 else if key == "messages" then 1 else if key == "tools" then 2 else 3
    case Block => if key == "text" then 0 else if key == "input" then 1 else 2
    case Message => if key == "content" then 0 else if key == "tool_calls" then 1 else 2
    case ToolCall => if key == "function" then 0 else 1
    case Tool => if key == "description" then 0 else if key == "input_schema" then 1 else 2
    case ToolFunction => if key == "description" then 0 else 1
    case _ => 0
  }

  /** Child `x` is visited before child `y`: records go by their keys, everything else as it stands in the payload. */
  predicate ComesFirst(shape: Shape, v: Json, x: nat, y: nat)
    requires x < Count(v) && y < Count(v)
  {
    if v.JList? || shape.AnyJson? || shape.JsonBranch? || shape.Schema? then x < y
    else v.JObj? && Place(shape, v.fields[x].key) < Place(shape, v.fields[y].key)
  }

  /** Locations come in the order of the plan. */
  lemma {:induction false} PlanOrder(plan: seq<Visit>, v: Json, path: Path, i: nat, j: nat) returns (k: nat, l: nat)
    requires InRange(plan, v) && i < j < |LocationsOver(plan, v, path)|
    ensures k <= l < |plan|
    ensures path + [Seg(v, plan[k].index)] <= LocationsOver(plan, v, path)[i].path
    ensures path + [Seg(v, plan[l].index)] <= LocationsOver(plan, v, path)[j].path
    decreases |plan|
  {
    var first := path + [Seg(v, plan[0].index)];
    var here, rest := Locations(plan[0].shape, Kid(v, plan[0].index), first), LocationsOver(plan[1..], v, path);
    LocationsUnder(plan[0].shape, Kid(v, plan[0].index), first);
    if |here| <= i {
      k, l := PlanOrder(plan[1..], v, path, i - |here|, j - |here|);
      k, l := k + 1, l + 1;
    } else {
      k, l := 0, 0;
      if |here| <= j {
        LocationsOverUnder(plan[1..], v, path);
        l :| 0 <= l < |plan[1..]| && path + [Seg(v, plan[1..][l].index)] <= rest[j - |here|].path;
        l := l + 1;
      }
    }
  }

  lemma {:induction false} NamedOrder(v: Json, keys: seq<(string, Shape)>, k: nat, l: nat) returns (a: nat, b: nat)
    requires k < l < |Named(v, keys)| && InRange(Named(v, keys), v)
    ensures a < b < |keys|
    ensures Seg(v, Named(v, keys)[k].index) == Key(keys[a].0) && Seg(v, Named(v, keys)[l].index) == Key(keys[b].0)
    decreases |keys|
  {
    var rest := keys[1..];
    NamedInRange(v, rest);
    if Child(v, Key(keys[0].0)).None? {
      a, b := NamedOrder(v, rest, k, l);
      a, b := a + 1, b + 1;
    } else if k > 0 {
      a, b := NamedOrder(v, rest, k - 1, l - 1);
      a, b := a + 1, b + 1;
    } else {
      NamedFrom(v, rest, l - 1);
      a := 0;
      b :| 0 <= b < |rest| && Seg(v, Named(v, rest)[l - 1].index) == Key(rest[b].0);
      b := b + 1;
    }
  }

  /** The keys of a role stand in their places. */
  lemma KeysInPlace(shape: Shape, a: nat, b: nat)
    requires a < b < |KeysOf(shape)|
    ensures Place(shape, KeysOf(shape)[a].0) < Place(shape, KeysOf(shape)[b].0)
  {
  }

  lemma VisitsInOrder(shape: Shape, v: Json, k: nat, l: nat)
    requires k < l < |Plan(shape, v)| && InRange(Plan(shape, v), v)
    ensures ComesFirst(shape, v, Plan(shape, v)[k].index, Plan(shape, v)[l].index)
  {
    if !(v.JList? || shape.AnyJson? || shape.JsonBranch? || shape.Schema?) {
      var a, b := NamedOrder(v, KeysOf(shape), k, l);
      KeysInPlace(shape, a, b);
    }
  }

  /** What is extracted through one child of a value comes before what is extracted through a later one. */
  lemma ExtractsInOrder(shape: Shape, v: Json, path: Path, i: nat, j: nat, x: nat, y: nat)
    requires WellFormed(v) && i < j < |Locations(shape, v, path)| && x < Count(v) && y < Count(v) && x != y
    requires path + [Seg(v, x)] <= Locations(shape, v, path)[i].path
    requires path + [Seg(v, y)] <= Locations(shape, v, path)[j].path
    ensures ComesFirst(shape, v, x, y)
  {
    PlanInRange(shape, v);
    var plan, all := Plan(shape, v), Locations(shape, v, path);
    var k, l := PlanOrder(plan, v, path, i, j);
    SameChild(v, path, plan[k].index, x, all[i].path);
    SameChild(v, path, plan[l].index, y, all[j].path);
    VisitsInOrder(shape, v, k, l);
  }

  lemma SameChild(v: Json, path: Path, a: nat, b: nat, p: Path)
    requires DistinctFields(v) && a < Count(v) && b < Count(v)
    requires path + [Seg(v, a)] <= p && path + [Seg(v, b)] <= p
    ensures a == b
  {
    assert p[|path|] == (path + [Seg(v, a)])[|path|] == (path + [Seg(v, b)])[|path|];
    SegsDistinct(v, a, b);
  }
}
