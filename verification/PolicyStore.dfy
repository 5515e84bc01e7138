/**
 Loading, serializing and storing policies (`frostglass/policy/loader.py`). Raw policies are JSON trees; the store's
 tables are a map from version to raw policy and the active version.
 */
module PolicyStore {
  import opened Outcomes
  import opened Text
  import opened Sorting
  import opened JsonTree
  import opened Policy

  datatype PolicyError =
    | BadAction | BadNames | BadRule | BadRuleId | BadEntityTypes | BadConfidence | BadScope | BadReason
    | BadConsistency | BadVersion | BadRules | DuplicateIds | BadShadowMode | NotAMapping
    | VersionTooOld | UnknownVersion | NoActivePolicy

  // ---- loading ----

  function ActionNamed(name: string): Option<Action> {
    if name == "allow" then Some(Allow)
    else if name == "pseudonymize" then Some(Pseudonymize)
    else if name == "hash" then Some(Hash)
    else if name == "tag" then Some(Tag)
    else if name == "block" then Some(Block)
    else None
  }

  function NameOf(action: Action): string {
    match action
    case Allow => "allow"
    case Pseudonymize => "pseudonymize"
    case Hash => "hash"
    case Tag => "tag"
    case Block => "block"
  }

  /** An action, "pseudonymize" when the key is absent. */
  function ActionFrom(v: Option<Json>): Result<Action, PolicyError> {
    match v
    case None => Ok(Pseudonymize)
    case Some(x) =>
      if !x.JStr? then Err(BadAction)
      else match ActionNamed(x.s) case None => Err(BadAction) case Some(a) => Ok(a)
  }

  predicate NonEmptyStrings(items: seq<Json>) {
    forall i :: 0 <= i < |items| ==> items[i].JStr? && items[i].s != ""
  }

  function StringSet(items: seq<Json>): set<string>
    requires NonEmptyStrings(items)
  {
    set i | 0 <= i < |items| :: items[i].s
  }

  /** A set of names, empty when absent or null. */
  function NamesFrom(v: Option<Json>): Result<set<string>, PolicyError> {
    match v
    case None => Ok({})
    case Some(x) =>
      if x.JNull? then Ok({})
      else if !x.JList? || !NonEmptyStrings(x.items) then Err(BadNames)
      else Ok(StringSet(x.items))
  }

  function ConfidenceFrom(v: Option<Json>): Result<real, PolicyError> {
    var value := match v
      case None => Some(0.0)
      case Some(JInt(n)) => Some(n as real)
      case Some(JReal(r)) => Some(r)
      case _ => None;
    if value.Some? && 0.0 <= value.value <= 1.0 then Ok(value.value) else Err(BadConfidence)
  }

  function ScopeOf(users: Option<Json>, teams: Option<Json>, models: Option<Json>): Result<Scope, PolicyError> {
    var u :- NamesFrom(users);
    var t :- NamesFrom(teams);
    var m :- NamesFrom(models);
    Ok(Scope(u, t, m))
  }

  /** The scope mapping, empty when absent. */
  function ScopeRaw(v: Option<Json>): Result<Json, PolicyError> {
    match v
    case None => Ok(JObj([]))
    case Some(x) => if x.JObj? then Ok(x) else Err(BadScope)
  }

  function ScopeFrom(raw: Json): Result<Scope, PolicyError> {
    ScopeOf(Get(raw, "users"), Get(raw, "teams"), Get(raw, "models"))
  }

  function ReasonFrom(v: Option<Json>): Result<string, PolicyError> {
    match v
    case None => Ok("Matched policy rule.")
    case Some(x) => if x.JStr? && x.s != "" then Ok(x.s) else Err(BadReason)
  }

  function ConsistencyFrom(v: Option<Json>): Result<Option<string>, PolicyError> {
    match v
    case None => Ok(None)
    case Some(x) =>
      if x.JNull? then Ok(None)
      else if x.JStr? && x.s in {"request", "session", "tenant"} then Ok(Some(x.s))
      else Err(BadConsistency)
  }

  function IdFrom(v: Option<Json>): Result<string, PolicyError> {
    match v
    case None => Err(BadRuleId)
    case Some(x) => if x.JStr? && x.s != "" then Ok(x.s) else Err(BadRuleId)
  }

  function TypesFrom(v: Option<Json>): Result<set<string>, PolicyError> {
    match v
    case None => Err(BadEntityTypes)
    case Some(x) => if x.JList? && NonEmptyStrings(x.items) then Ok(StringSet(x.items)) else Err(BadEntityTypes)
  }

  /** A rule from the values under its keys. */
  function RuleOf(
    id: Option<Json>, types: Option<Json>, confidence: Option<Json>, scope: Option<Json>, reason: Option<Json>,
    consistency: Option<Json>, action: Option<Json>): Result<Rule, PolicyError> {
    var i :- IdFrom(id);
    var t :- TypesFrom(types);
    var c :- ConfidenceFrom(confidence);
    var raw :- ScopeRaw(scope);
    var r :- ReasonFrom(reason);
    var k :- ConsistencyFrom(consistency);
    var a :- ActionFrom(action);
    var s :- ScopeFrom(raw);
    Ok(Rule(i, t, a, c, s, r, k))
  }

  function RuleFrom(raw: Json): Result<Rule, PolicyError> {
    if !raw.JObj? then Err(BadRule)
    else RuleOf(Get(raw, "id"), Get(raw, "entity_types"), Get(raw, "min_confidence"), Get(raw, "scope"),
                Get(raw, "reason"),
                Get(raw, "consistency"), Get(raw, "action"))
  }

  function ParseAll<T>(items: seq<Json>, parse: Json -> Result<T, PolicyError>): Result<seq<T>, PolicyError> {
    if items == [] then Ok([])
    else
      var first :- parse(items[0]);
      var rest :- ParseAll(items[1..], parse);
      Ok([first] + rest)
  }

  /** The raw rules, none when the key is absent. */
  function ListedRules(v: Option<Json>): Result<seq<Json>, PolicyError> {
    match v
    case None => Ok([])
    case Some(x) => if x.JList? then Ok(x.items) else Err(BadRules)
  }

  predicate IdsUnique(rules: seq<Rule>) {
    forall i, j :: 0 <= i < j < |rules| ==> rules[i].id != rules[j].id
  }

  function VersionFrom(v: Option<Json>): Result<int, PolicyError> {
    match v
    case Some(JInt(n)) => if n >= 1 then Ok(n) else Err(BadVersion)
    case _ => Err(BadVersion)
  }

  function ShadowFrom(v: Option<Json>): Result<bool, PolicyError> {
    match v
    case None => Ok(false)
    case Some(x) => if x.JBool? then Ok(x.b) else Err(BadShadowMode)
  }

  /** A rule set from the values under its keys. */
  function RuleSetOf(
    version: Option<Json>, listed: Option<Json>, shadow: Option<Json>, action: Option<Json>)
    : Result<RuleSet, PolicyError> {
    var v :- VersionFrom(version);
    var items :- ListedRules(listed);
    var rules :- ParseAll(items, RuleFrom);
    if !IdsUnique(rules) then Err(DuplicateIds)
    else
      var s :- ShadowFrom(shadow);
      var a :- ActionFrom(action);
      Ok(RuleSet(v, a, rules, s))
  }

  function RuleSetFrom(raw: Json): Result<RuleSet, PolicyError> {
    if !raw.JObj? then Err(NotAMapping)
    else RuleSetOf(Get(raw, "version"), Get(raw, "rules"), Get(raw, "shadow_mode"), Get(raw, "default_action"))
  }

  // ---- serializing ----

  /** The elements of a set in some order. */
  ghost function Listing(s: set<string>): (l: seq<string>)
    ensures forall x :: x in l <==> x in s
    ensures Pairwise(l, Unequal)
  {
    if s == {} then [] else var x :| x in s; [x] + Listing(s - {x})
  }

  predicate Unequal(a: string, b: string) { a != b }

  /** `sorted(s)`. */
  ghost function SortedList(s: set<string>): seq<string> { Sort(Listing(s), StrLeq) }

  function Strings(l: seq<string>): Json { JList(seq(|l|, i requires 0 <= i < |l| => JStr(l[i]))) }

  ghost function RawScope(scope: Scope): Json {
    JObj([Field("models", Strings(SortedList(scope.models))), Field("teams", Strings(SortedList(scope.teams))),
          Field("users", Strings(SortedList(scope.users)))])
  }

  ghost function RawRule(rule: Rule): Json {
    JObj([Field("action", JStr(NameOf(rule.action))),
          Field("consistency", if rule.consistency.None? then JNull else JStr(rule.consistency.value)),
          Field("entity_types", Strings(SortedList(rule.entityTypes))),
          Field("id", JStr(rule.id)),
          Field("min_confidence", JReal(rule.minConfidence)),
          Field("reason", JStr(rule.reason)),
          Field("scope", RawScope(rule.scope))])
  }

  /** `_serialize`, as the tree that is dumped; keys are sorted. */
  ghost function Raw(ruleset: RuleSet): Json {
    JObj([Field("default_action", JStr(NameOf(ruleset.defaultAction))),
          Field("rules", JList(RawRules(ruleset.rules))),
          Field("shadow_mode", JBool(ruleset.shadowMode)),
          Field("version", JInt(ruleset.version))])
  }

  ghost function RawRules(rules: seq<Rule>): seq<Json> {
    seq(|rules|, i requires 0 <= i < |rules| => RawRule(rules[i]))
  }

  // ---- what the loader accepts ----

  predicate ValidRule(rule: Rule) {
    && rule.id != "" && "" !in rule.entityTypes && 0.0 <= rule.minConfidence <= 1.0
    && "" !in rule.scope.users && "" !in rule.scope.teams && "" !in rule.scope.models && rule.reason != ""
    && (rule.consistency.Some? ==> rule.consistency.value in {"request", "session", "tenant"})
  }

  predicate ValidRuleSet(ruleset: RuleSet) {
    && ruleset.version >= 1 && IdsUnique(ruleset.rules)
    && forall i :: 0 <= i < |ruleset.rules| ==> ValidRule(ruleset.rules[i])
  }

  lemma RuleOfValid(
    id: Option<Json>, types: Option<Json>, confidence: Option<Json>, scope: Option<Json>, reason: Option<Json>,
    consistency: Option<Json>, action: Option<Json>)
    requires RuleOf(id, types, confidence, scope, reason, consistency, action).Ok?
    ensures ValidRule(RuleOf(id, types, confidence, scope, reason, consistency, action).value)
  {
    TypesNonEmpty(types);
    ScopeFromValid(ScopeRaw(scope).value);
  }

  lemma RuleFromValid(raw: Json)
    requires RuleFrom(raw).Ok?
    ensures ValidRule(RuleFrom(raw).value)
  {
    RuleOfValid(Get(raw, "id"), Get(raw, "entity_types"), Get(raw, "min_confidence"), Get(raw, "scope"),
                Get(raw, "reason"),
                Get(raw, "consistency"), Get(raw, "action"));
  }

  lemma TypesNonEmpty(v: Option<Json>)
    ensures TypesFrom(v).Ok? ==> "" !in TypesFrom(v).value
  {
  }

  /** Entity types are any list of non-empty strings, also the empty list. */
  lemma TypesAcceptedExactly(v: Json)
    ensures TypesFrom(Some(v)).Ok? <==> v.JList? && forall x :: x in v.items ==> x.JStr? && x.s != ""
    ensures TypesFrom(Some(v)).Ok? ==> forall t :: t in TypesFrom(Some(v)).value <==> JStr(t) in v.items
    ensures TypesFrom(Some(JList([]))) == Ok({})
  {
    if v.JList? && NonEmptyStrings(v.items) {
      forall t ensures t in StringSet(v.items) <==> JStr(t) in v.items { InStringSet(v.items, t); }
    }
    assert StringSet([]) == {};
  }

  lemma InStringSet(items: seq<Json>, t: string)
    requires NonEmptyStrings(items)
    ensures t in StringSet(items) <==> JStr(t) in items
  {
    if JStr(t) in items {
      var i :| 0 <= i < |items| && items[i] == JStr(t);
      assert items[i].s == t;
    }
  }

  lemma ScopeFromValid(raw: Json)
    requires ScopeFrom(raw).Ok?
    ensures var scope := ScopeFrom(raw).value; "" !in scope.users && "" !in scope.teams && "" !in scope.models
  {
    NamesNonEmpty(Get(raw, "users"));
    NamesNonEmpty(Get(raw, "teams"));
    NamesNonEmpty(Get(raw, "models"));
  }

  lemma NamesNonEmpty(v: Option<Json>)
    ensures NamesFrom(v).Ok? ==> "" !in NamesFrom(v).value
  {
  }

  /** Each parsed element comes from a raw one. */
  lemma {:induction false} ParsedFrom<T>(items: seq<Json>, parse: Json -> Result<T, PolicyError>)
    requires ParseAll(items, parse).Ok?
    ensures var parsed := ParseAll(items, parse).value;
            |items| == |parsed| && forall i :: 0 <= i < |items| ==> parse(items[i]) == Ok(parsed[i])
  {
    if items != [] {
      ParsedFrom(items[1..], parse);
      var parsed, rest := ParseAll(items, parse).value, ParseAll(items[1..], parse).value;
      forall i | 0 <= i < |items| ensures parse(items[i]) == Ok(parsed[i]) {
        if i > 0 { assert items[i] == items[1..][i - 1] && parsed[i] == rest[i - 1]; }
      }
    }
  }

  lemma {:induction false} ParseAllOf<T>(items: seq<Json>, parse: Json -> Result<T, PolicyError>, parsed: seq<T>)
    requires |items| == |parsed| && forall i :: 0 <= i < |items| ==> parse(items[i]) == Ok(parsed[i])
    ensures ParseAll(items, parse) == Ok(parsed)
  {
    if items != [] {
      forall i | 0 <= i < |items[1..]| ensures parse(items[1..][i]) == Ok(parsed[1..][i]) {
        assert items[1..][i] == items[i + 1];
      }
      assert parse(items[0]) == Ok(parsed[0]) && parsed == [parsed[0]] + parsed[1..];
      ParseAllOf(items[1..], parse, parsed[1..]);
    }
  }

  /** Everything the loader accepts is valid. */
  lemma LoadedIsValid(raw: Json)
    requires RuleSetFrom(raw).Ok?
    ensures ValidRuleSet(RuleSetFrom(raw).value)
  {
    RuleSetOfValid(Get(raw, "version"), Get(raw, "rules"), Get(raw, "shadow_mode"), Get(raw, "default_action"));
  }

  lemma RuleSetOfValid(version: Option<Json>, listed: Option<Json>, shadow: Option<Json>, action: Option<Json>)
    requires RuleSetOf(version, listed, shadow, action).Ok?
    ensures ValidRuleSet(RuleSetOf(version, listed, shadow, action).value)
  {
    var items := ListedRules(listed).value;
    var rules := ParseAll(items, RuleFrom).value;
    ParsedFrom(items, RuleFrom);
    forall i | 0 <= i < |rules| ensures ValidRule(rules[i]) {
      RuleFromValid(items[i]);
    }
  }

  lemma SortedListElements(s: set<string>, x: string)
    ensures x in SortedList(s) <==> x in s
  {
    SortSameElements(Listing(s), StrLeq, x);
  }

  lemma NamesRoundTrip(s: set<string>)
    requires "" !in s
    ensures NonEmptyStrings(Strings(SortedList(s)).items) && StringSet(Strings(SortedList(s)).items) == s
  {
    var l := SortedList(s);
    forall i | 0 <= i < |l| ensures l[i] in s {
      SortedListElements(s, l[i]);
    }
    forall x | x in s ensures x in StringSet(Strings(l).items) {
      SortedListElements(s, x);
      var i :| 0 <= i < |l| && l[i] == x;
      assert Strings(l).items[i].s == x;
    }
  }

  lemma ActionRoundTrip(a: Action)
    ensures ActionFrom(Some(JStr(NameOf(a)))) == Ok(a)
  {
  }

  /** Looking a key up in a short object. */
  lemma GetStep(fields: seq<Field>, key: string, i: nat)
    requires i < |fields| && fields[i].key == key && forall j :: 0 <= j < i ==> fields[j].key != key
    ensures Get(JObj(fields), key) == Some(fields[i].value)
  {
    var v := JObj(fields);
    var c := Child(v, Key(key));
    assert Seg(v, i) == Key(key);
    forall j | 0 <= j < i ensures Seg(v, j) != Key(key) { assert fields[j].key != key; }
    assert c.Some? && c.value == i by { FirstChild(v, Key(key), 0, i); }
  }

  lemma {:induction false} FirstChild(v: Json, s: Segment, from: nat, i: nat)
    requires from <= i < Count(v) && Seg(v, i) == s && forall j :: from <= j < i ==> Seg(v, j) != s
    ensures ChildFrom(v, s, from) == Some(i)
    decreases i - from
  {
    if from < i { FirstChild(v, s, from + 1, i); }
  }

  lemma RawScopeKeys(scope: Scope)
    ensures Get(RawScope(scope), "users") == Some(Strings(SortedList(scope.users)))
    ensures Get(RawScope(scope), "teams") == Some(Strings(SortedList(scope.teams)))
    ensures Get(RawScope(scope), "models") == Some(Strings(SortedList(scope.models)))
  {
    var fields := RawScope(scope).fields;
    GetStep(fields, "models", 0);
    GetStep(fields, "teams", 1);
    GetStep(fields, "users", 2);
  }

  lemma ScopeRoundTrip(scope: Scope)
    requires "" !in scope.users && "" !in scope.teams && "" !in scope.models
    ensures ScopeFrom(RawScope(scope)) == Ok(scope)
  {
    RawScopeKeys(scope);
    ScopeOfLists(scope);
  }

  lemma ScopeOfLists(scope: Scope)
    requires "" !in scope.users && "" !in scope.teams && "" !in scope.models
    ensures ScopeOf(Some(Strings(SortedList(scope.users))), Some(Strings(SortedList(scope.teams))),
                    Some(Strings(SortedList(scope.models))))
         == Ok(scope)
  {
    NamesRoundTrip(scope.users);
    NamesRoundTrip(scope.teams);
    NamesRoundTrip(scope.models);
  }

  lemma RawRuleKeysFirst(rule: Rule)
    ensures Get(RawRule(rule), "action") == Some(JStr(NameOf(rule.action)))
    ensures Get(RawRule(rule),
                "consistency") == Some(if rule.consistency.None? then JNull else JStr(rule.consistency.value))
  {
    var fields := RawRule(rule).fields;
    GetStep(fields, "action", 0);
    GetStep(fields, "consistency", 1);
  }

  lemma RawRuleKeysMiddle(rule: Rule)
    ensures Get(RawRule(rule), "entity_types") == Some(Strings(SortedList(rule.entityTypes)))
    ensures Get(RawRule(rule), "id") == Some(JStr(rule.id))
  {
    var fields := RawRule(rule).fields;
    GetStep(fields, "entity_types", 2);
    GetStep(fields, "id", 3);
  }

  lemma RawRuleKeysLast(rule: Rule)
    ensures Get(RawRule(rule), "min_confidence") == Some(JReal(rule.minConfidence))
    ensures Get(RawRule(rule), "reason") == Some(JStr(rule.reason))
    ensures Get(RawRule(rule), "scope") == Some(RawScope(rule.scope))
  {
    var fields := RawRule(rule).fields;
    GetStep(fields, "min_confidence", 4);
    GetStep(fields, "reason", 5);
    GetStep(fields, "scope", 6);
  }

  lemma RuleOfParts(rule: Rule, types: Json, scope: Json, consistency: Json, action: Json)
    requires rule.id != "" && 0.0 <= rule.minConfidence <= 1.0 && rule.reason != ""
    requires TypesFrom(Some(types)) == Ok(rule.entityTypes) && scope.JObj? && ScopeFrom(scope) == Ok(rule.scope)
    requires ConsistencyFrom(Some(consistency)) == Ok(rule.consistency) && ActionFrom(Some(action)) == Ok(rule.action)
    ensures RuleOf(Some(JStr(rule.id)), Some(types), Some(JReal(rule.minConfidence)), Some(scope),
                   Some(JStr(rule.reason)),
                   Some(consistency), Some(action)) == Ok(rule)
  {
  }

  lemma RuleRoundTrip(rule: Rule)
    requires ValidRule(rule)
    ensures RuleFrom(RawRule(rule)) == Ok(rule)
  {
    var consistency := if rule.consistency.None? then JNull else JStr(rule.consistency.value);
    RawRuleKeysFirst(rule);
    RawRuleKeysMiddle(rule);
    RawRuleKeysLast(rule);
    NamesRoundTrip(rule.entityTypes);
    ScopeRoundTrip(rule.scope);
    ActionRoundTrip(rule.action);
    RuleOfParts(rule, Strings(SortedList(rule.entityTypes)), RawScope(rule.scope), consistency,
                JStr(NameOf(rule.action)));
  }

  lemma RulesRoundTrip(rules: seq<Rule>)
    requires forall i :: 0 <= i < |rules| ==> ValidRule(rules[i])
    ensures ParseAll(RawRules(rules), RuleFrom) == Ok(rules)
  {
    forall i | 0 <= i < |rules| ensures RuleFrom(RawRules(rules)[i]) == Ok(rules[i]) {
      RuleRoundTrip(rules[i]);
    }
    ParseAllOf(RawRules(rules), RuleFrom, rules);
  }

  lemma RawKeys(ruleset: RuleSet)
    ensures Get(Raw(ruleset), "default_action") == Some(JStr(NameOf(ruleset.defaultAction)))
    ensures Get(Raw(ruleset), "rules") == Some(JList(RawRules(ruleset.rules)))
    ensures Get(Raw(ruleset), "shadow_mode") == Some(JBool(ruleset.shadowMode))
    ensures Get(Raw(ruleset), "version") == Some(JInt(ruleset.version))
  {
    var fields := Raw(ruleset).fields;
    GetStep(fields, "default_action", 0);
    GetStep(fields, "rules", 1);
    GetStep(fields, "shadow_mode", 2);
    GetStep(fields, "version", 3);
  }

  lemma RuleSetOfParts(ruleset: RuleSet, items: seq<Json>, action: Json)
    requires ruleset.version >= 1 && IdsUnique(ruleset.rules)
    requires ParseAll(items, RuleFrom) == Ok(ruleset.rules) && ActionFrom(Some(action)) == Ok(ruleset.defaultAction)
    ensures RuleSetOf(Some(JInt(ruleset.version)), Some(JList(items)), Some(JBool(ruleset.shadowMode)),
                      Some(action)) == Ok(ruleset)
  {
  }

  /** Serializing and loading gives a rule set back exactly when the loader could have produced it. */
  lemma RoundTripExactly(ruleset: RuleSet)
    ensures RuleSetFrom(Raw(ruleset)) == Ok(ruleset) <==> ValidRuleSet(ruleset)
  {
    if ValidRuleSet(ruleset) {
      RawKeys(ruleset);
      ActionRoundTrip(ruleset.defaultAction);
      RulesRoundTrip(ruleset.rules);
      RuleSetOfParts(ruleset, RawRules(ruleset.rules), JStr(NameOf(ruleset.defaultAction)));
    } else if RuleSetFrom(Raw(ruleset)) == Ok(ruleset) {
      LoadedIsValid(Raw(ruleset));
    }
  }

  // ---- what the loader reads, key by key ----

  /** The word for the action. */
  predicate Says(word: Json, action: Action) {
    match action
    case Allow => word == JStr("allow")
    case Pseudonymize => word == JStr("pseudonymize")
    case Hash => word == JStr("hash")
    case Tag => word == JStr("tag")
    case Block => word == JStr("block")
  }

  /** The action under the key, or pseudonymize without the key. */
  ghost predicate ReadsAction(raw: Json, key: string, action: Action) {
    match Get(raw, key) case None => action == Pseudonymize case Some(word) => Says(word, action)
  }

  ghost predicate IsNameList(v: Json, names: set<string>) {
    && v.JList? && (forall x :: x in v.items ==> x.JStr? && x.s != "")
    && forall t :: t in names <==> JStr(t) in v.items
  }

  /** Names under a key of the scope, none if it is absent or null. */
  ghost predicate ReadsNames(v: Option<Json>, names: set<string>) {
    if v.None? || v.value.JNull? then names == {} else IsNameList(v.value, names)
  }

  ghost predicate ReadsConfidence(v: Option<Json>, confidence: real) {
    && 0.0 <= confidence <= 1.0
    && match v
       case None => confidence == 0.0
       case Some(JInt(n)) => confidence == n as real
       case Some(JReal(r)) => confidence == r
       case Some(_) => false
  }

  ghost predicate ReadsConsistency(v: Option<Json>, consistency: Option<string>) {
    if v.None? || v.value.JNull? then consistency.None?
    else v.value.JStr? && v.value.s in {"request", "session", "tenant"} && consistency == Some(v.value.s)
  }

  /** The tree says just this rule: absent keys stand for their defaults. */
  ghost predicate ReadsRule(raw: Json, rule: Rule) {
    && raw.JObj? && rule.id != "" && Get(raw, "id") == Some(JStr(rule.id))
    && Get(raw, "entity_types").Some? && IsNameList(Get(raw, "entity_types").value, rule.entityTypes)
    && ReadsAction(raw, "action", rule.action)
    && ReadsConfidence(Get(raw, "min_confidence"), rule.minConfidence)
    && ReadsScope(Get(raw, "scope"), rule.scope)
    && ReadsReason(Get(raw, "reason"), rule.reason)
    && ReadsConsistency(Get(raw, "consistency"), rule.consistency)
  }

  ghost predicate ReadsScope(v: Option<Json>, scope: Scope) {
    if v.None? then scope == Scope({}, {}, {})
    else
      && v.value.JObj?
      && ReadsNames(Get(v.value, "users"), scope.users) && ReadsNames(Get(v.value, "teams"), scope.teams)
      && ReadsNames(Get(v.value, "models"), scope.models)
  }

  lemma NamesRead(v: Option<Json>, names: set<string>)
    ensures NamesFrom(v) == Ok(names) <==> ReadsNames(v, names)
  {
    if v.Some? { ListRead(v.value, names); }
  }

  lemma ListRead(v: Json, names: set<string>)
    ensures v.JList? && NonEmptyStrings(v.items) && StringSet(v.items) == names <==> IsNameList(v, names)
  {
    if v.JList? && NonEmptyStrings(v.items) {
      forall t ensures t in StringSet(v.items) <==> JStr(t) in v.items { InStringSet(v.items, t); }
    }
  }

  lemma ScopeRead(v: Option<Json>, scope: Scope)
    ensures ScopeRaw(v).Ok? && ScopeFrom(ScopeRaw(v).value) == Ok(scope) <==> ReadsScope(v, scope)
  {
    if v.None? {
      EmptyScope();
    } else {
      NamesRead(Get(v.value, "users"), scope.users);
      NamesRead(Get(v.value, "teams"), scope.teams);
      NamesRead(Get(v.value, "models"), scope.models);
    }
  }

  lemma EmptyScope()
    ensures ScopeFrom(JObj([])) == Ok(Scope({}, {}, {}))
  {
    assert Get(JObj([]), "users") == None && Get(JObj([]), "teams") == None && Get(JObj([]), "models") == None;
  }

  lemma ActionRead(raw: Json, key: string, action: Action)
    ensures ActionFrom(Get(raw, key)) == Ok(action) <==> ReadsAction(raw, key, action)
  {
  }

  lemma TypesRead(v: Option<Json>, types: set<string>)
    ensures TypesFrom(v) == Ok(types) <==> v.Some? && IsNameList(v.value, types)
  {
    if v.Some? { ListRead(v.value, types); }
  }

  ghost predicate ReadsReason(v: Option<Json>, reason: string) {
    && reason != ""
    && match v case None => reason == "Matched policy rule." case Some(word) => word == JStr(reason)
  }

  lemma WordsRead(id: Option<Json>, reason: Option<Json>, consistency: Option<Json>, rule: Rule)
    ensures IdFrom(id) == Ok(rule.id) <==> rule.id != "" && id == Some(JStr(rule.id))
    ensures ReasonFrom(reason) == Ok(rule.reason) <==> ReadsReason(reason, rule.reason)
    ensures ConsistencyFrom(consistency) == Ok(rule.consistency) <==> ReadsConsistency(consistency, rule.consistency)
  {
  }

  lemma ConfidenceRead(v: Option<Json>, confidence: real)
    ensures ConfidenceFrom(v) == Ok(confidence) <==> ReadsConfidence(v, confidence)
  {
  }

  /** A rule loads exactly from the trees that say it. */
  lemma RuleReadExactly(raw: Json, rule: Rule)
    ensures RuleFrom(raw) == Ok(rule) <==> ReadsRule(raw, rule)
  {
    if raw.JObj? {
      ScopeRead(Get(raw, "scope"), rule.scope);
      ActionRead(raw, "action", rule.action);
      TypesRead(Get(raw, "entity_types"), rule.entityTypes);
      WordsRead(Get(raw, "id"), Get(raw, "reason"), Get(raw, "consistency"), rule);
      ConfidenceRead(Get(raw, "min_confidence"), rule.minConfidence);
      RuleParts(Get(raw, "id"), Get(raw, "entity_types"), Get(raw, "min_confidence"), Get(raw, "scope"),
                Get(raw, "reason"), Get(raw, "consistency"), Get(raw, "action"), rule);
    }
  }

  lemma RuleParts(
    id: Option<Json>, types: Option<Json>, confidence: Option<Json>, scope: Option<Json>, reason: Option<Json>,
    consistency: Option<Json>, action: Option<Json>, rule: Rule)
    ensures RuleOf(id, types, confidence, scope, reason, consistency, action) == Ok(rule) <==>
            && IdFrom(id) == Ok(rule.id) && TypesFrom(types) == Ok(rule.entityTypes)
            && ConfidenceFrom(confidence) == Ok(rule.minConfidence)
            && ScopeRaw(scope).Ok? && ScopeFrom(ScopeRaw(scope).value) == Ok(rule.scope)
            && ReasonFrom(reason) == Ok(rule.reason) && ConsistencyFrom(consistency) == Ok(rule.consistency)
            && ActionFrom(action) == Ok(rule.action)
  {
  }

  /** The tree says just this rule set. */
  ghost predicate ReadsRuleSet(raw: Json, ruleset: RuleSet) {
    && raw.JObj? && ruleset.version >= 1 && Get(raw, "version") == Some(JInt(ruleset.version))
    && ReadsAction(raw, "default_action", ruleset.defaultAction)
    && Get(raw, "shadow_mode") == (if Get(raw, "shadow_mode").None? && !ruleset.shadowMode then None
                                   else Some(JBool(ruleset.shadowMode)))
    && (match Get(raw, "rules")
        case None => ruleset.rules == []
        case Some(list) =>
          && list.JList? && |list.items| == |ruleset.rules|
          && forall i :: 0 <= i < |ruleset.rules| ==> ReadsRule(list.items[i], ruleset.rules[i]))
    && forall i, j :: 0 <= i < j < |ruleset.rules| ==> ruleset.rules[i].id != ruleset.rules[j].id
  }

  lemma RulesRead(items: seq<Json>, rules: seq<Rule>)
    ensures ParseAll(items, RuleFrom) == Ok(rules) <==>
            |items| == |rules| && forall i :: 0 <= i < |rules| ==> ReadsRule(items[i], rules[i])
  {
    if ParseAll(items, RuleFrom) == Ok(rules) {
      ParsedFrom(items, RuleFrom);
      forall i | 0 <= i < |rules| ensures ReadsRule(items[i], rules[i]) { RuleReadExactly(items[i], rules[i]); }
    }
    if |items| == |rules| && forall i :: 0 <= i < |rules| ==> ReadsRule(items[i], rules[i]) {
      forall i | 0 <= i < |rules| ensures RuleFrom(items[i]) == Ok(rules[i]) { RuleReadExactly(items[i], rules[i]); }
      ParseAllOf(items, RuleFrom, rules);
    }
  }

  lemma RuleSetParts(version: Option<Json>, listed: Option<Json>, shadow: Option<Json>, action: Option<Json>,
                     ruleset: RuleSet)
    ensures RuleSetOf(version, listed, shadow, action) == Ok(ruleset) <==>
            && VersionFrom(version) == Ok(ruleset.version)
            && ListedRules(listed).Ok? && ParseAll(ListedRules(listed).value, RuleFrom) == Ok(ruleset.rules)
            && IdsUnique(ruleset.rules)
            && ShadowFrom(shadow) == Ok(ruleset.shadowMode) && ActionFrom(action) == Ok(ruleset.defaultAction)
  {
  }

  /** A rule set loads exactly from the trees that say it, whatever other keys they have. */
  lemma RuleSetReadExactly(raw: Json, ruleset: RuleSet)
    ensures RuleSetFrom(raw) == Ok(ruleset) <==> ReadsRuleSet(raw, ruleset)
  {
    if raw.JObj? {
      var listed := Get(raw, "rules");
      RuleSetParts(Get(raw, "version"), listed, Get(raw, "shadow_mode"), Get(raw, "default_action"), ruleset);
      ActionRead(raw, "default_action", ruleset.defaultAction);
      if ListedRules(listed).Ok? { RulesRead(ListedRules(listed).value, ruleset.rules); }
    }
  }

  /** Keys of a stored tree stand in ascending order, already by their first letters. */
  ghost predicate KeysAscend(v: Json) {
    v.JObj? && forall i, j :: 0 <= i < j < |v.fields| ==>
      v.fields[i].key != "" && v.fields[j].key != "" && v.fields[i].key[0] < v.fields[j].key[0]
  }

  lemma StoredKeysAscend(ruleset: RuleSet, rule: Rule)
    ensures KeysAscend(Raw(ruleset)) && KeysAscend(RawRule(rule)) && KeysAscend(RawScope(rule.scope))
  {
    RuleSetKeysAscend(ruleset);
    RuleKeysAscend(rule);
    ScopeKeysAscend(rule.scope);
  }

  lemma RuleSetKeysAscend(ruleset: RuleSet)
    ensures KeysAscend(Raw(ruleset))
  {
  }

  lemma RuleKeysAscend(rule: Rule)
    ensures KeysAscend(RawRule(rule))
  {
  }

  lemma ScopeKeysAscend(scope: Scope)
    ensures KeysAscend(RawScope(scope))
  {
  }

  // ---- the store ----

  datatype Tables = Tables(versions: map<int, Json>, active: int)

  ghost predicate Newest(versions: map<int, Json>, candidate: int) {
    forall v :: v in versions ==> v < candidate
  }

  datatype Step = AddVersion(raw: Json) | Activate(version: int) | Reopen(initial: RuleSet)

  /** What a step does to the tables; rejected steps do nothing. */
  ghost function After(t: Tables, step: Step): Tables {
    match step
    case AddVersion(raw) =>
      (match RuleSetFrom(raw)
       case Err(_) => t
       case Ok(ruleset) =>
         if Newest(t.versions, ruleset.version) then t.(versions := t.versions[ruleset.version := Raw(ruleset)]) else t)
    case Activate(version) => if version in t.versions then t.(active := version) else t
    case Reopen(initial) =>
      if initial.version in t.versions then t else t.(versions := t.versions[initial.version := Raw(initial)])
  }

  ghost function Run(t: Tables, steps: seq<Step>): Tables
    decreases |steps|
  {
    if steps == [] then t else Run(After(t, steps[0]), steps[1..])
  }

  /** The rule set stored under a version. */
  function Stored(t: Tables, version: int): Option<RuleSet> {
    if version in t.versions && RuleSetFrom(t.versions[version]).Ok?
    then Some(RuleSetFrom(t.versions[version]).value) else None
  }

  /** A new database. */
  ghost function NewTables(initial: RuleSet): Tables { Tables(map[initial.version := Raw(initial)], initial.version) }

  /** Every stored policy loads, carries its own version, and one of them is active. */
  ghost predicate Sound(t: Tables) {
    && t.active in t.versions
    && forall v :: v in t.versions ==> RuleSetFrom(t.versions[v]).Ok? && RuleSetFrom(t.versions[v]).value.version == v
  }

  class PolicyStore {
    var versions: map<int, Json>
    var active: int

    function Current(): Tables
      reads this
    {
      Tables(versions, active)
    }

    /** Open a database, new or with the tables of an earlier process; rows that exist are left alone. */
    constructor (existing: Option<Tables>, initial: RuleSet)
      ensures Current() == match existing case None => NewTables(initial) case Some(t) => After(t, Reopen(initial))
    {
      var raw := Serialize(initial);
      match existing {
        case None =>
          versions := map[initial.version := raw];
          active := initial.version;
        case Some(t) =>
          versions := if initial.version in t.versions then t.versions else t.versions[initial.version := raw];
          active := t.active;
      }
    }

    method Write(candidate: RuleSet) returns (result: Result<RuleSet, PolicyError>)
      modifies this
      ensures result == if Newest(old(versions), candidate.version) then Ok(candidate) else Err(VersionTooOld)
      ensures Current() == if result.Ok? then Tables(old(versions)[candidate.version := Raw(candidate)],
                                                     old(active)) else old(Current())
    {
      if exists v | v in versions.Keys :: candidate.version <= v {
        return Err(VersionTooOld);
      }
      var raw := Serialize(candidate);
      versions := versions[candidate.version := raw];
      result := Ok(candidate);
    }

    method Add(raw: Json) returns (result: Result<RuleSet, PolicyError>)
      modifies this
      ensures Current() == After(old(Current()), AddVersion(raw))
      ensures result.Ok? <==> RuleSetFrom(raw).Ok? && Newest(old(versions), RuleSetFrom(raw).value.version)
      ensures result.Ok? ==> result == RuleSetFrom(raw)
    {
      var loaded := RuleSetFrom(raw);
      if loaded.Err? {
        return loaded;
      }
      result := Write(loaded.value);
    }

    /** In a sound store the active policy loads and has the active version; a policy that was written is read back. */
    method ActiveRules() returns (result: Result<RuleSet, PolicyError>)
      ensures active !in versions ==> result == Err(NoActivePolicy)
      ensures Sound(Current()) ==> result.Ok? && ValidRuleSet(result.value) && result.value.version == active
      ensures forall written: RuleSet ::
                active in versions && versions[active] == Raw(written) && ValidRuleSet(written)
                ==> result == Ok(written)
    {
      if active !in versions {
        return Err(NoActivePolicy);
      }
      result := RuleSetFrom(versions[active]);
      if result.Ok? { LoadedIsValid(versions[active]); }
      forall written: RuleSet | versions[active] == Raw(written) && ValidRuleSet(written)
        ensures result == Ok(written)
      {
        RoundTripExactly(written);
      }
    }

    method SetActive(version: int) returns (result: Result<RuleSet, PolicyError>)
      modifies this`active
      ensures Current() == After(old(Current()), Activate(version))
      ensures version !in versions ==> result == Err(UnknownVersion)
      ensures version in versions && Sound(Current()) ==>
                result.Ok? && ValidRuleSet(result.value) && result.value.version == version
    {
      if version !in versions {
        return Err(UnknownVersion);
      }
      active := version;
      result := ActiveRules();
    }
  }

  ghost predicate Ascending(l: seq<string>) {
    forall i, j :: 0 <= i < j < |l| ==> StrLeq(l[i], l[j]) && l[i] != l[j]
  }

  lemma FirstIsLeast(a: seq<string>, x: string)
    requires Ascending(a) && x in a
    ensures StrLeq(a[0], x)
  {
    StrLeqTotal(x, x);
    var i :| 0 <= i < |a| && a[i] == x;
  }

  lemma TailElements(a: seq<string>, x: string)
    requires Ascending(a) && a != []
    ensures x in a[1..] <==> x in a && x != a[0]
  {
    if x in a && x != a[0] {
      var i :| 0 <= i < |a| && a[i] == x;
      assert a[1..][i - 1] == x;
    }
    if x in a[1..] {
      var i :| 0 <= i < |a[1..]| && a[1..][i] == x;
      assert a[i + 1] == x;
    }
  }

  /** Ascending lists with the same elements are equal. */
  lemma {:induction false} AscendingUnique(a: seq<string>, b: seq<string>)
    requires Ascending(a) && Ascending(b) && forall x :: x in a <==> x in b
    ensures a == b
    decreases |a|
  {
    assert a != [] ==> a[0] in a;
    assert b != [] ==> b[0] in b;
    if a != [] {
      FirstIsLeast(a, b[0]);
      FirstIsLeast(b, a[0]);
      StrLeqTotal(a[0], b[0]);
      forall x ensures x in a[1..] <==> x in b[1..] {
        TailElements(a, x);
        TailElements(b, x);
      }
      AscendingUnique(a[1..], b[1..]);
    }
  }

  lemma StrOrder()
    ensures TotalPreorder(StrLeq)
  {
    forall x, y ensures StrLeq(x, y) || StrLeq(y, x) { StrLeqTotal(x, y); }
    forall x, y, z | StrLeq(x, y) && StrLeq(y, z) ensures StrLeq(x, z) { StrLeqTransitive(x, y, z); }
  }

  lemma SortAscending(l: seq<string>)
    requires Pairwise(l, Unequal)
    ensures Ascending(Sort(l, StrLeq))
  {
    StrOrder();
    SortSorted(l, StrLeq);
    SortPairwise(l, StrLeq, Unequal);
    var r := Sort(l, StrLeq);
    forall i, j | 0 <= i < j < |r| ensures StrLeq(r[i], r[j]) && r[i] != r[j] {
      assert Unequal(r[i], r[j]);
    }
  }

  method SortedNames(s: set<string>) returns (l: seq<string>)
    ensures l == SortedList(s)
  {
    l := [];
    var todo := s;
    while todo != {}
      invariant todo <= s && Pairwise(l, Unequal) && forall x :: x in l <==> x in s - todo
      decreases |todo|
    {
      var x :| x in todo;
      assert x !in l;
      todo := todo - {x};
      l := l + [x];
    }
    ghost var picked := l;
    l := Sort(l, StrLeq);
    SortAscending(picked);
    SortAscending(Listing(s));
    forall x ensures x in l <==> x in SortedList(s) {
      SortSameElements(picked, StrLeq, x);
      SortedListElements(s, x);
    }
    AscendingUnique(l, SortedList(s));
  }

  method SerializeRule(rule: Rule) returns (raw: Json)
    ensures raw == RawRule(rule)
  {
    var models := SortedNames(rule.scope.models);
    var teams := SortedNames(rule.scope.teams);
    var users := SortedNames(rule.scope.users);
    var types := SortedNames(rule.entityTypes);
    raw := JObj([Field("action", JStr(NameOf(rule.action))),
                 Field("consistency", if rule.consistency.None? then JNull else JStr(rule.consistency.value)),
                 Field("entity_types", Strings(types)),
                 Field("id", JStr(rule.id)),
                 Field("min_confidence", JReal(rule.minConfidence)),
                 Field("reason", JStr(rule.reason)),
                 Field("scope", JObj([Field("models", Strings(models)), Field("teams", Strings(teams)),
                                      Field("users", Strings(users))]))]);
  }

  method Serialize(ruleset: RuleSet) returns (raw: Json)
    ensures raw == Raw(ruleset)
  {
    var rules: seq<Json> := [];
    for i := 0 to |ruleset.rules|
      invariant rules == RawRules(ruleset.rules)[..i]
    {
      var rule := SerializeRule(ruleset.rules[i]);
      rules := rules + [rule];
    }
    assert rules == RawRules(ruleset.rules);
    raw := JObj([Field("default_action", JStr(NameOf(ruleset.defaultAction))), Field("rules", JList(rules)),
                 Field("shadow_mode", JBool(ruleset.shadowMode)), Field("version", JInt(ruleset.version))]);
  }

  // ---- runs ----

  /** The policies a run is started or reopened with are ones the loader accepts. */
  ghost predicate InitialsValid(steps: seq<Step>) {
    forall i :: 0 <= i < |steps| && steps[i].Reopen? ==> ValidRuleSet(steps[i].initial)
  }

  lemma FreshSound(initial: RuleSet)
    requires ValidRuleSet(initial)
    ensures Sound(NewTables(initial))
  {
    RoundTripExactly(initial);
  }

  lemma StepSound(t: Tables, step: Step)
    requires Sound(t) && (step.Reopen? ==> ValidRuleSet(step.initial))
    ensures Sound(After(t, step))
    ensures forall v :: v in t.versions ==> v in After(t, step).versions && After(t, step).versions[v] == t.versions[v]
    ensures step.AddVersion? ==> forall v :: v in After(t, step).versions && v !in t.versions ==> Newest(t.versions, v)
    ensures After(t, step).active == if step.Activate? && step.version in t.versions then step.version else t.active
  {
    match step
    case AddVersion(raw) => AddSound(t, raw);
    case Reopen(initial) => ReopenSound(t, initial);
    case Activate(version) => ActivateSound(t, version);
  }

  lemma ReopenSound(t: Tables, initial: RuleSet)
    requires Sound(t) && ValidRuleSet(initial)
    ensures var t' := After(t, Reopen(initial));
            Sound(t') && forall v :: v in t.versions ==> v in t'.versions && t'.versions[v] == t.versions[v]
  {
    InsertSound(t, initial);
  }

  lemma ActivateSound(t: Tables, version: int)
    requires Sound(t)
    ensures var t' := After(t, Activate(version));
            Sound(t') && forall v :: v in t.versions ==> v in t'.versions && t'.versions[v] == t.versions[v]
  {
  }

  lemma AddSound(t: Tables, raw: Json)
    requires Sound(t)
    ensures var t' := After(t, AddVersion(raw));
            && Sound(t') && t'.active == t.active
            && (forall v :: v in t.versions ==> v in t'.versions && t'.versions[v] == t.versions[v])
            && (forall v :: v in t'.versions && v !in t.versions ==> Newest(t.versions, v))
  {
    if RuleSetFrom(raw).Ok? {
      LoadedIsValid(raw);
      InsertSound(t, RuleSetFrom(raw).value);
    }
  }

  /** Storing a loadable rule set under a version of its own keeps everything stored and loadable. */
  lemma InsertSound(t: Tables, ruleset: RuleSet)
    requires Sound(t) && ValidRuleSet(ruleset)
    ensures Sound(t.(versions := t.versions[ruleset.version := Raw(ruleset)]))
  {
    RoundTripExactly(ruleset);
  }

  /** In every run stored policies never change or disappear, all of them load, and the active one exists. */
  lemma {:induction false} RunKeepsPolicies(t: Tables, steps: seq<Step>)
    requires Sound(t) && InitialsValid(steps)
    ensures Sound(Run(t, steps))
    ensures forall v :: v in t.versions ==> v in Run(t, steps).versions && Run(t, steps).versions[v] == t.versions[v]
    decreases |steps|
  {
    if steps != [] {
      StepSound(t, steps[0]);
      assert forall i :: 0 <= i < |steps[1..]| ==> steps[1..][i] == steps[i + 1];
      RunKeepsPolicies(After(t, steps[0]), steps[1..]);
    }
  }

  /** Every run of a new store keeps the initial policy, and everything stored loads, with one policy active. */
  lemma NewStoreKeepsPolicies(initial: RuleSet, steps: seq<Step>)
    requires ValidRuleSet(initial) && InitialsValid(steps)
    ensures Sound(Run(NewTables(initial), steps))
    ensures Stored(Run(NewTables(initial), steps), initial.version) == Some(initial)
  {
    FreshSound(initial);
    RunKeepsPolicies(NewTables(initial), steps);
    RoundTripExactly(initial);
  }

  /** A policy that was written can be activated and read back unchanged, whatever happened since. */
  lemma WrittenIsReadBack(t: Tables, candidate: RuleSet, steps: seq<Step>)
    requires Sound(t) && ValidRuleSet(candidate) && Newest(t.versions, candidate.version) && InitialsValid(steps)
    ensures var later := Run(t.(versions := t.versions[candidate.version := Raw(candidate)]), steps);
            var activated := After(later, Activate(candidate.version));
            activated.active == candidate.version && Stored(activated, activated.active) == Some(candidate)
  {
    InsertSound(t, candidate);
    RunKeepsPolicies(t.(versions := t.versions[candidate.version := Raw(candidate)]), steps);
    RoundTripExactly(candidate);
  }

  /** Deciding again under the version recorded with a decision gives that decision, whatever happened since. */
  lemma RecordedDecisionReplays(t: Tables, steps: seq<Step>, q: Query)
    requires Sound(t) && InitialsValid(steps)
    ensures var recorded := Decide(Stored(t, t.active).value, q);
            var later := Stored(Run(t, steps), recorded.policyVersion);
            later.Some? && Decide(later.value, q) == recorded
  {
    RunKeepsPolicies(t, steps);
    var rules := Stored(t, t.active).value;
    if AnyMatch(rules.rules, q) {
      var i := DecisionIsWinner(rules, q);
    } else {
      NoMatchIsDefault(rules, q);
    }
  }
}
