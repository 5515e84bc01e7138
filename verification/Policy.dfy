/** Policy rules and the precedence between them (`frostglass/policy/models.py`, `frostglass/policy/precedence.py`). */
module Policy {
  import opened Outcomes
  import opened Sorting

  datatype Action = Allow | Pseudonymize | Hash | Tag | Block

  datatype Scope = Scope(users: set<string>, teams: set<string>, models: set<string>) {
    predicate Matches(user: string, team: string, model: string) {
      (users == {} || user in users) && (teams == {} || team in teams) && (models == {} || model in models)
    }

    /** Global 0, model 1, team 2, user 3. */
    function Specificity(): nat {
      if users != {} then 3 else if teams != {} then 2 else if models != {} then 1 else 0
    }
  }

  /** One finding and who sends it to which model. */
  datatype Query = Query(entityType: string, confidence: real, user: string, team: string, model: string)

  datatype Rule = Rule(
    id: string, entityTypes: set<string>, action: Action, minConfidence: real, scope: Scope, reason: string,
    consistency: Option<string>)
  {
    predicate Matches(q: Query) {
      q.entityType in entityTypes && q.confidence >= minConfidence && scope.Matches(q.user, q.team, q.model)
    }
  }

  datatype RuleSet = RuleSet(version: int, defaultAction: Action, rules: seq<Rule>, shadowMode: bool)

  datatype Decision = Decision(action: Action, ruleId: Option<string>, reason: string, policyVersion: int)

  function Restrictiveness(action: Action): nat {
    match action
    case Allow => 0
    case Pseudonymize => 1
    case Hash => 2
    case Tag => 3
    case Block => 4
  }

  /** The sort key `(specificity, restrictiveness)`, largest first. */
  predicate SortsFirst(a: Rule, b: Rule) {
    a.scope.Specificity() > b.scope.Specificity()
    || (a.scope.Specificity() == b.scope.Specificity() && Restrictiveness(a.action) >= Restrictiveness(b.action))
  }

  function Matching(rules: seq<Rule>, q: Query): seq<Rule> { Filter(rules, (r: Rule) => r.Matches(q)) }

  function Blocking(matched: seq<Rule>): seq<Rule> { Filter(matched, (r: Rule) => r.action.Block?) }

  /** `block_rules or matched`. */
  function Contenders(rules: seq<Rule>, q: Query): seq<Rule> {
    var matched := Matching(rules, q);
    if Blocking(matched) != [] then Blocking(matched) else matched
  }

  function ByRule(r: Rule, version: int): Decision { Decision(r.action, Some(r.id), r.reason, version) }

  function ByDefault(ruleset: RuleSet): Decision {
    Decision(ruleset.defaultAction, None, "No matching policy rule; applied default action.", ruleset.version)
  }

  function Decide(ruleset: RuleSet, q: Query): Decision {
    var contenders := Contenders(ruleset.rules, q);
    if Matching(ruleset.rules, q) == [] then ByDefault(ruleset)
    else
      SortKeeps(contenders, SortsFirst);
      ByRule(Sort(contenders, SortsFirst)[0], ruleset.version)
  }

  // ---- precedence ----

  /** `a` takes precedence over `b` or ties with it: block first, then scope, then restrictiveness. */
  predicate Outranks(a: Rule, b: Rule) {
    (a.action.Block? && !b.action.Block?) || (a.action.Block? == b.action.Block? && SortsFirst(a, b))
  }

  /** Rule `i` matches and takes precedence over every matching rule, strictly over earlier ones. */
  ghost predicate Wins(rules: seq<Rule>, q: Query, i: int) {
    && 0 <= i < |rules| && rules[i].Matches(q)
    && (forall j :: 0 <= j < |rules| && rules[j].Matches(q) ==> Outranks(rules[i], rules[j]))
    && (forall j :: 0 <= j < i && rules[j].Matches(q) ==> !Outranks(rules[j], rules[i]))
  }

  ghost predicate AnyMatch(rules: seq<Rule>, q: Query) {
    exists i :: 0 <= i < |rules| && rules[i].Matches(q)
  }

  lemma SortsFirstOrder()
    ensures TotalPreorder(SortsFirst)
  {
  }

  lemma MatchingElements(rules: seq<Rule>, q: Query, r: Rule)
    ensures r in Matching(rules, q) <==> r in rules && r.Matches(q)
    ensures r in Blocking(Matching(rules, q)) <==> r in rules && r.Matches(q) && r.action.Block?
  {
    FilterElements(rules, (r: Rule) => r.Matches(q), r);
    FilterElements(Matching(rules, q), (r: Rule) => r.action.Block?, r);
  }

  /** A contender that sorts strictly before the earlier ones and before all others wins. */
  lemma ContenderWins(rules: seq<Rule>, q: Query, k: nat) returns (i: nat)
    requires k < |Contenders(rules, q)|
    requires forall j :: 0 <= j < |Contenders(rules, q)| ==>
               SortsFirst(Contenders(rules, q)[k], Contenders(rules, q)[j])
    requires forall j :: 0 <= j < k ==> !SortsFirst(Contenders(rules, q)[j], Contenders(rules, q)[k])
    ensures Wins(rules, q, i) && rules[i] == Contenders(rules, q)[k]
  {
    var matched, contenders := Matching(rules, q), Contenders(rules, q);
    var blocked := Blocking(matched) != [];
    var kind := (r: Rule) => r.action.Block?;
    var m: nat := k;
    if blocked { m := FilterIndex(matched, kind, k); }
    i := FilterIndex(rules, (r: Rule) => r.Matches(q), m);
    forall j | 0 <= j < |rules| && rules[j].Matches(q) ensures Outranks(rules[i], rules[j]) {
      MatchingElements(rules, q, rules[j]);
      if rules[j] in contenders {
        var l :| 0 <= l < |contenders| && contenders[l] == rules[j];
      }
      if !blocked { assert rules[j] !in Blocking(matched); }
      if !blocked { assert rules[i] !in Blocking(matched); MatchingElements(rules, q, rules[i]); }
    }
    forall j | 0 <= j < i && rules[j].Matches(q) ensures !Outranks(rules[j], rules[i]) {
      MatchingElements(rules, q, rules[j]);
      MatchingElements(rules, q, rules[i]);
      assert rules[j] in matched[..m];
      if blocked {
        var l :| 0 <= l < m && matched[l] == rules[j];
        if rules[j].action.Block? {
          assert kind(matched[l]);
          assert rules[j] in contenders[..k];
        }
      }
      if rules[j] in contenders[..k] {
        var l :| 0 <= l < k && contenders[l] == rules[j];
      }
    }
  }

  /** With a matching rule, the decision is that of the first rule of highest precedence. */
  lemma DecisionIsWinner(ruleset: RuleSet, q: Query) returns (i: nat)
    requires AnyMatch(ruleset.rules, q)
    ensures Wins(ruleset.rules, q, i) && Decide(ruleset, q) == ByRule(ruleset.rules[i], ruleset.version)
  {
    var j :| 0 <= j < |ruleset.rules| && ruleset.rules[j].Matches(q);
    MatchingElements(ruleset.rules, q, ruleset.rules[j]);
    SortsFirstOrder();
    var k := SortHead(Contenders(ruleset.rules, q), SortsFirst);
    i := ContenderWins(ruleset.rules, q, k);
  }

  lemma NoMatchIsDefault(ruleset: RuleSet, q: Query)
    requires !AnyMatch(ruleset.rules, q)
    ensures Decide(ruleset, q) == ByDefault(ruleset)
  {
    if Matching(ruleset.rules, q) != [] {
      var r := Matching(ruleset.rules, q)[0];
      MatchingElements(ruleset.rules, q, r);
    }
  }

  lemma WinnerUnique(rules: seq<Rule>, q: Query, i: nat, j: nat)
    requires Wins(rules, q, i) && Wins(rules, q, j)
    ensures i == j
  {
  }

  /** The decision in terms of winners, whichever way it comes about. */
  lemma DecisionOfWinner(ruleset: RuleSet, q: Query, i: nat)
    requires Wins(ruleset.rules, q, i)
    ensures Decide(ruleset, q) == ByRule(ruleset.rules[i], ruleset.version)
  {
    var j := DecisionIsWinner(ruleset, q);
    WinnerUnique(ruleset.rules, q, i, j);
  }

  /** A request is blocked exactly when a matching rule blocks it, or nothing matches and the default blocks. */
  lemma BlockExactly(ruleset: RuleSet, q: Query)
    ensures Decide(ruleset, q).action.Block? <==>
            (exists i :: 0 <= i < |ruleset.rules| && ruleset.rules[i].Matches(q) && ruleset.rules[i].action.Block?)
            || (!AnyMatch(ruleset.rules, q) && ruleset.defaultAction.Block?)
  {
    if AnyMatch(ruleset.rules, q) {
      var i := DecisionIsWinner(ruleset, q);
    } else {
      NoMatchIsDefault(ruleset, q);
    }
  }

  lemma TiesShareAction(a: Rule, b: Rule)
    requires Outranks(a, b) && Outranks(b, a)
    ensures a.action == b.action
  {
  }

  lemma SameRulesMatch(a: seq<Rule>, b: seq<Rule>, q: Query, i: nat) returns (j: nat)
    requires multiset(a) == multiset(b) && i < |a|
    ensures j < |b| && b[j] == a[i]
  {
    assert a[i] in multiset(b);
    j :| 0 <= j < |b| && b[j] == a[i];
  }

  /** The action does not depend on the order of the rules. */
  lemma ActionIgnoresOrder(a: RuleSet, b: RuleSet, q: Query)
    requires multiset(a.rules) == multiset(b.rules) && a.defaultAction == b.defaultAction
    ensures Decide(a, q).action == Decide(b, q).action
  {
    if AnyMatch(a.rules, q) {
      var i := DecisionIsWinner(a, q);
      var i' := SameRulesMatch(a.rules, b.rules, q, i);
      var j := DecisionIsWinner(b, q);
      var j' := SameRulesMatch(b.rules, a.rules, q, j);
      assert Outranks(a.rules[i], a.rules[j']) && Outranks(b.rules[j], b.rules[i']);
      TiesShareAction(a.rules[i], b.rules[j]);
    } else {
      if AnyMatch(b.rules, q) {
        var j := DecisionIsWinner(b, q);
        var j' := SameRulesMatch(b.rules, a.rules, q, j);
      }
      NoMatchIsDefault(a, q);
      NoMatchIsDefault(b, q);
    }
  }

  /** Rule `i` matches and nothing matching strictly takes precedence over it. */
  ghost predicate Top(rules: seq<Rule>, q: Query, i: int) {
    && 0 <= i < |rules| && rules[i].Matches(q)
    && (forall j :: 0 <= j < |rules| && rules[j].Matches(q) ==> Outranks(rules[i], rules[j]))
  }

  ghost predicate TopRulesAgree(rules: seq<Rule>, q: Query) {
    forall i, j :: Top(rules, q, i) && Top(rules, q, j) ==>
      rules[i].id == rules[j].id && rules[i].reason == rules[j].reason
  }

  ghost predicate OrderIrrelevant(ruleset: RuleSet, q: Query) {
    forall p: seq<Rule> :: multiset(p) == multiset(ruleset.rules) ==>
      Decide(ruleset.(rules := p), q) == Decide(ruleset, q)
  }

  lemma TopTransfers(a: seq<Rule>, b: seq<Rule>, q: Query, i: nat) returns (j: nat)
    requires multiset(a) == multiset(b) && Top(a, q, i)
    ensures Top(b, q, j) && b[j] == a[i]
  {
    j := SameRulesMatch(a, b, q, i);
    forall k | 0 <= k < |b| && b[k].Matches(q) ensures Outranks(b[j], b[k]) {
      var l := SameRulesMatch(b, a, q, k);
    }
  }

  function ToFront(rules: seq<Rule>, i: nat): seq<Rule>
    requires i < |rules|
  {
    [rules[i]] + rules[..i] + rules[i + 1..]
  }

  lemma ToFrontKeeps(rules: seq<Rule>, i: nat)
    requires i < |rules|
    ensures multiset(ToFront(rules, i)) == multiset(rules)
  {
    assert rules == rules[..i] + [rules[i]] + rules[i + 1..];
  }

  /** The first of the top rules may be any of them, so the full decision is fixed exactly when they agree. */
  lemma DecisionOrderExactly(ruleset: RuleSet, q: Query)
    ensures OrderIrrelevant(ruleset, q) <==> TopRulesAgree(ruleset.rules, q)
  {
    var rules := ruleset.rules;
    if TopRulesAgree(rules, q) {
      forall p: seq<Rule> | multiset(p) == multiset(rules)
        ensures Decide(ruleset.(rules := p), q) == Decide(ruleset, q)
      {
        ActionIgnoresOrder(ruleset, ruleset.(rules := p), q);
        if AnyMatch(rules, q) {
          var i := DecisionIsWinner(ruleset, q);
          var i' := SameRulesMatch(rules, p, q, i);
          var j := DecisionIsWinner(ruleset.(rules := p), q);
          var j' := TopTransfers(p, rules, q, j);
          assert Top(rules, q, i);
        } else {
          if AnyMatch(p, q) {
            var j := DecisionIsWinner(ruleset.(rules := p), q);
            var j' := SameRulesMatch(p, rules, q, j);
          }
          NoMatchIsDefault(ruleset, q);
          NoMatchIsDefault(ruleset.(rules := p), q);
        }
      }
    }
    if OrderIrrelevant(ruleset, q) {
      forall i, j | Top(rules, q, i) && Top(rules, q, j)
        ensures rules[i].id == rules[j].id && rules[i].reason == rules[j].reason
      {
        FrontedDecides(ruleset, q, i);
        FrontedDecides(ruleset, q, j);
        ToFrontKeeps(rules, i);
        ToFrontKeeps(rules, j);
      }
    }
  }

  lemma FrontedDecides(ruleset: RuleSet, q: Query, i: nat)
    requires Top(ruleset.rules, q, i)
    ensures Decide(ruleset.(rules := ToFront(ruleset.rules, i)), q) == ByRule(ruleset.rules[i], ruleset.version)
  {
    var p := ToFront(ruleset.rules, i);
    ToFrontKeeps(ruleset.rules, i);
    forall k | 0 <= k < |p| && p[k].Matches(q) ensures Outranks(p[0], p[k]) {
      var l := SameRulesMatch(p, ruleset.rules, q, k);
    }
    DecisionOfWinner(ruleset.(rules := p), q, 0);
  }

  /** Deleting a rule that did not decide, whether or not any rule did, changes nothing. */
  lemma DeletingLoserKeepsDecision(ruleset: RuleSet, q: Query, j: nat)
    requires j < |ruleset.rules| && !Wins(ruleset.rules, q, j)
    ensures Decide(ruleset.(rules := ruleset.rules[..j] + ruleset.rules[j + 1..]), q) == Decide(ruleset, q)
  {
    var rules := ruleset.rules;
    var p := rules[..j] + rules[j + 1..];
    forall k | 0 <= k < |p| ensures p[k] == rules[if k < j then k else k + 1] {
    }
    if AnyMatch(rules, q) {
      var i := DecisionIsWinner(ruleset, q);
      DecisionOfWinner(ruleset.(rules := p), q, if i < j then i else i - 1);
    } else {
      NoMatchIsDefault(ruleset, q);
      NoMatchIsDefault(ruleset.(rules := p), q);
    }
  }

  // ---- the decision in the terms of the rules' fields ----

  /** The rule names the entity type, asks for no more confidence, and does not exclude user, team or model. */
  predicate Applies(r: Rule, q: Query) {
    && q.entityType in r.entityTypes && q.confidence >= r.minConfidence
    && (r.scope.users == {} || q.user in r.scope.users) && (r.scope.teams == {} || q.team in r.scope.teams)
    && (r.scope.models == {} || q.model in r.scope.models)
  }

  /** Rules that name users come before those that name teams only, then models only, then none. */
  predicate MoreSpecific(a: Scope, b: Scope) {
    || (a.users != {} && b.users == {})
    || (a.users == {} && b.users == {} && a.teams != {} && b.teams == {})
    || (a.users == {} && b.users == {} && a.teams == {} && b.teams == {} && a.models != {} && b.models == {})
  }

  /** Rule `i` applies, and none that applies is more specific. */
  ghost predicate Deciding(rules: seq<Rule>, q: Query, i: int) {
    && 0 <= i < |rules| && Applies(rules[i], q)
    && forall j :: 0 <= j < |rules| && Applies(rules[j], q) ==> !MoreSpecific(rules[j].scope, rules[i].scope)
  }

  ghost predicate SomeDecides(rules: seq<Rule>, q: Query, action: Action) {
    exists i :: Deciding(rules, q, i) && rules[i].action == action
  }

  /** No applicable rule at all: the default, by no rule. */
  lemma DefaultDecides(ruleset: RuleSet, q: Query)
    requires forall i :: 0 <= i < |ruleset.rules| ==> !Applies(ruleset.rules[i], q)
    ensures Decide(ruleset, q) == Decision(ruleset.defaultAction, None,
                                           "No matching policy rule; applied default action.", ruleset.version)
  {
    assert forall r: Rule :: r.Matches(q) == Applies(r, q);
    NoMatchIsDefault(ruleset, q);
  }

  /**
   Unless an applicable rule blocks, the most specific applicable rules decide: tag if any of them tags, otherwise hash,
   otherwise pseudonymize, and allow only if all of them allow.
   */
  lemma ActionExactly(ruleset: RuleSet, q: Query)
    requires exists i :: 0 <= i < |ruleset.rules| && Applies(ruleset.rules[i], q)
    ensures var rules, action := ruleset.rules, Decide(ruleset, q).action;
            if exists i :: 0 <= i < |rules| && Applies(rules[i], q) && rules[i].action.Block? then action.Block?
            else if SomeDecides(rules, q, Tag) then action == Tag
            else if SomeDecides(rules, q, Hash) then action == Hash
            else if SomeDecides(rules, q, Pseudonymize) then action == Pseudonymize
            else action == Allow
  {
    var rules := ruleset.rules;
    assert forall r: Rule :: r.Matches(q) == Applies(r, q);
    var w := DecisionIsWinner(ruleset, q);
    WinnerDecides(rules, q, w);
    forall i | Deciding(rules, q, i) && !rules[w].action.Block?
      ensures AsStrict(rules[w].action, rules[i].action)
    {
      assert Outranks(rules[w], rules[i]) && Outranks(rules[w], rules[w]);
    }
  }

  /** `a` is `b` or stands further on the way from allow over pseudonymize and hash to tag. */
  predicate AsStrict(a: Action, b: Action) {
    a == b || b.Allow? || a.Tag? || (b.Pseudonymize? && a.Hash?) || a.Block?
  }

  /** The winner blocks, or is among the most specific applicable rules. */
  lemma WinnerDecides(rules: seq<Rule>, q: Query, w: nat)
    requires Wins(rules, q, w)
    ensures rules[w].action.Block? || Deciding(rules, q, w)
    ensures !rules[w].action.Block? ==> forall i :: 0 <= i < |rules| && Applies(rules[i], q) ==> !rules[i].action.Block?
  {
    if !rules[w].action.Block? {
      forall j | 0 <= j < |rules| && Applies(rules[j], q)
        ensures !MoreSpecific(rules[j].scope, rules[w].scope) && !rules[j].action.Block?
      {
        assert rules[j].Matches(q) && Outranks(rules[w], rules[j]);
      }
    }
  }

  /** The decision names the rule that made it: an applicable one with that action, the first of its kind. */
  lemma DecisionNamesRule(ruleset: RuleSet, q: Query) returns (w: nat)
    requires exists i :: 0 <= i < |ruleset.rules| && Applies(ruleset.rules[i], q)
    ensures var rules := ruleset.rules;
            && w < |rules| && Applies(rules[w], q)
            && Decide(ruleset, q) == Decision(rules[w].action, Some(rules[w].id), rules[w].reason, ruleset.version)
            && (forall j :: 0 <= j < |rules| && Applies(rules[j], q) && rules[j].action == rules[w].action
                  ==> !MoreSpecific(rules[j].scope, rules[w].scope)
                      && (j < w ==> MoreSpecific(rules[w].scope, rules[j].scope)))
  {
    var rules := ruleset.rules;
    assert forall r: Rule :: r.Matches(q) == Applies(r, q);
    w := DecisionIsWinner(ruleset, q);
    forall j | 0 <= j < |rules| && Applies(rules[j], q) && rules[j].action == rules[w].action
      ensures !MoreSpecific(rules[j].scope, rules[w].scope)
      ensures j < w ==> MoreSpecific(rules[w].scope, rules[j].scope)
    {
      assert rules[j].Matches(q) && Outranks(rules[w], rules[j]);
    }
  }
}
