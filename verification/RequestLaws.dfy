/**
 What becomes of a request, from the decisions on: each finding is decided for what it is and who asks, and leaves as
 its decision says.
 */
module RequestLaws {
  import opened Outcomes
  import opened JsonTree
  import opened Detection
  import opened Extract
  import opened Replace
  import opened Vault
  import opened Masking
  import opened MaskTheorems
  import opened MaskLaws
  import opened Pipeline
  import opened PipelineTheorems
  import Policy

  /** The decision on a finding: the policy's, for its type and confidence and for the caller. */
  function DecisionOn(ruleset: Policy.RuleSet, f: Finding, caller: Caller): Policy.Decision {
    Policy.Decide(ruleset, Policy.Query(f.entityType, f.confidence, caller.user, caller.team, caller.model))
  }

  lemma {:induction false} LocatedExactly(
    detectors: seq<Detector>, hash: string -> string, locations: seq<TextLocation>, lf: LocatedFinding)
    ensures lf in Located(detectors, hash, locations) <==>
            lf.location in locations && lf.finding in Detected(detectors, hash, lf.location.text)
  {
    if locations != [] {
      var here := Pipeline.At(locations[0], Detected(detectors, hash, locations[0].text));
      LocatedExactly(detectors, hash, locations[1..], lf);
      InHere(locations[0], Detected(detectors, hash, locations[0].text), lf);
      assert locations == [locations[0]] + locations[1..];
    }
  }

  lemma InHere(location: TextLocation, findings: seq<Finding>, lf: LocatedFinding)
    ensures lf in Pipeline.At(location, findings) <==> lf.location == location && lf.finding in findings
  {
    if lf.location == location && lf.finding in findings {
      var i :| 0 <= i < |findings| && findings[i] == lf.finding;
      assert Pipeline.At(location, findings)[i] == lf;
    }
  }

  /** Every finding of every prompt text is reported once located, with its own decision. */
  lemma DecidedForEach(
    detectors: seq<Detector>, hash: string -> string, ruleset: Policy.RuleSet, payload: Json, masking: MaskingContext,
    caller: Caller, shadow: bool, lf: LocatedFinding)
    ensures var ctx := ContextFor(detectors, hash, ruleset, payload, masking, caller, shadow);
            && |ctx.decisions| == |ctx.findings| && ctx.policyVersion == ruleset.version && ctx.shadow == shadow
            && ctx.maskingContext == masking
            && (lf in ctx.findings <==>
                  lf.location in Extracted(payload) && lf.finding in Detected(detectors, hash, lf.location.text))
            && forall i :: 0 <= i < |ctx.findings| ==>
                 ctx.decisions[i] == FindingDecision(ctx.findings[i].finding,
                                                     DecisionOn(ruleset, ctx.findings[i].finding, caller),
                                                     ruleset.version)
  {
    LocatedExactly(detectors, hash, Extracted(payload), lf);
  }

  /** The reported action, by what was decided. */
  lemma ReportedExactly(ctx: GatewayRequestContext)
    ensures ctx.Action() == "shadow" <==> ctx.shadow
    ensures ctx.Action() == "blocked"
            <==> !ctx.shadow && exists d :: d in ctx.decisions && d.decision.action == Policy.Block
    ensures ctx.Action() == "allowed"
            <==> !ctx.shadow && forall d :: d in ctx.decisions ==> d.decision.action == Policy.Allow
    ensures ctx.Action() in {"shadow", "blocked", "allowed", "masked"}
  {
    if d :| d in ctx.decisions && d.decision.action == Policy.Block {
      var i :| 0 <= i < |ctx.decisions| && ctx.decisions[i] == d;
    }
  }

  /** The replacement is what the decided action asks for. */
  ghost predicate AsDecided(
    env: MaskEnv, st: State, scope: string, f: Finding, original: string, action: Policy.Action, earlier: nat,
    rep: string)
  {
    match action
    case Allow => rep == original
    case Pseudonymize => AsAsked(env, st, scope, f, original, Mode.Pseudonymize, earlier, rep)
    case Hash => rep == "sha256:" + env.digest(original)
    case Tag => AsAsked(env, st, scope, f, original, Mode.Tag, earlier, rep)
    case Block => false
  }

  /** The earlier findings of the type that are decided to be tagged. */
  function TagDecisions(ruleset: Policy.RuleSet, caller: Caller, found: seq<Finding>, entityType: string, k: nat)
    : set<nat>
    requires k <= |found|
  {
    set j: nat |
      j < k && found[j].entityType == entityType && DecisionOn(ruleset, found[j], caller).action == Policy.Tag
  }

  /** The state of the vault when the walk comes to finding `k` of a location. */
  function VaultAtFinding(
    env: MaskEnv, detectors: seq<Detector>, hash: string -> string, ruleset: Policy.RuleSet, payload: Json,
    scope: string, caller: Caller, byPath: ByPath, vault: State, location: TextLocation, k: nat): State
    requires k <= |Detected(detectors, hash, location.text)|
  {
    var found := Detected(detectors, hash, location.text);
    VaultAt(env, scope, location.text, found, ModesOf(EntriesFor(found, ruleset, caller)),
            StateOf(env, scope, byPath, payload, [], vault, location.path), k)
  }

  /** The mode of the action's name. */
  predicate Carries(mode: Mode, action: Policy.Action) {
    match action
    case Allow => mode.Allow?
    case Pseudonymize => mode.Pseudonymize?
    case Hash => mode.Hash?
    case Tag => mode.Tag?
    case Block => mode.Block?
  }

  ghost predicate CarriedOut(found: seq<Finding>, modes: Modes, ruleset: Policy.RuleSet, caller: Caller) {
    forall j :: 0 <= j < |found| ==> Carries(Asked(modes, found[j]), DecisionOn(ruleset, found[j], caller).action)
  }

  ghost predicate NoneIsBlocked(found: seq<Finding>, ruleset: Policy.RuleSet, caller: Caller) {
    forall j :: 0 <= j < |found| ==> DecisionOn(ruleset, found[j], caller).action != Policy.Block
  }

  /** Masking the findings of one text as decided. */
  lemma MaskedAsDecided(
    env: MaskEnv, st: State, scope: string, text: string, found: seq<Finding>, modes: Modes, ruleset: Policy.RuleSet,
    caller: Caller, k: nat)
    requires Placed(found, |text|) && k < |found| && NoneIsBlocked(found, ruleset, caller)
    requires CarriedOut(found, modes, ruleset, caller)
    ensures var reps, f := RepsOf(env, st, scope, text, found, modes), found[k];
            && |reps| == |found|
            && AsDecided(env, VaultAt(env, scope, text, found, modes, st, k), scope, f, text[f.start..f.end],
                         DecisionOn(ruleset, f, caller).action,
                         |TagDecisions(ruleset, caller, found, f.entityType, k)|, reps[k])
  {
    forall j | 0 <= j < |found| ensures !Asked(modes, found[j]).Block? {
      assert Carries(Asked(modes, found[j]), DecisionOn(ruleset, found[j], caller).action);
    }
    MaskedAsAsked(env, st, scope, text, found, modes, k);
    SameTags(found, modes, ruleset, caller, found[k].entityType, k);
    assert Carries(Asked(modes, found[k]), DecisionOn(ruleset, found[k], caller).action);
  }

  lemma SameTags(
    found: seq<Finding>, modes: Modes, ruleset: Policy.RuleSet, caller: Caller, entityType: string, k: nat)
    requires k <= |found| && CarriedOut(found, modes, ruleset, caller)
    ensures TaggedBefore(found, modes, entityType, k) == TagDecisions(ruleset, caller, found, entityType, k)
  {
    forall j: nat | j < k ensures Asked(modes, found[j]).Tag? <==> DecisionOn(ruleset, found[j], caller).action.Tag? {
      assert Carries(Asked(modes, found[j]), DecisionOn(ruleset, found[j], caller).action);
    }
  }

  /** The modes of detected findings carry their decisions. */
  lemma DecisionsCarried(
    detectors: seq<Detector>, hash: string -> string, text: string, ruleset: Policy.RuleSet, caller: Caller)
    ensures var found := Detected(detectors, hash, text);
            CarriedOut(found, ModesOf(EntriesFor(found, ruleset, caller)), ruleset, caller)
  {
    var found := Detected(detectors, hash, text);
    var modes := ModesOf(EntriesFor(found, ruleset, caller));
    DetectedEntries(detectors, hash, text, ruleset, caller);
    forall j | 0 <= j < |found|
      ensures Carries(Asked(modes, found[j]), DecisionOn(ruleset, found[j], caller).action)
    {
      assert Asked(modes, found[j]) == ModeOf(modes, found[j]);
    }
  }

  /**
   In the request that goes out, every prompt text is its untouched gaps and one replacement for each finding, and each
   replacement is what the decision on that finding asks for.
   */
  lemma LeavesAsDecided(
    env: MaskEnv, detectors: seq<Detector>, hash: string -> string, ruleset: Policy.RuleSet, payload: Json,
    masking: MaskingContext, caller: Caller, byPath: ByPath, vault: State, i: nat, k: nat)
    returns (reps: seq<string>)
    requires WellFormed(payload) && i < |Extracted(payload)|
    requires k < |Detected(detectors, hash, Extracted(payload)[i].text)|
    requires var ctx := ContextFor(detectors, hash, ruleset, payload, masking, caller, false);
             !HasBlock(ctx) && Groups(byPath, ctx.findings, ctx.decisions)
    ensures var location, scope := Extracted(payload)[i], masking.ScopeId();
            var found := Detected(detectors, hash, location.text);
            var result := Walk(env, scope, byPath, payload, [], vault).0;
            var f := found[k];
            && Placed(found, |location.text|) && |reps| == |found| && result.Ok?
            && Resolve(result.value, location.path) == Some(JStr(Woven(location.text, found, reps)))
            && AsDecided(env, VaultAtFinding(env, detectors, hash, ruleset, payload, scope, caller, byPath, vault,
                                             location, k),
                         scope, f, location.text[f.start..f.end], DecisionOn(ruleset, f, caller).action,
                         |TagDecisions(ruleset, caller, found, f.entityType, k)|, reps[k])
  {
    var location, scope := Extracted(payload)[i], masking.ScopeId();
    var found := Detected(detectors, hash, location.text);
    var st := StateOf(env, scope, byPath, payload, [], vault, location.path);
    LocationEntries(detectors, hash, ruleset, payload, masking, caller, byPath, i);
    WalkSucceeds(env, scope, byPath, payload, payload, [], vault);
    assert [] + location.path == location.path;
    WalkMasksLeaf(env, scope, byPath, payload, [], vault, location.path);
    NoneBlockedAt(detectors, hash, ruleset, payload, masking, caller, i);
    DetectedEntries(detectors, hash, location.text, ruleset, caller);
    DecisionsCarried(detectors, hash, location.text, ruleset, caller);
    var modes := ModesOf(EntriesFor(found, ruleset, caller));
    MaskedAsDecided(env, st, scope, location.text, found, modes, ruleset, caller, k);
    MaskLayout(env, st, scope, location.text, found, modes);
    reps := RepsOf(env, st, scope, location.text, found, modes);
  }

  /** The entries at a location, and that masking accepts all entries. */
  lemma LocationEntries(
    detectors: seq<Detector>, hash: string -> string, ruleset: Policy.RuleSet, payload: Json,
    masking: MaskingContext, caller: Caller, byPath: ByPath, i: nat)
    requires WellFormed(payload) && i < |Extracted(payload)|
    requires var ctx := ContextFor(detectors, hash, ruleset, payload, masking, caller, false);
             !HasBlock(ctx) && Groups(byPath, ctx.findings, ctx.decisions)
    ensures AllSound(byPath, payload)
    ensures var location := Extracted(payload)[i];
            && Resolve(payload, location.path) == Some(JStr(location.text))
            && Lookup(byPath, location.path) == EntriesFor(Detected(detectors, hash, location.text), ruleset, caller)
  {
    DetectedIsSound(detectors, hash, ruleset, payload, masking, caller, byPath);
    LocationsResolve(Payload, payload, []);
    assert Holds(payload, 0, Extracted(payload)[i]);
    assert Extracted(payload)[i].path[0..] == Extracted(payload)[i].path;
  }

  lemma NoneBlockedAt(
    detectors: seq<Detector>, hash: string -> string, ruleset: Policy.RuleSet, payload: Json,
    masking: MaskingContext, caller: Caller, i: nat)
    requires i < |Extracted(payload)|
    requires !HasBlock(ContextFor(detectors, hash, ruleset, payload, masking, caller, false))
    ensures NoneIsBlocked(Detected(detectors, hash, Extracted(payload)[i].text), ruleset, caller)
  {
    var ctx := ContextFor(detectors, hash, ruleset, payload, masking, caller, false);
    var location := Extracted(payload)[i];
    var found := Detected(detectors, hash, location.text);
    forall j | 0 <= j < |found| ensures DecisionOn(ruleset, found[j], caller).action != Policy.Block {
      var lf := LocatedFinding(location, found[j]);
      DecidedForEach(detectors, hash, ruleset, payload, masking, caller, false, lf);
      assert lf in ctx.findings;
      var n :| 0 <= n < |ctx.findings| && ctx.findings[n] == lf;
      assert !ctx.decisions[n].decision.action.Block?;
    }
  }
}
