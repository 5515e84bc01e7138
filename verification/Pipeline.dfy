/**
 The gateway's request lifecycle around a provider (`frostglass/gateway/pipeline.py`): detect and decide at every
 text location, mask by location, and restore responses.
 */
module Pipeline {
  import opened Outcomes
  import opened JsonTree
  import opened Sorting
  import opened Detection
  import opened Extract
  import opened Replace
  import opened Restore
  import opened Vault
  import opened Masking
  import Policy

  datatype LocatedFinding = LocatedFinding(location: TextLocation, finding: Finding)

  datatype FindingDecision = FindingDecision(finding: Finding, decision: Policy.Decision, policyVersion: int)

  datatype GatewayRequestContext = GatewayRequestContext(
    findings: seq<LocatedFinding>, maskingContext: MaskingContext, decisions: seq<FindingDecision>,
    policyVersion: int, shadow: bool)
  {
    function Action(): string {
      if shadow then "shadow"
      else if exists i :: 0 <= i < |decisions| && decisions[i].decision.action.Block? then "blocked"
      else if exists i :: 0 <= i < |decisions| && !decisions[i].decision.action.Allow? then "masked"
      else "allowed"
    }
  }

  datatype PipelineError = Blocked | DecisionsMissing | EngineError(error: MaskError) | PayloadNotObject

  /** `MaskingMode(action)`. */
  function ModeFor(action: Policy.Action): Mode {
    match action
    case Allow => Mode.Allow
    case Pseudonymize => Mode.Pseudonymize
    case Hash => Mode.Hash
    case Tag => Mode.Tag
    case Block => Mode.Block
  }

  // ---- detection ----

  function At(location: TextLocation, findings: seq<Finding>): seq<LocatedFinding> {
    seq(|findings|, i requires 0 <= i < |findings| => LocatedFinding(location, findings[i]))
  }

  function Located(
    detectors: seq<Detector>, hash: string -> string, locations: seq<TextLocation>): seq<LocatedFinding> {
    if locations == [] then []
    else At(locations[0], Detected(detectors, hash, locations[0].text)) + Located(detectors, hash, locations[1..])
  }

  lemma LocatedNext(detectors: seq<Detector>, hash: string -> string, locations: seq<TextLocation>, i: nat,
                    located: seq<LocatedFinding>)
    requires i < |locations|
    ensures located + Located(detectors, hash, locations[i..])
         == located + At(locations[i], Detected(detectors, hash, locations[i].text))
            + Located(detectors, hash, locations[i + 1..])
  {
    assert locations[i..][1..] == locations[i + 1..] && locations[i..][0] == locations[i];
    var here := At(locations[i], Detected(detectors, hash, locations[i].text));
    var rest := Located(detectors, hash, locations[i + 1..]);
    assert located + (here + rest) == located + here + rest;
  }

  /** Who asks, and under which rules. */
  datatype Caller = Caller(user: string, team: string, model: string)

  function Evaluate(ruleset: Policy.RuleSet, f: Finding, caller: Caller): FindingDecision {
    var q := Policy.Query(f.entityType, f.confidence, caller.user, caller.team, caller.model);
    FindingDecision(f, Policy.Decide(ruleset, q), ruleset.version)
  }

  function EvaluateAll(ruleset: Policy.RuleSet, findings: seq<LocatedFinding>, caller: Caller): seq<FindingDecision> {
    seq(|findings|, i requires 0 <= i < |findings| => Evaluate(ruleset, findings[i].finding, caller))
  }

  function ContextFor(detectors: seq<Detector>, hash: string -> string, ruleset: Policy.RuleSet, payload: Json,
                      masking: MaskingContext, caller: Caller, shadow: bool): GatewayRequestContext {
    var located := Located(detectors, hash, Extracted(payload));
    GatewayRequestContext(located, masking, EvaluateAll(ruleset, located, caller), ruleset.version, shadow)
  }

  // ---- masking by location ----

  type Entries = seq<(Finding, Mode)>

  /** The findings and modes at one path, in the order they were found. */
  function EntriesAt(findings: seq<LocatedFinding>, decisions: seq<FindingDecision>, path: Path): Entries
    requires |findings| == |decisions|
  {
    if findings == [] then []
    else
      var n := |findings| - 1;
      var before := EntriesAt(findings[..n], decisions[..n], path);
      if findings[n].location.path == path
      then before + [(findings[n].finding, ModeFor(decisions[n].decision.action))] else before
  }

  type ByPath = map<Path, Entries>

  function Lookup(byPath: ByPath, path: Path): Entries { if path in byPath then byPath[path] else [] }

  predicate StartsBefore(a: (Finding, Mode), b: (Finding, Mode)) { a.0.start <= b.0.start }

  function FindingsOf(entries: Entries): seq<Finding> {
    var sorted := Sort(entries, StartsBefore);
    seq(|sorted|, i requires 0 <= i < |sorted| => sorted[i].0)
  }

  /** A dictionary keyed by span; later entries overwrite earlier ones. */
  function ModesOf(entries: Entries): Modes {
    if entries == [] then map[]
    else
      var n := |entries| - 1;
      ModesOf(entries[..n])[(entries[n].0.start, entries[n].0.end) := entries[n].1]
  }

  /** `walk` on one value: the rewritten value, and the vault afterwards. */
  function Walk(env: MaskEnv, scope: string, byPath: ByPath, v: Json, path: Path, vault: State)
    : (Result<Json, MaskError>, State)
    decreases v, 1, 0
  {
    if v.JStr? then
      var entries := Lookup(byPath, path);
      if entries == [] then (Ok(v), vault)
      else
        var (result, vault') := Masked(env, vault, scope, v.s, FindingsOf(entries), ModesOf(entries));
        match result
        case Err(error) => (Err(error), vault')
        case Ok(masked) => (Ok(JStr(masked.text)), vault')
    else
      var (result, vault') := WalkKids(env, scope, byPath, v, 0, path, vault);
      match result
      case Err(error) => (Err(error), vault')
      case Ok(kids) => (Ok(With(v, kids)), vault')
  }

  /** `walk` on the children from number `i` on. */
  function WalkKids(env: MaskEnv, scope: string, byPath: ByPath, v: Json, i: nat, path: Path, vault: State)
    : (r: (Result<seq<Json>, MaskError>, State))
    requires i <= Count(v)
    ensures r.0.Ok? ==> |r.0.value| == Count(v) - i
    decreases v, 0, Count(v) - i
  {
    if i == Count(v) then (Ok([]), vault)
    else
      var (first, vault') := Walk(env, scope, byPath, Kid(v, i), path + [Seg(v, i)], vault);
      match first
      case Err(error) => (Err(error), vault')
      case Ok(kid) =>
        var (rest, vault'') := WalkKids(env, scope, byPath, v, i + 1, path, vault');
        match rest
        case Err(error) => (Err(error), vault'')
        case Ok(kids) => (Ok([kid] + kids), vault'')
  }

  predicate HasBlock(ctx: GatewayRequestContext) {
    exists i :: 0 <= i < |ctx.decisions| && ctx.decisions[i].decision.action.Block?
  }

  ghost predicate Groups(byPath: ByPath, findings: seq<LocatedFinding>, decisions: seq<FindingDecision>)
    requires |findings| == |decisions|
  {
    forall p :: Lookup(byPath, p) == EntriesAt(findings, decisions, p)
  }

  /** What `mask` makes of the walked payload. */
  function Checked(walked: Result<Json, MaskError>): Result<Json, PipelineError> {
    match walked
    case Err(error) => Err(EngineError(error))
    case Ok(v) => if v.JObj? then Ok(v) else Err(PayloadNotObject)
  }

  /** What `mask` returns and leaves in the vault. */
  ghost predicate MaskOutcome(env: MaskEnv, payload: Json, ctx: GatewayRequestContext, vault: State,
                              result: Result<Json, PipelineError>, vault': State) {
    if ctx.shadow then result == Ok(payload) && vault' == vault
    else if HasBlock(ctx) then result == Err(Blocked) && vault' == vault
    else if |ctx.findings| != |ctx.decisions| then result == Err(DecisionsMissing) && vault' == vault
    else
      exists byPath :: Groups(byPath, ctx.findings, ctx.decisions)
        && var walked := Walk(env, ctx.maskingContext.ScopeId(), byPath, payload, [], vault);
           vault' == walked.1 && result == Checked(walked.0)
  }

  class ProviderRegistry {
    const detection: DetectionEngine
    const masking: MaskingEngine
    const vault: EncryptedVault

    constructor (detection: DetectionEngine, masking: MaskingEngine, vault: EncryptedVault)
      requires masking.consistency.vault == vault
      ensures this.detection == detection && this.masking == masking && this.vault == vault
    {
      this.detection := detection;
      this.masking := masking;
      this.vault := vault;
    }

    method Detect(payload: Json, ruleset: Policy.RuleSet, context: MaskingContext, caller: Caller, shadow: bool)
      returns (ctx: GatewayRequestContext)
      ensures ctx == ContextFor(detection.detectors, detection.hash, ruleset, payload, context, caller, shadow)
    {
      var locations := ExtractText(payload);
      var located: seq<LocatedFinding> := [];
      for i := 0 to |locations|
        invariant located + Located(detection.detectors, detection.hash, locations[i..])
               == Located(detection.detectors, detection.hash, locations)
      {
        var findings := detection.Detect(locations[i].text);
        LocatedNext(detection.detectors, detection.hash, locations, i, located);
        located := located + At(locations[i], findings);
      }
      assert located == Located(detection.detectors, detection.hash, locations) by {
        assert locations[|locations|..] == [];
        assert located + [] == located;
      }
      ctx := GatewayRequestContext(located, context, EvaluateAll(ruleset, located, caller), ruleset.version, shadow);
    }

    /** `by_path.setdefault(path, []).append(...)` over all findings. */
    method GroupByPath(findings: seq<LocatedFinding>, decisions: seq<FindingDecision>) returns (byPath: ByPath)
      requires |findings| == |decisions|
      ensures Groups(byPath, findings, decisions)
    {
      byPath := map[];
      for i := 0 to |findings|
        invariant Groups(byPath, findings[..i], decisions[..i])
      {
        assert findings[..i + 1][..i] == findings[..i] && decisions[..i + 1][..i] == decisions[..i];
        var path := findings[i].location.path;
        byPath := byPath[path := Lookup(byPath, path) + [(findings[i].finding, ModeFor(decisions[i].decision.action))]];
      }
      assert findings[..|findings|] == findings && decisions[..|findings|] == decisions;
    }

    method WalkValue(
      byPath: ByPath, v: Json, path: Path, context: MaskingContext) returns (result: Result<Json, MaskError>)
      requires masking.consistency.vault == vault
      modifies vault
      ensures (result, vault.Current()) == Walk(masking.Env(), context.ScopeId(), byPath, v, path, old(vault.Current()))
      decreases v, 1, 0
    {
      if v.JStr? {
        var entries := Lookup(byPath, path);
        if entries == [] {
          return Ok(v);
        }
        var masked := masking.Mask(v.s, FindingsOf(entries), context, ModesOf(entries));
        match masked {
          case Err(error) => result := Err(error);
          case Ok(m) => result := Ok(JStr(m.text));
        }
      } else {
        var kids := WalkChildren(byPath, v, 0, path, context);
        match kids {
          case Err(error) => result := Err(error);
          case Ok(ks) => result := Ok(With(v, ks));
        }
      }
    }

    method WalkChildren(byPath: ByPath, v: Json, i: nat, path: Path, context: MaskingContext)
      returns (result: Result<seq<Json>, MaskError>)
      requires masking.consistency.vault == vault && i <= Count(v)
      modifies vault
      ensures (result, vault.Current())
           == WalkKids(masking.Env(), context.ScopeId(), byPath, v, i, path, old(vault.Current()))
      decreases v, 0, Count(v) - i
    {
      if i == Count(v) {
        return Ok([]);
      }
      var first := WalkValue(byPath, Kid(v, i), path + [Seg(v, i)], context);
      if first.Err? {
        return Err(first.error);
      }
      var rest := WalkChildren(byPath, v, i + 1, path, context);
      match rest {
        case Err(error) => result := Err(error);
        case Ok(kids) => result := Ok([first.value] + kids);
      }
    }

    method Mask(payload: Json, ctx: GatewayRequestContext) returns (result: Result<Json, PipelineError>)
      requires masking.consistency.vault == vault
      modifies vault
      ensures MaskOutcome(masking.Env(), payload, ctx, old(vault.Current()), result, vault.Current())
    {
      if ctx.shadow {
        return Ok(payload);
      }
      if HasBlock(ctx) {
        return Err(Blocked);
      }
      if |ctx.findings| != |ctx.decisions| {
        return Err(DecisionsMissing);
      }
      var byPath := GroupByPath(ctx.findings, ctx.decisions);
      var walked := WalkValue(byPath, payload, [], ctx.maskingContext);
      match walked {
        case Err(error) => result := Err(EngineError(error));
        case Ok(v) => result := if v.JObj? then Ok(v) else Err(PayloadNotObject);
      }
    }

    method RestorePayload(payload: Json, ctx: GatewayRequestContext) returns (restored: Json, ghost m: seq<Entry>)
      requires WellFormed(payload)
      modifies vault
      ensures var scope := ctx.maskingContext.ScopeId();
              && vault.Current() == AfterReverse(vault.env, old(vault.Current()), scope)
              && IsReverseMap(vault.env, old(vault.Current()), scope, m)
              && restored == Replaced(payload, (text: string) => Restored(text, m))
    {
      var entries := vault.ReverseMap(ctx.maskingContext.ScopeId());
      m := entries;
      restored := ReplaceText(payload, (text: string) => Restored(text, entries));
    }
  }
}
