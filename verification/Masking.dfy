/** Applying masking modes to the findings in one text (`frostglass/masking/engine.py`). */
module Masking {
  import opened Outcomes
  import opened Text
  import opened Detection
  import opened Vault

  datatype Mode = Allow | Pseudonymize | Tag | Hash | Block

  datatype Scope = RequestScope | SessionScope | TenantScope

  datatype MaskingContext = MaskingContext(
    tenantId: string, requestId: string, sessionId: Option<string>, scope: Scope)
  {
    function ScopeId(): string {
      match scope
      case RequestScope => "request:" + requestId
      case TenantScope => "tenant:" + tenantId
      case SessionScope =>
        if sessionId.None? then "request:" + requestId else "session:" + tenantId + ":" + sessionId.value
    }
  }

  datatype MaskError = BlockedContent(entityType: string) | NotPlaced

  datatype MaskingResult = MaskingResult(text: string, immuneSpans: seq<(nat, nat)>)

  /** The vault's environment and the salted digest of the hash mode. */
  datatype MaskEnv = MaskEnv(vault: Env, digest: string -> string)

  type Modes = map<(int, int), Mode>

  function ModeOf(modes: Modes, f: Finding): Mode {
    if (f.start, f.end) in modes then modes[(f.start, f.end)] else Pseudonymize
  }

  predicate IsImmune(mode: Mode) { mode.Pseudonymize? || mode.Tag? }

  function Seen(counts: map<string, nat>, entityType: string): nat {
    if entityType in counts then counts[entityType] else 0
  }

  function TagName(entityType: string): string { Replace(RemoveSuffix(entityType, "_ADDRESS"), "CREDIT_", "") }

  function TagText(entityType: string, number: nat): string {
    "<" + TagName(entityType) + "_" + Decimal(number) + ">"
  }

  function RequestFor(scope: string, f: Finding, original: string): Request {
    Request(scope, f.entityType, original, f.valueHash)
  }

  // ---- what the loop does ----

  /** The local variables of the loop and the vault it writes to. */
  datatype Progress = Progress(
    cursor: int, output: seq<string>, immune: seq<(nat, nat)>, counts: map<string, nat>, vault: State)

  datatype Progressed = Going(progress: Progress) | Failed(error: MaskError, vault: State)

  /** `_replacement`, for a mode other than block. */
  function Replacement(env: MaskEnv, scope: string, mode: Mode, f: Finding, original: string,
                       counts: map<string, nat>, vault: State): (string, map<string, nat>, State)
    requires !mode.Block?
  {
    match mode
    case Allow => (original, counts, vault)
    case Hash => ("sha256:" + env.digest(original), counts, vault)
    case Tag =>
      var number := Seen(counts, f.entityType) + 1;
      (TagText(f.entityType, number), counts[f.entityType := number], vault)
    case Pseudonymize =>
      var (surrogate, vault') := SurrogateFor(env.vault, vault, RequestFor(scope, f, original));
      (surrogate, counts, vault')
  }

  /** One iteration. */
  function MaskOne(env: MaskEnv, scope: string, text: string, modes: Modes, f: Finding, p: Progress): Progressed {
    var mode := ModeOf(modes, f);
    if f.start < p.cursor || f.end > |text| then Failed(NotPlaced, p.vault)
    else if mode.Block? then Failed(BlockedContent(f.entityType), p.vault)
    else
      var (replacement, counts, vault) :=
        Replacement(env, scope, mode, f, Slice(text, f.start, f.end), p.counts, p.vault);
      var output := p.output + [Slice(text, p.cursor, f.start)];
      var start := |Join(output)|;
      Going(Progress(f.end, output + [replacement],
                     if IsImmune(mode) then p.immune + [(start, start + |replacement|)] else p.immune,
                     counts, vault))
  }

  function MaskAll(
    env: MaskEnv, scope: string, text: string, modes: Modes, findings: seq<Finding>, p: Progress): Progressed
    decreases |findings|
  {
    if findings == [] then Going(p)
    else
      match MaskOne(env, scope, text, modes, findings[0], p)
      case Failed(error, vault) => Failed(error, vault)
      case Going(p') => MaskAll(env, scope, text, modes, findings[1..], p')
  }

  lemma MaskAllStep(
    env: MaskEnv, scope: string, text: string, modes: Modes, findings: seq<Finding>, i: nat, p: Progress)
    requires i < |findings|
    ensures MaskAll(env, scope, text, modes, findings[i..], p) ==
            match MaskOne(env, scope, text, modes, findings[i], p)
            case Failed(error, vault) => Failed(error, vault)
            case Going(p') => MaskAll(env, scope, text, modes, findings[i + 1..], p')
  {
    assert findings[i..][1..] == findings[i + 1..];
  }

  function Start(vault: State): Progress { Progress(0, [], [], map[], vault) }

  /** The result of masking one text, and the vault afterwards. */
  function Masked(env: MaskEnv, vault: State, scope: string, text: string, findings: seq<Finding>, modes: Modes)
    : (Result<MaskingResult, MaskError>, State)
  {
    match MaskAll(env, scope, text, modes, findings, Start(vault))
    case Failed(error, vault') => (Err(error), vault')
    case Going(p) => (Ok(MaskingResult(Join(p.output + [Slice(text, p.cursor, |text|)]), p.immune)), p.vault)
  }

  // ---- the class ----

  class MaskingEngine {
    const consistency: ConsistencyManager
    const digest: string -> string

    constructor (consistency: ConsistencyManager, digest: string -> string)
      ensures this.consistency == consistency && this.digest == digest
    {
      this.consistency := consistency;
      this.digest := digest;
    }

    function Env(): MaskEnv { MaskEnv(consistency.vault.env, digest) }

    method Replace(mode: Mode, f: Finding, original: string, scope: string, counts: map<string, nat>)
      returns (error: Option<MaskError>, replacement: string, counts': map<string, nat>)
      modifies consistency.vault
      ensures mode.Block? ==>
                && error == Some(BlockedContent(f.entityType))
                && consistency.vault.Current() == old(consistency.vault.Current())
      ensures !mode.Block? ==>
                error.None? && (replacement, counts', consistency.vault.Current())
                  == Replacement(Env(), scope, mode, f, original, counts, old(consistency.vault.Current()))
    {
      error, replacement, counts' := None, "", counts;
      match mode {
        case Allow => replacement := original;
        case Block => error := Some(BlockedContent(f.entityType));
        case Hash => replacement := "sha256:" + digest(original);
        case Tag =>
          var number := Seen(counts, f.entityType) + 1;
          counts' := counts[f.entityType := number];
          replacement := TagText(f.entityType, number);
        case Pseudonymize =>
          replacement := consistency.Surrogate(RequestFor(scope, f, original));
      }
    }

    /** The body of the loop in `mask`, for one finding. */
    method MaskFinding(text: string, f: Finding, scope: string, modes: Modes, cursor: int,
                       output: seq<string>, immune: seq<(nat, nat)>, counts: map<string, nat>)
      returns (error: Option<MaskError>, output': seq<string>, immune': seq<(nat, nat)>, counts': map<string, nat>)
      modifies consistency.vault
      ensures MaskOne(Env(), scope, text, modes, f,
                      Progress(cursor, output, immune, counts, old(consistency.vault.Current())))
           == if error.Some? then Failed(error.value, consistency.vault.Current())
              else Going(Progress(f.end, output', immune', counts', consistency.vault.Current()))
    {
      error, output', immune', counts' := None, output, immune, counts;
      if f.start < cursor || f.end > |text| {
        error := Some(NotPlaced);
        return;
      }
      output' := output + [Slice(text, cursor, f.start)];
      var mode := ModeOf(modes, f);
      var replacement;
      error, replacement, counts' := Replace(mode, f, Slice(text, f.start, f.end), scope, counts);
      if error.Some? {
        return;
      }
      var start := |Join(output')|;
      output' := output' + [replacement];
      if IsImmune(mode) {
        immune' := immune + [(start, start + |replacement|)];
      }
    }

    method Mask(text: string, findings: seq<Finding>, context: MaskingContext, modes: Modes)
      returns (result: Result<MaskingResult, MaskError>)
      modifies consistency.vault
      ensures (result, consistency.vault.Current())
           == Masked(Env(), old(consistency.vault.Current()), context.ScopeId(), text, findings, modes)
    {
      var scope := context.ScopeId();
      ghost var env, vault0 := Env(), consistency.vault.Current();
      var output: seq<string>, immune: seq<(nat, nat)>, cursor: int, counts: map<string, nat> := [], [], 0, map[];
      for i := 0 to |findings|
        invariant MaskAll(env, scope, text, modes, findings[i..],
                          Progress(cursor, output, immune, counts, consistency.vault.Current()))
               == MaskAll(env, scope, text, modes, findings, Start(vault0))
      {
        MaskAllStep(env, scope, text, modes, findings, i,
                    Progress(cursor, output, immune, counts, consistency.vault.Current()));
        var error;
        error, output, immune, counts := MaskFinding(text, findings[i], scope, modes, cursor, output, immune, counts);
        if error.Some? {
          return Err(error.value);
        }
        cursor := findings[i].end;
      }
      output := output + [Slice(text, cursor, |text|)];
      result := Ok(MaskingResult(Join(output), immune));
    }
  }
}
