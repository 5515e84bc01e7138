/**
 What masking puts where, said in terms of the findings, the modes that were asked for and the vault at that point: the
 vocabulary of the engine's callers and not of its loop.
 */
module MaskLaws {
  import opened Outcomes
  import opened Text
  import opened Detection
  import opened Vault
  import opened VaultTheorems
  import opened Masking
  import opened MaskTheorems
  import opened MaskRuns

  // ---- where masking is at each finding ----

  /** The loop after the first `k` findings. */
  function ProgressAt(env: MaskEnv, scope: string, text: string, findings: seq<Finding>, modes: Modes, vault: State,
                      k: nat): Progressed
    requires k <= |findings|
  {
    if k == 0 then Going(Start(vault))
    else
      match ProgressAt(env, scope, text, findings, modes, vault, k - 1)
      case Failed(error, vault') => Failed(error, vault')
      case Going(p) => MaskOne(env, scope, text, modes, findings[k - 1], p)
  }

  /** The vault when the loop comes to finding `k`. */
  function VaultAt(env: MaskEnv, scope: string, text: string, findings: seq<Finding>, modes: Modes, vault: State,
                   k: nat): State
    requires k <= |findings|
  {
    EndVault(ProgressAt(env, scope, text, findings, modes, vault, k))
  }

  lemma {:induction false} Reaches(
    env: MaskEnv, scope: string, text: string, findings: seq<Finding>, modes: Modes, vault: State, k: nat)
    returns (p: Progress)
    requires k <= |findings| && Placed(findings, |text|) && NoneBlocked(findings, modes)
    ensures ProgressAt(env, scope, text, findings, modes, vault, k) == Going(p)
    ensures Laid(env, text, findings, modes, k, p)
    ensures MaskAll(env, scope, text, modes, findings, Start(vault))
         == MaskAll(env, scope, text, modes, findings[k..], p)
  {
    if k == 0 {
      p := Start(vault);
      StartLaid(env, text, findings, modes, vault);
      assert findings[0..] == findings;
    } else {
      var before := Reaches(env, scope, text, findings, modes, vault, k - 1);
      p := LaidNext(env, scope, text, findings, modes, k - 1, before);
    }
  }

  /** Replacement `k` is what the mode makes of finding `k` in the state the loop is in there. */
  lemma ReplacedThere(
    env: MaskEnv, scope: string, text: string, findings: seq<Finding>, modes: Modes, vault: State, k: nat)
    returns (p: Progress)
    requires k < |findings| && Placed(findings, |text|) && NoneBlocked(findings, modes)
    ensures ProgressAt(env, scope, text, findings, modes, vault, k) == Going(p)
    ensures var f, reps := findings[k], RepsOf(env, vault, scope, text, findings, modes);
            && k < |reps| && Counted(findings, modes, k, p)
            && reps[k] == Replacement(env, scope, ModeOf(modes, f), f, text[f.start..f.end], p.counts, p.vault).0
  {
    p := Reaches(env, scope, text, findings, modes, vault, k);
    var rep, next := IterationWrites(env, scope, text, findings, modes, k, p);
    StepMasks(env, scope, text, findings, modes, k, p, next);
    var end := LaidFrom(env, scope, text, findings, modes, k, p);
    OutputGrows(env, scope, text, findings, modes, k + 1, next, end);
    LastWritten(p.output, next.output, text[p.cursor..findings[k].start], rep, k);
    LastKept(next.output, end.output, k, rep);
  }

  lemma LastWritten(before: seq<string>, after: seq<string>, gap: string, rep: string, k: nat)
    requires |before| == 2 * k && after == before + [gap] + [rep]
    ensures |after| == 2 * (k + 1) && after[2 * k + 1] == rep
  {
  }

  // ---- what each mode makes of a finding ----

  /** The mode asked for; findings without one are pseudonymized. */
  function Asked(modes: Modes, f: Finding): Mode {
    if (f.start, f.end) in modes then modes[(f.start, f.end)] else Pseudonymize
  }

  /** The earlier findings of this entity type that were to be tagged. */
  function TaggedBefore(findings: seq<Finding>, modes: Modes, entityType: string, k: nat): set<nat>
    requires k <= |findings|
  {
    set j: nat | j < k && findings[j].entityType == entityType && Asked(modes, findings[j]).Tag?
  }

  /** `rep` is what the mode asks for, with `earlier` tags of the entity type before it and the vault in state `st`. */
  ghost predicate AsAsked(
    env: MaskEnv, st: State, scope: string, f: Finding, original: string, mode: Mode, earlier: nat, rep: string) {
    match mode
    case Allow => rep == original
    case Hash => rep == "sha256:" + env.digest(original)
    case Tag => rep == "<" + TagName(f.entityType) + "_" + Decimal(earlier + 1) + ">"
    case Pseudonymize =>
      var k := (scope, f.valueHash);
      rep == if k in st.forward && st.forward[k].expiresAt > env.vault.clock(st.tick)
             then st.forward[k].mapping.surrogate
             else env.vault.generate(Request(scope, f.entityType, original, f.valueHash))
    case Block => false
  }

  lemma {:induction false} TagsAreCounted(findings: seq<Finding>, modes: Modes, entityType: string, k: nat)
    requires k <= |findings|
    ensures TagsTo(findings, modes, entityType, k) == |TaggedBefore(findings, modes, entityType, k)|
  {
    if k > 0 {
      TagsAreCounted(findings, modes, entityType, k - 1);
      var before := TaggedBefore(findings, modes, entityType, k - 1);
      var here := findings[k - 1].entityType == entityType && Asked(modes, findings[k - 1]).Tag?;
      assert TaggedBefore(findings, modes, entityType, k) == if here then before + {k - 1} else before;
    }
  }

  /** One replacement, in terms of what was asked. */
  lemma ReplacementAsked(env: MaskEnv, scope: string, mode: Mode, f: Finding, original: string,
                         counts: map<string, nat>, st: State)
    requires !mode.Block?
    ensures AsAsked(env, st, scope, f, original, mode, Seen(counts, f.entityType),
                    Replacement(env, scope, mode, f, original, counts, st).0)
  {
    SurrogateSource(env.vault, st, RequestFor(scope, f, original));
  }

  /** The masked text is the untouched gaps and one replacement for each finding, which is as asked. */
  lemma MaskedAsAsked(
    env: MaskEnv, vault: State, scope: string, text: string, findings: seq<Finding>, modes: Modes, k: nat)
    requires Placed(findings, |text|) && k < |findings|
    requires forall i :: 0 <= i < |findings| ==> !Asked(modes, findings[i]).Block?
    ensures var result := Masked(env, vault, scope, text, findings, modes).0;
            var reps, f := RepsOf(env, vault, scope, text, findings, modes), findings[k];
            && result.Ok? && |reps| == |findings| && result.value.text == Woven(text, findings, reps)
            && AsAsked(env, VaultAt(env, scope, text, findings, modes, vault, k), scope, f, text[f.start..f.end],
                       Asked(modes, f), |TaggedBefore(findings, modes, f.entityType, k)|, reps[k])
  {
    MaskLayout(env, vault, scope, text, findings, modes);
    ReplacedAsAsked(env, vault, scope, text, findings, modes, k);
  }

  lemma ReplacedAsAsked(
    env: MaskEnv, vault: State, scope: string, text: string, findings: seq<Finding>, modes: Modes, k: nat)
    requires Placed(findings, |text|) && k < |findings| && NoneBlocked(findings, modes)
    ensures var reps, f := RepsOf(env, vault, scope, text, findings, modes), findings[k];
            && k < |reps|
            && AsAsked(env, VaultAt(env, scope, text, findings, modes, vault, k), scope, f, text[f.start..f.end],
                       Asked(modes, f), |TaggedBefore(findings, modes, f.entityType, k)|, reps[k])
  {
    var p := ReplacedThere(env, scope, text, findings, modes, vault, k);
    var f := findings[k];
    TagsAreCounted(findings, modes, f.entityType, k);
    assert Seen(p.counts, f.entityType) == TagsTo(findings, modes, f.entityType, k);
    ReplacementAsked(env, scope, ModeOf(modes, f), f, text[f.start..f.end], p.counts, p.vault);
  }

  // ---- the immune spans ----

  lemma {:induction false} ImmuneAsAsked(
    findings: seq<Finding>, modes: Modes, reps: seq<string>, k: nat, span: (int, int))
    requires |reps| == |findings| && k <= |findings|
    ensures span in ImmuneTo(findings, modes, reps, k) <==>
            exists i :: 0 <= i < k && (Asked(modes, findings[i]).Pseudonymize? || Asked(modes, findings[i]).Tag?)
                        && span == (SpanStart(findings, reps, i), SpanStart(findings, reps, i) + |reps[i]|)
  {
    if k > 0 { ImmuneAsAsked(findings, modes, reps, k - 1, span); }
  }

  // ---- why masking fails ----

  /** Masking stops at the first finding out of place or blocked, and says which of the two it was. */
  lemma FailureNamed(
    env: MaskEnv, vault: State, scope: string, text: string, findings: seq<Finding>, modes: Modes, k: nat)
    requires k < |findings| && forall i :: 0 <= i < k ==> Passes(findings, modes, |text|, i)
    requires !Passes(findings, modes, |text|, k)
    ensures Masked(env, vault, scope, text, findings, modes).0 == Err(WhyNot(text, findings, k))
  {
    assert findings[0..] == findings;
    FailsFrom(env, scope, text, findings, modes, 0, k, Start(vault));
  }

  /** A finding in place can only have been blocked. */
  function WhyNot(text: string, findings: seq<Finding>, k: nat): MaskError
    requires k < |findings|
  {
    if EndOf(findings, k) <= findings[k].start && findings[k].end <= |text|
    then BlockedContent(findings[k].entityType) else NotPlaced
  }

  lemma FailsThere(
    env: MaskEnv, scope: string, text: string, findings: seq<Finding>, modes: Modes, k: nat, p: Progress)
    requires k < |findings| && p.cursor == EndOf(findings, k) && !Passes(findings, modes, |text|, k)
    ensures var one := MaskOne(env, scope, text, modes, findings[k], p);
            one.Failed? && one.error == WhyNot(text, findings, k)
  {
  }

  lemma {:induction false} FailsFrom(
    env: MaskEnv, scope: string, text: string, findings: seq<Finding>, modes: Modes, j: nat, k: nat, p: Progress)
    requires j <= k < |findings| && p.cursor == EndOf(findings, j)
    requires forall i :: j <= i < k ==> Passes(findings, modes, |text|, i)
    requires !Passes(findings, modes, |text|, k)
    ensures var end := MaskAll(env, scope, text, modes, findings[j..], p);
            end.Failed? && end.error == WhyNot(text, findings, k)
    decreases k - j
  {
    MaskAllStep(env, scope, text, modes, findings, j, p);
    OnePasses(env, scope, text, findings, modes, j, p);
    if j == k {
      FailsThere(env, scope, text, findings, modes, k, p);
    } else {
      FailsFrom(env, scope, text, findings, modes, j + 1, k, MaskOne(env, scope, text, modes, findings[j], p).progress);
    }
  }

  // ---- nothing but generated surrogates goes out ----

  /** The step is a request with the text of one of the first `k` findings. */
  ghost predicate AsksFor(scope: string, text: string, findings: seq<Finding>, k: nat, step: Step)
    requires k <= |findings| && Placed(findings, |text|)
  {
    exists j :: 0 <= j < k && step == Surrogate(Request(scope, findings[j].entityType,
                                                        text[findings[j].start..findings[j].end],
                                                        findings[j].valueHash))
  }

  ghost predicate AllAsk(scope: string, text: string, findings: seq<Finding>, k: nat, steps: seq<Step>)
    requires k <= |findings| && Placed(findings, |text|)
  {
    forall i :: 0 <= i < |steps| ==> AsksFor(scope, text, findings, k, steps[i])
  }

  lemma {:induction false} ReachedByRequests(
    env: MaskEnv, scope: string, text: string, findings: seq<Finding>, modes: Modes, vault: State, k: nat)
    returns (steps: seq<Step>)
    requires k <= |findings| && Placed(findings, |text|) && NoneBlocked(findings, modes)
    ensures VaultAt(env, scope, text, findings, modes, vault, k) == Run(env.vault, vault, steps)
    ensures AllAsk(scope, text, findings, k, steps)
  {
    if k == 0 {
      steps := [];
    } else {
      var before := ReachedByRequests(env, scope, text, findings, modes, vault, k - 1);
      steps := ReachedNext(env, scope, text, findings, modes, vault, k - 1, before);
    }
  }

  lemma ReachedNext(
    env: MaskEnv, scope: string, text: string, findings: seq<Finding>, modes: Modes, vault: State, k: nat,
    before: seq<Step>)
    returns (steps: seq<Step>)
    requires k < |findings| && Placed(findings, |text|) && NoneBlocked(findings, modes)
    requires VaultAt(env, scope, text, findings, modes, vault, k) == Run(env.vault, vault, before)
    requires AllAsk(scope, text, findings, k, before)
    ensures VaultAt(env, scope, text, findings, modes, vault, k + 1) == Run(env.vault, vault, steps)
    ensures AllAsk(scope, text, findings, k + 1, steps)
  {
    var next := OneMoreRequest(env, scope, text, findings, modes, vault, k);
    steps := before + next;
    RunAppend(env.vault, vault, before, next);
    AskedAll(scope, text, findings, k, before, next);
  }

  lemma AskedAll(scope: string, text: string, findings: seq<Finding>, k: nat, a: seq<Step>, b: seq<Step>)
    requires k < |findings| && Placed(findings, |text|)
    requires AllAsk(scope, text, findings, k, a) && AllAsk(scope, text, findings, k + 1, b)
    ensures AllAsk(scope, text, findings, k + 1, a + b)
  {
    forall i | 0 <= i < |a + b| ensures AsksFor(scope, text, findings, k + 1, (a + b)[i]) {
      if i < |a| { assert AsksFor(scope, text, findings, k, a[i]); }
    }
  }

  /** One finding asks the vault at most once. */
  lemma OneMoreRequest(
    env: MaskEnv, scope: string, text: string, findings: seq<Finding>, modes: Modes, vault: State, k: nat)
    returns (steps: seq<Step>)
    requires k < |findings| && Placed(findings, |text|) && NoneBlocked(findings, modes)
    ensures VaultAt(env, scope, text, findings, modes, vault, k + 1)
         == Run(env.vault, VaultAt(env, scope, text, findings, modes, vault, k), steps)
    ensures AllAsk(scope, text, findings, k + 1, steps)
  {
    var p := Reaches(env, scope, text, findings, modes, vault, k);
    var next;
    steps, next := AsksOnce(env, scope, text, findings, modes, k, p);
  }

  lemma AsksOnce(
    env: MaskEnv, scope: string, text: string, findings: seq<Finding>, modes: Modes, k: nat, p: Progress)
    returns (steps: seq<Step>, next: Progress)
    requires k < |findings| && Placed(findings, |text|) && NoneBlocked(findings, modes)
    requires p.cursor == EndOf(findings, k)
    ensures MaskOne(env, scope, text, modes, findings[k], p) == Going(next)
    ensures next.vault == Run(env.vault, p.vault, steps) && AllAsk(scope, text, findings, k + 1, steps)
  {
    var f := findings[k];
    var rep;
    rep, next := IterationWrites(env, scope, text, findings, modes, k, p);
    steps := [];
    if ModeOf(modes, f).Pseudonymize? {
      steps := [Surrogate(Request(scope, f.entityType, text[f.start..f.end], f.valueHash))];
      RunOne(env.vault, p.vault, steps[0]);
    }
  }

  lemma RunOne(env: Env, st: State, step: Step)
    ensures Run(env, st, [step]) == After(env, st, step)
  {
    assert [step][1..] == [];
  }

  /**
   In a vault that started empty, every pseudonymized replacement was generated for a request of the same scope and
   hash: an earlier one, one for an earlier finding of this text, or one for the finding itself.
   */
  lemma OnlyGeneratedGoesOut(
    env: MaskEnv, steps: seq<Step>, scope: string, text: string, findings: seq<Finding>, modes: Modes, k: nat)
    returns (r: Request)
    requires Placed(findings, |text|) && k < |findings| && NoneBlocked(findings, modes)
    requires Asked(modes, findings[k]).Pseudonymize?
    ensures r.scope == scope && r.valueHash == findings[k].valueHash
    ensures Surrogate(r) in steps || AsksFor(scope, text, findings, k + 1, Surrogate(r))
    ensures var reps := RepsOf(env, Run(env.vault, State(map[], map[], 0), steps), scope, text, findings, modes);
            k < |reps| && reps[k] == env.vault.generate(r)
  {
    var empty, f := State(map[], map[], 0), findings[k];
    var vault := Run(env.vault, empty, steps);
    MaskedAsAsked(env, vault, scope, text, findings, modes, k);
    var more := ReachedByRequests(env, scope, text, findings, modes, vault, k);
    RunAppend(env.vault, empty, steps, more);
    var st, key := VaultAt(env, scope, text, findings, modes, vault, k), (scope, f.valueHash);
    r := Request(scope, f.entityType, text[f.start..f.end], f.valueHash);
    if key in st.forward && st.forward[key].expiresAt > env.vault.clock(st.tick) {
      OnlyGenerated(env.vault, steps + more);
      assert ForwardMade(env.vault, st, steps + more, key);
      var i :| 0 <= i < |steps + more| && MadeFor(env.vault, st.forward[key], (steps + more)[i], st.tick)
        && key == ((steps + more)[i].request.scope, (steps + more)[i].request.valueHash);
      r := (steps + more)[i].request;
      if i >= |steps| { assert AsksFor(scope, text, findings, k, more[i - |steps|]); }
    }
  }

  // ---- tags ----

  /** How entity types are named in tags, and how numbers are written. */
  lemma TagNames(entityType: string, n: nat)
    ensures entityType == "EMAIL_ADDRESS" ==> TagName(entityType) == "EMAIL"
    ensures entityType == "CREDIT_CARD" ==> TagName(entityType) == "CARD"
    ensures entityType == "PERSON" ==> TagName(entityType) == "PERSON"
    ensures n == 12 ==> Decimal(n) == "12"
  {
    if entityType == "EMAIL_ADDRESS" { NameOfEmail(); }
    if entityType == "CREDIT_CARD" { NameOfCard(); }
    if entityType == "PERSON" { NameOfPerson(); }
  }

  lemma NameOfEmail()
    ensures TagName("EMAIL_ADDRESS") == "EMAIL"
  {
    assert "EMAIL_ADDRESS"[5..] == "_ADDRESS" && "EMAIL_ADDRESS"[..5] == "EMAIL";
    NotIn("EMAIL", "CREDIT_", 'R', 1);
    ReplaceAbsent("EMAIL", "CREDIT_", "");
  }

  lemma NameOfCard()
    ensures TagName("CREDIT_CARD") == "CARD"
  {
    var text := "CREDIT_CARD";
    assert text[3..] == "DIT_CARD" && text[..7] == "CREDIT_" && text[7..] == "CARD";
    NotIn("CARD", "CREDIT_", 'E', 2);
    ReplaceAbsent("CARD", "CREDIT_", "");
  }

  lemma NameOfPerson()
    ensures TagName("PERSON") == "PERSON"
  {
    NotIn("PERSON", "CREDIT_", 'C', 0);
    ReplaceAbsent("PERSON", "CREDIT_", "");
  }

  /** A pattern with a character that the text lacks does not occur in it. */
  lemma NotIn(text: string, pat: string, c: char, k: nat)
    requires k < |pat| && pat[k] == c && c !in text
    ensures forall i :: !At(text, pat, i)
  {
    forall i ensures !At(text, pat, i) {
      if 0 <= i && i + |pat| <= |text| { assert text[i..i + |pat|][k] == text[i + k]; }
    }
  }

  /** Two tags are the same text exactly when they name their types alike and have the same number. */
  lemma TagsCoincideExactly(a: string, m: nat, b: string, n: nat)
    ensures TagText(a, m) == TagText(b, n) <==> TagName(a) == TagName(b) && m == n
  {
    if TagText(a, m) == TagText(b, n) {
      TagParts(TagName(a), Decimal(m), TagName(b), Decimal(n));
      DecimalInjective(m, n);
    }
  }

  lemma TagParts(x: string, d: string, y: string, e: string)
    requires "<" + x + "_" + d + ">" == "<" + y + "_" + e + ">"
    requires (forall i :: 0 <= i < |d| ==> d[i] != '_') && (forall i :: 0 <= i < |e| ==> e[i] != '_')
    ensures x == y && d == e
  {
    var u, v := x + "_" + d, y + "_" + e;
    var tag := "<" + x + "_" + d + ">";
    assert u == tag[1..|tag| - 1] && v == tag[1..|tag| - 1];
    LastUnderscore(x, d, y, e);
  }

  lemma LastUnderscore(x: string, d: string, y: string, e: string)
    requires x + "_" + d == y + "_" + e
    requires (forall i :: 0 <= i < |d| ==> d[i] != '_') && (forall i :: 0 <= i < |e| ==> e[i] != '_')
    ensures x == y && d == e
  {
    var s := x + "_" + d;
    forall k | |x| < k < |s| ensures s[k] != '_' { assert s[k] == d[k - |x| - 1]; }
    forall k | |y| < k < |s| ensures s[k] != '_' { assert s[k] == e[k - |y| - 1]; }
    assert s[|x|] == '_' && s[|y|] == '_';
    assert x == s[..|x|] && y == s[..|y|];
    assert d == s[|x| + 1..] && e == s[|y| + 1..];
  }

  /** In one text no two values of the same entity type get the same tag. */
  lemma TagsDiffer(env: MaskEnv, vault: State, scope: string, text: string, findings: seq<Finding>, modes: Modes,
                   i: nat, j: nat)
    requires Placed(findings, |text|) && NoneBlocked(findings, modes) && i < j < |findings|
    requires Asked(modes, findings[i]).Tag? && Asked(modes, findings[j]).Tag?
    requires findings[i].entityType == findings[j].entityType
    ensures var reps := RepsOf(env, vault, scope, text, findings, modes);
            |reps| == |findings| && reps[i] != reps[j]
  {
    var t := findings[i].entityType;
    MaskedAsAsked(env, vault, scope, text, findings, modes, i);
    MaskedAsAsked(env, vault, scope, text, findings, modes, j);
    var before, later := TaggedBefore(findings, modes, t, i), TaggedBefore(findings, modes, t, j);
    assert i !in before && i in later && before <= later;
    Smaller(before, later, i);
    TagsCoincideExactly(t, |before| + 1, t, |later| + 1);
  }

  lemma Smaller(a: set<nat>, b: set<nat>, x: nat)
    requires a <= b && x in b && x !in a
    ensures |a| < |b|
  {
    assert b == a + (b - a) && x in b - a;
    assert |b| == |a| + |b - a|;
  }

  /** Tags of two entity types may coincide, since their names may and each type is counted for itself. */
  lemma TagsOfTypesCoincide()
    ensures TagText("EMAIL", 1) == TagText("EMAIL_ADDRESS", 1)
  {
    assert "EMAIL_ADDRESS"[5..] == "_ADDRESS" && "EMAIL_ADDRESS"[..5] == "EMAIL";
  }

  // ---- scopes ----

  /** The context's mappings live for one request. */
  predicate PerRequest(c: MaskingContext) { c.scope.RequestScope? || (c.scope.SessionScope? && c.sessionId.None?) }

  predicate PerSession(c: MaskingContext) { c.scope.SessionScope? && c.sessionId.Some? }

  /** Two contexts share mappings exactly when they are of one kind and agree on what names it. */
  lemma ScopesCoincideExactly(a: MaskingContext, b: MaskingContext)
    ensures a.ScopeId() == b.ScopeId() <==>
            || (PerRequest(a) && PerRequest(b) && a.requestId == b.requestId)
            || (a.scope.TenantScope? && b.scope.TenantScope? && a.tenantId == b.tenantId)
            || (PerSession(a) && PerSession(b)
                && a.tenantId + ":" + a.sessionId.value == b.tenantId + ":" + b.sessionId.value)
  {
    var x, y := a.ScopeId(), b.ScopeId();
    assert x[0] == (if PerRequest(a) then 'r' else if a.scope.TenantScope? then 't' else 's');
    assert y[0] == (if PerRequest(b) then 'r' else if b.scope.TenantScope? then 't' else 's');
    if PerRequest(a) && PerRequest(b) {
      SameAfter("request:", a.requestId, b.requestId);
    } else if a.scope.TenantScope? && b.scope.TenantScope? {
      SameAfter("tenant:", a.tenantId, b.tenantId);
    } else if PerSession(a) && PerSession(b) {
      var u, v := a.tenantId + ":" + a.sessionId.value, b.tenantId + ":" + b.sessionId.value;
      assert x == "session:" + u && y == "session:" + v;
      SameAfter("session:", u, v);
    }
  }

  lemma SameAfter(prefix: string, u: string, v: string)
    ensures prefix + u == prefix + v <==> u == v
  {
    assert (prefix + u)[|prefix|..] == u && (prefix + v)[|prefix|..] == v;
  }

  /** Sessions of tenants without a colon in their names share mappings only if tenant and session are the same. */
  lemma SessionsSeparate(a: MaskingContext, b: MaskingContext)
    requires PerSession(a) && PerSession(b) && ':' !in a.tenantId && ':' !in b.tenantId
    ensures a.ScopeId() == b.ScopeId() <==> a.tenantId == b.tenantId && a.sessionId == b.sessionId
  {
    ScopesCoincideExactly(a, b);
    var s, t := a.sessionId.value, b.sessionId.value;
    if a.tenantId + ":" + s == b.tenantId + ":" + t { FirstColon(a.tenantId, s, b.tenantId, t); }
  }

  lemma FirstColon(x: string, s: string, y: string, t: string)
    requires x + ":" + s == y + ":" + t && ':' !in x && ':' !in y
    ensures x == y && s == t
  {
    var all := x + ":" + s;
    assert forall k :: 0 <= k < |x| ==> all[k] == x[k];
    assert forall k :: 0 <= k < |y| ==> all[k] == y[k];
    assert all[|x|] == ':' && all[|y|] == ':';
    assert x == all[..|x|] && y == all[..|y|];
    assert s == all[|x| + 1..] && t == all[|y| + 1..];
  }

  /** With a colon in a tenant's name two different sessions can have one scope. */
  lemma ColonJoinsScopes()
    ensures MaskingContext("a:b", "1", Some("c"), SessionScope).ScopeId()
         == MaskingContext("a", "2", Some("b:c"), SessionScope).ScopeId()
  {
  }
}
