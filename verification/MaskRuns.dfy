/**
 Masking as a run of the vault: what it stores stays there, so the reverse map taken afterwards undoes it.
 */
module MaskRuns {
  import opened Text
  import opened Restore
  import opened BatchTheorems
  import opened Detection
  import opened Vault
  import opened VaultTheorems
  import opened Masking
  import opened MaskTheorems
  import opened PieceStream
  import opened RoundTrip

  // ---- a time window in which nothing of the scope expires ----

  /** Up to time `t`, no forward mapping of the scope that is alive now expires, and neither do new ones. */
  ghost predicate Steady(env: Env, st: State, scope: string, t: int) {
    && (forall k :: k in st.forward && k.0 == scope
          ==> st.forward[k].expiresAt <= env.clock(st.tick) || st.forward[k].expiresAt > t)
    && env.clock(st.tick) + env.ttl > t
  }

  /** The vault sends this hash to `surrogate` beyond time `t`. */
  ghost predicate Remembers(st: State, scope: string, valueHash: string, surrogate: string, t: int) {
    var k := (scope, valueHash);
    k in st.forward && st.forward[k].mapping.surrogate == surrogate && st.forward[k].expiresAt > t
  }

  /** Every stored mapping, and every request, pairs a hash with the one text it is the hash of. */
  ghost predicate Faithful(st: State, decode: string -> string) {
    forall k :: k in st.forward ==> st.forward[k].mapping.original == decode(st.forward[k].mapping.valueHash)
  }

  ghost predicate FaithfulSteps(steps: seq<Step>, scope: string, decode: string -> string) {
    forall i :: 0 <= i < |steps| ==>
      steps[i].Surrogate? && steps[i].request.scope == scope
      && steps[i].request.original == decode(steps[i].request.valueHash)
  }

  /** In every request, whatever its scope, the hash names the text. */
  ghost predicate FaithfulRequests(steps: seq<Step>, decode: string -> string) {
    forall i :: 0 <= i < |steps| && steps[i].Surrogate? ==>
      steps[i].request.original == decode(steps[i].request.valueHash)
  }

  lemma {:induction false} RunFaithful(env: Env, st: State, steps: seq<Step>, decode: string -> string)
    requires Faithful(st, decode) && FaithfulRequests(steps, decode)
    ensures Faithful(Run(env, st, steps), decode)
    decreases |steps|
  {
    if steps != [] {
      assert forall i :: 0 <= i < |steps[1..]| ==> steps[1..][i] == steps[i + 1];
      RunFaithful(env, After(env, st, steps[0]), steps[1..], decode);
    }
  }

  /**
   `m` is the scope's reverse map as read in `end`, with a surrogate of its own for each live mapping; and from `vault`
   on nothing of the scope expires until it has been read.
   */
  ghost predicate ReadBack(env: Env, vault: State, end: State, scope: string, m: seq<Entry>) {
    && Steady(env, vault, scope, Now(env, AfterReverse(env, end, scope)))
    && IsReverseMap(env, end, scope, m) && SurrogatesDistinct(env, end, scope)
  }

  lemma SurrogateSteady(env: Env, st: State, r: Request, t: int)
    requires Monotone(env.clock) && Steady(env, st, r.scope, t) && Now(env, SurrogateFor(env, st, r).1) <= t
    ensures var (s, st') := SurrogateFor(env, st, r);
            Steady(env, st', r.scope, t) && Remembers(st', r.scope, r.valueHash, s, t)
  {
    var st' := SurrogateFor(env, st, r).1;
    assert env.clock(st.tick) <= env.clock(st'.tick);
  }

  lemma {:induction false} RunSteady(
    env: Env, st: State, steps: seq<Step>, scope: string, t: int, decode: string -> string)
    requires Monotone(env.clock) && Steady(env, st, scope, t) && Now(env, Run(env, st, steps)) <= t
    requires FaithfulSteps(steps, scope, decode) && Faithful(st, decode)
    ensures Steady(env, Run(env, st, steps), scope, t) && Faithful(Run(env, st, steps), decode)
    decreases |steps|
  {
    if steps != [] {
      var st' := After(env, st, steps[0]);
      RunAdvances(env, st', steps[1..]);
      SurrogateSteady(env, st, steps[0].request, t);
      RunSteady(env, st', steps[1..], scope, t, decode);
    }
  }

  lemma RunRemembers(env: Env, st: State, steps: seq<Step>, scope: string, valueHash: string, surrogate: string, t: int)
    requires Monotone(env.clock) && Remembers(st, scope, valueHash, surrogate, t) && Now(env, Run(env, st, steps)) <= t
    ensures Remembers(Run(env, st, steps), scope, valueHash, surrogate, t)
  {
    RunKeepsLive(env, st, steps, (scope, valueHash));
  }

  lemma {:induction false} RunAppend(env: Env, st: State, a: seq<Step>, b: seq<Step>)
    ensures Run(env, st, a + b) == Run(env, Run(env, st, a), b)
    decreases |a|
  {
    if a == [] {
      assert a + b == b;
    } else {
      RunAppend(env, After(env, st, a[0]), a[1..], b);
      assert (a + b)[1..] == a[1..] + b;
    }
  }

  // ---- masking is a run ----

  function EndVault(end: Progressed): State { if end.Going? then end.progress.vault else end.vault }

  /** The texts of the findings are the ones their hashes stand for. */
  ghost predicate FaithfulFindings(findings: seq<Finding>, text: string, decode: string -> string) {
    forall i :: 0 <= i < |findings| ==>
      Slice(text, findings[i].start, findings[i].end) == decode(findings[i].valueHash)
  }

  lemma {:induction false} MaskIsRun(
    env: MaskEnv, scope: string, text: string, findings: seq<Finding>, modes: Modes, k: nat, p: Progress,
    decode: string -> string)
    returns (steps: seq<Step>)
    requires k <= |findings| && FaithfulFindings(findings, text, decode)
    ensures EndVault(MaskAll(env, scope, text, modes, findings[k..], p)) == Run(env.vault, p.vault, steps)
    ensures FaithfulSteps(steps, scope, decode)
    decreases |findings| - k
  {
    steps := [];
    if k < |findings| {
      MaskAllStep(env, scope, text, modes, findings, k, p);
      var f := findings[k];
      var next := MaskOne(env, scope, text, modes, f, p);
      if next.Going? {
        var rest := MaskIsRun(env, scope, text, findings, modes, k + 1, next.progress, decode);
        if ModeOf(modes, f).Pseudonymize? {
          var step := Surrogate(RequestFor(scope, f, Slice(text, f.start, f.end)));
          steps := [step] + rest;
          assert steps[1..] == rest;
        } else {
          steps := rest;
        }
      }
    }
  }

  /** After masking, the vault remembers the replacement of every pseudonymized finding. */
  ghost predicate AllRemembered(
    scope: string, findings: seq<Finding>, modes: Modes, from: nat, reps: seq<string>, vault: State, t: int)
  {
    && |reps| == |findings|
    && (forall i :: from <= i < |findings| && ModeOf(modes, findings[i]).Pseudonymize?
          ==> Remembers(vault, scope, findings[i].valueHash, reps[i], t))
  }

  /**
   Findings that masking accepts, none blocked, with hashes that name their texts, and a clock that never goes back.
   */
  ghost predicate MaskSetting(
    env: MaskEnv, text: string, findings: seq<Finding>, modes: Modes, decode: string -> string) {
    && Placed(findings, |text|) && NoneBlocked(findings, modes) && FaithfulFindings(findings, text, decode)
    && Monotone(env.vault.clock)
  }

  /** Masking the findings from `k` on ends in `end` before `t`, and the vault is steady until then. */
  ghost predicate MasksTo(
    env: MaskEnv, scope: string, text: string, findings: seq<Finding>, modes: Modes, k: nat, p: Progress,
    end: Progress, t: int)
    requires k <= |findings|
  {
    && p.cursor == EndOf(findings, k) && |p.output| == 2 * k && Steady(env.vault, p.vault, scope, t)
    && MaskAll(env, scope, text, modes, findings[k..], p) == Going(end) && Now(env.vault, end.vault) <= t
  }

  /** Output only grows. */
  lemma {:induction false} OutputGrows(
    env: MaskEnv, scope: string, text: string, findings: seq<Finding>, modes: Modes, k: nat, p: Progress, end: Progress)
    requires k <= |findings| && MaskAll(env, scope, text, modes, findings[k..], p) == Going(end)
    ensures p.output <= end.output
    decreases |findings| - k
  {
    if k < |findings| {
      MaskAllStep(env, scope, text, modes, findings, k, p);
      OutputGrows(env, scope, text, findings, modes, k + 1, MaskOne(env, scope, text, modes, findings[k], p).progress,
                  end);
    }
  }

  lemma StepRemembers(
    env: MaskEnv, scope: string, text: string, findings: seq<Finding>, modes: Modes, k: nat, p: Progress,
    end: Progress, t: int, decode: string -> string)
    returns (rep: string, next: Progress)
    requires k < |findings| && MaskSetting(env, text, findings, modes, decode)
    requires MasksTo(env, scope, text, findings, modes, k, p, end, t)
    ensures MasksTo(env, scope, text, findings, modes, k + 1, next, end, t)
    ensures |next.output| == |p.output| + 2 && next.output[|p.output| + 1] == rep
    ensures ModeOf(modes, findings[k]).Pseudonymize? ==> Remembers(end.vault, scope, findings[k].valueHash, rep, t)
  {
    var r;
    rep, next, r := StepWrites(env, scope, text, findings, modes, k, p);
    RestRemembers(env, scope, text, findings, modes, k + 1, next, end, decode, p.vault, r, rep,
                  ModeOf(modes, findings[k]), t);
  }

  /** What was stored before the findings from `k` on is remembered after them. */
  lemma RestRemembers(
    env: MaskEnv, scope: string, text: string, findings: seq<Finding>, modes: Modes, k: nat, p: Progress,
    end: Progress, decode: string -> string, vault: State, r: Request, rep: string, mode: Mode, t: int)
    requires k <= |findings| && FaithfulFindings(findings, text, decode)
    requires Monotone(env.vault.clock) && Steady(env.vault, vault, r.scope, t)
    requires MaskAll(env, scope, text, modes, findings[k..], p) == Going(end) && Now(env.vault, end.vault) <= t
    requires if mode.Pseudonymize? then (rep, p.vault) == SurrogateFor(env.vault, vault, r) else p.vault == vault
    ensures Steady(env.vault, p.vault, r.scope, t)
    ensures mode.Pseudonymize? ==> Remembers(end.vault, r.scope, r.valueHash, rep, t)
  {
    var steps := MaskIsRun(env, scope, text, findings, modes, k, p, decode);
    StepSurrogate(env.vault, vault, r, p.vault, rep, mode, steps, end.vault, t);
  }

  /** What one iteration writes and does to the vault. */
  lemma StepWrites(env: MaskEnv, scope: string, text: string, findings: seq<Finding>, modes: Modes, k: nat, p: Progress)
    returns (rep: string, next: Progress, r: Request)
    requires k < |findings| && Placed(findings, |text|) && NoneBlocked(findings, modes)
    requires p.cursor == EndOf(findings, k)
    ensures MaskAll(env, scope, text, modes, findings[k..], p)
         == MaskAll(env, scope, text, modes, findings[k + 1..], next)
    ensures next.cursor == findings[k].end
    ensures |next.output| == |p.output| + 2 && p.output <= next.output && next.output[|p.output| + 1] == rep
    ensures r.scope == scope && r.valueHash == findings[k].valueHash
    ensures if ModeOf(modes, findings[k]).Pseudonymize? then (rep, next.vault) == SurrogateFor(env.vault, p.vault, r)
            else next.vault == p.vault
  {
    r := RequestFor(scope, findings[k], text[findings[k].start..findings[k].end]);
    rep, next := IterationWrites(env, scope, text, findings, modes, k, p);
    StepMasks(env, scope, text, findings, modes, k, p, next);
  }

  /** One replacement leaves the vault steady, and what it stored is remembered at the end. */
  lemma StepSurrogate(
    env: Env, vault: State, r: Request, next: State, rep: string, mode: Mode, steps: seq<Step>, end: State, t: int)
    requires Monotone(env.clock) && Steady(env, vault, r.scope, t)
    requires if mode.Pseudonymize? then (rep, next) == SurrogateFor(env, vault, r) else next == vault
    requires end == Run(env, next, steps) && Now(env, end) <= t
    ensures Steady(env, next, r.scope, t)
    ensures mode.Pseudonymize? ==> Remembers(end, r.scope, r.valueHash, rep, t)
  {
    RunAdvances(env, next, steps);
    if mode.Pseudonymize? {
      SurrogateSteady(env, vault, r, t);
      RunRemembers(env, next, steps, r.scope, r.valueHash, rep, t);
    }
  }

  /** Where masking is when it comes to finding `k`. */
  lemma {:induction false} ReachFinding(
    env: MaskEnv, scope: string, text: string, findings: seq<Finding>, modes: Modes, vault: State, end: Progress,
    t: int, decode: string -> string, k: nat) returns (p: Progress)
    requires k <= |findings| && MaskSetting(env, text, findings, modes, decode)
    requires MasksTo(env, scope, text, findings, modes, 0, Start(vault), end, t)
    ensures MasksTo(env, scope, text, findings, modes, k, p, end, t)
  {
    p := Start(vault);
    if k > 0 {
      var before := ReachFinding(env, scope, text, findings, modes, vault, end, t, decode, k - 1);
      var rep;
      rep, p := StepRemembers(env, scope, text, findings, modes, k - 1, before, end, t, decode);
    }
  }

  /** After masking the vault remembers every replacement. */
  lemma MaskRemembers(
    env: MaskEnv, scope: string, text: string, findings: seq<Finding>, modes: Modes, vault: State, end: Progress,
    t: int, decode: string -> string)
    requires MaskSetting(env, text, findings, modes, decode)
    requires MasksTo(env, scope, text, findings, modes, 0, Start(vault), end, t) && |end.output| == 2 * |findings|
    ensures AllRemembered(scope, findings, modes, 0, Replacements(end.output), end.vault, t)
  {
    forall k: nat | k < |findings| && ModeOf(modes, findings[k]).Pseudonymize?
      ensures Remembers(end.vault, scope, findings[k].valueHash, Replacements(end.output)[k], t)
    {
      FindingRemembered(env, scope, text, findings, modes, vault, end, t, decode, k);
    }
  }

  lemma FindingRemembered(
    env: MaskEnv, scope: string, text: string, findings: seq<Finding>, modes: Modes, vault: State, end: Progress,
    t: int, decode: string -> string, k: nat)
    requires k < |findings| && MaskSetting(env, text, findings, modes, decode)
    requires ModeOf(modes, findings[k]).Pseudonymize?
    requires MasksTo(env, scope, text, findings, modes, 0, Start(vault), end, t)
    ensures k < |Replacements(end.output)|
    ensures Remembers(end.vault, scope, findings[k].valueHash, Replacements(end.output)[k], t)
  {
    var p := ReachFinding(env, scope, text, findings, modes, vault, end, t, decode, k);
    RememberedFrom(env, scope, text, findings, modes, p, end, t, decode, k);
  }

  lemma RememberedFrom(
    env: MaskEnv, scope: string, text: string, findings: seq<Finding>, modes: Modes, p: Progress, end: Progress,
    t: int, decode: string -> string, k: nat)
    requires k < |findings| && MaskSetting(env, text, findings, modes, decode)
    requires ModeOf(modes, findings[k]).Pseudonymize?
    requires MasksTo(env, scope, text, findings, modes, k, p, end, t)
    ensures k < |Replacements(end.output)|
    ensures Remembers(end.vault, scope, findings[k].valueHash, Replacements(end.output)[k], t)
  {
    var rep, next := StepRemembers(env, scope, text, findings, modes, k, p, end, t, decode);
    ReplacementKept(env, scope, text, findings, modes, k, next, end, rep, t);
  }

  /** A replacement that was written is in the final output. */
  lemma ReplacementKept(
    env: MaskEnv, scope: string, text: string, findings: seq<Finding>, modes: Modes, k: nat, next: Progress,
    end: Progress, rep: string, t: int)
    requires k < |findings| && MasksTo(env, scope, text, findings, modes, k + 1, next, end, t)
    requires next.output[2 * k + 1] == rep
    ensures k < |Replacements(end.output)| && Replacements(end.output)[k] == rep
  {
    OutputGrows(env, scope, text, findings, modes, k + 1, next, end);
    LastKept(next.output, end.output, k, rep);
  }

  lemma LastKept(next: seq<string>, after: seq<string>, k: nat, rep: string)
    requires next <= after && |next| == 2 * (k + 1) && next[2 * k + 1] == rep
    ensures k < |Replacements(after)| && Replacements(after)[k] == rep
  {
  }

  // ---- the round trip ----

  ghost predicate Reversible(findings: seq<Finding>, modes: Modes) {
    forall i :: 0 <= i < |findings| ==> ModeOf(modes, findings[i]).Allow? || ModeOf(modes, findings[i]).Pseudonymize?
  }

  /** A remembered mapping that outlives `reverse_map` is listed with its original. */
  lemma RememberedIsListed(
    env: Env, st: State, scope: string, m: seq<Entry>, h: string, s: string, t: int, decode: string -> string)
    requires Monotone(env.clock) && Coherent(env, st) && IsReverseMap(env, st, scope, m) && Faithful(st, decode)
    requires SurrogatesDistinct(env, st, scope) && Remembers(st, scope, h, s, t)
    requires Now(env, AfterReverse(env, st, scope)) <= t
    ensures Entry(s, decode(h)) in m
  {
    assert ForwardOk(st, Now(env, st), env.ttl, (scope, h));
    LiveAllListedExactly(env, st, scope, m);
    assert LiveForward(env, st, scope, h);
  }

  /** Everything the vault remembers of a reversible masking, the reverse map undoes. */
  lemma RememberedIsUndone(env: MaskEnv, st: State, scope: string, text: string, findings: seq<Finding>, modes: Modes,
                           reps: seq<string>, m: seq<Entry>, t: int, decode: string -> string)
    requires |reps| == |findings| && Placed(findings, |text|) && Reversible(findings, modes)
    requires forall i :: 0 <= i < |findings| ==> PureReplacement(env, text, findings, modes, i, reps[i])
    requires AllRemembered(scope, findings, modes, 0, reps, st, t) && FaithfulFindings(findings, text, decode)
    requires Monotone(env.vault.clock) && Coherent(env.vault, st) && IsReverseMap(env.vault, st, scope, m)
    requires Faithful(st, decode) && SurrogatesDistinct(env.vault, st, scope)
    requires Now(env.vault, AfterReverse(env.vault, st, scope)) <= t
    ensures DistinctKeys(m) && Undone(text, findings, modes, reps, m)
  {
    ReverseMapEntries(env.vault, st, scope, m);
    forall k | 0 <= k < |findings|
      ensures var original := text[findings[k].start..findings[k].end];
              match ModeOf(modes, findings[k])
              case Allow => reps[k] == original
              case Pseudonymize => Entry(reps[k], original) in m
              case _ => false
    {
      var f := findings[k];
      assert PureReplacement(env, text, findings, modes, k, reps[k]);
      SliceInRange(text, f.start, f.end);
      if ModeOf(modes, f).Pseudonymize? {
        RememberedIsListed(env.vault, st, scope, m, f.valueHash, reps[k], t, decode);
      }
    }
  }

  /** What masking leaves in a vault that was coherent, steady and faithful. */
  lemma MaskedVault(
    env: MaskEnv, vault: State, scope: string, text: string, findings: seq<Finding>, modes: Modes, t: int,
    decode: string -> string)
    requires Placed(findings, |text|) && NoneBlocked(findings, modes) && FaithfulFindings(findings, text, decode)
    requires Monotone(env.vault.clock) && Coherent(env.vault, vault) && Faithful(vault, decode)
    requires Steady(env.vault, vault, scope, t)
    requires Now(env.vault, Masked(env, vault, scope, text, findings, modes).1) <= t
    ensures var vault' := Masked(env, vault, scope, text, findings, modes).1;
            && Coherent(env.vault, vault') && Faithful(vault', decode)
            && AllRemembered(scope, findings, modes, 0, RepsOf(env, vault, scope, text, findings, modes), vault', t)
  {
    assert findings[0..] == findings;
    StartLaid(env, text, findings, modes, vault);
    var end := LaidFrom(env, scope, text, findings, modes, 0, Start(vault));
    MaskRemembers(env, scope, text, findings, modes, vault, end, t, decode);
    var steps := MaskIsRun(env, scope, text, findings, modes, 0, Start(vault), decode);
    RunCoherent(env.vault, vault, steps);
    RunSteady(env.vault, vault, steps, scope, t, decode);
  }

  lemma RunKeepsRemembered(
    env: Env, st: State, later: seq<Step>, scope: string, findings: seq<Finding>, modes: Modes, reps: seq<string>,
    t: int)
    requires Monotone(env.clock) && AllRemembered(scope, findings, modes, 0, reps, st, t)
    requires Now(env, Run(env, st, later)) <= t
    ensures AllRemembered(scope, findings, modes, 0, reps, Run(env, st, later), t)
  {
    forall i | 0 <= i < |findings| && ModeOf(modes, findings[i]).Pseudonymize?
      ensures Remembers(Run(env, st, later), scope, findings[i].valueHash, reps[i], t)
    {
      RunRemembers(env, st, later, scope, findings[i].valueHash, reps[i], t);
    }
  }

  /** What a later reverse map says of a masked text. */
  lemma MaskedIsUndone(env: MaskEnv, vault: State, scope: string, text: string, findings: seq<Finding>, modes: Modes,
                       later: seq<Step>, m: seq<Entry>, decode: string -> string)
    requires Placed(findings, |text|) && Reversible(findings, modes)
    requires Monotone(env.vault.clock) && Coherent(env.vault, vault) && FaithfulRequests(later, decode)
    requires Faithful(vault, decode) && FaithfulFindings(findings, text, decode)
    requires var end := Run(env.vault, Masked(env, vault, scope, text, findings, modes).1, later);
             ReadBack(env.vault, vault, end, scope, m)
    ensures var reps := RepsOf(env, vault, scope, text, findings, modes);
            var result := Masked(env, vault, scope, text, findings, modes).0;
            && |reps| == |findings| && result.Ok? && result.value.text == Woven(text, findings, reps)
            && DistinctKeys(m) && Undone(text, findings, modes, reps, m)
  {
    MaskLayout(env, vault, scope, text, findings, modes);
    var reps := RepsOf(env, vault, scope, text, findings, modes);
    var vault' := Masked(env, vault, scope, text, findings, modes).1;
    var end := Run(env.vault, vault', later);
    var t := Now(env.vault, AfterReverse(env.vault, end, scope));
    RunAdvances(env.vault, vault', later);
    MaskedVault(env, vault, scope, text, findings, modes, t, decode);
    RunCoherent(env.vault, vault', later);
    RunFaithful(env.vault, vault', later, decode);
    RunKeepsRemembered(env.vault, vault', later, scope, findings, modes, reps, t);
    RememberedIsUndone(env, end, scope, text, findings, modes, reps, m, t, decode);
  }

  /**
   Mask, let other requests use the vault, take the reverse map, restore: the text comes back, if every finding is
   allowed or pseudonymized, nothing of the scope expires until the reverse map is read, hashes stand for one text each,
   surrogates are distinct, and at each stage of the restoration the next surrogate occurs only where it was put.
   */
  lemma TextRoundTrip(env: MaskEnv, vault: State, scope: string, text: string, findings: seq<Finding>, modes: Modes,
                      later: seq<Step>, m: seq<Entry>, decode: string -> string)
    requires Placed(findings, |text|) && Reversible(findings, modes)
    requires Monotone(env.vault.clock) && Coherent(env.vault, vault) && FaithfulRequests(later, decode)
    requires Faithful(vault, decode) && FaithfulFindings(findings, text, decode)
    requires var end := Run(env.vault, Masked(env, vault, scope, text, findings, modes).1, later);
             ReadBack(env.vault, vault, end, scope, m)
    requires var reps := RepsOf(env, vault, scope, text, findings, modes);
             |reps| == |findings| ==> Restorable(text, findings, modes, reps, m)
    ensures var result := Masked(env, vault, scope, text, findings, modes).0;
            result.Ok? && Restored(result.value.text, m) == text
  {
    MaskedIsUndone(env, vault, scope, text, findings, modes, later, m, decode);
    RestoresMasked(text, findings, modes, RepsOf(env, vault, scope, text, findings, modes), m);
  }

  /** So it does when originals are inert and surrogates occur in the masked text only inside replaced spans. */
  lemma InertTextRoundTrip(env: MaskEnv, vault: State, scope: string, text: string, findings: seq<Finding>,
                           modes: Modes, later: seq<Step>, m: seq<Entry>, decode: string -> string)
    requires Placed(findings, |text|) && Reversible(findings, modes)
    requires Monotone(env.vault.clock) && Coherent(env.vault, vault) && FaithfulRequests(later, decode)
    requires Faithful(vault, decode) && FaithfulFindings(findings, text, decode)
    requires var end := Run(env.vault, Masked(env, vault, scope, text, findings, modes).1, later);
             ReadBack(env.vault, vault, end, scope, m)
    requires OriginalsInert(Order(m))
    requires var reps := RepsOf(env, vault, scope, text, findings, modes);
             |reps| == |findings| ==> OnlyInside(Woven(text, findings, reps), findings, modes, reps, m)
    ensures var result := Masked(env, vault, scope, text, findings, modes).0;
            result.Ok? && Restored(result.value.text, m) == text
  {
    MaskedIsUndone(env, vault, scope, text, findings, modes, later, m, decode);
    RestoresWoven(text, findings, modes, RepsOf(env, vault, scope, text, findings, modes), m);
  }

  lemma StreamsIfMasked(text: string, findings: seq<Finding>, modes: Modes, reps: seq<string>, m: seq<Entry>, cap: nat,
                        chunks: seq<string>)
    requires |reps| == |findings| && Placed(findings, |text|) && FitsCap(m, cap)
    requires Undoable(text, findings, modes, reps, m) && Restorable(text, findings, modes, reps, m)
    ensures Join(chunks) == Woven(text, findings, reps) ==> Streamed(m, TailLength(m, cap), "", chunks) == text
  {
    if Join(chunks) == Woven(text, findings, reps) {
      StreamsMasked(text, findings, modes, reps, m, cap, chunks);
    }
  }

  /**
   The same when the masked text comes back in any chunks through `StreamRestorer`, if in addition surrogates occur in
   it only inside replaced spans and exceed a positive latency cap by at most one.
   */
  lemma StreamedRoundTrip(env: MaskEnv, vault: State, scope: string, text: string, findings: seq<Finding>, modes: Modes,
                          later: seq<Step>, m: seq<Entry>, decode: string -> string, cap: nat, chunks: seq<string>)
    requires Placed(findings, |text|) && Reversible(findings, modes)
    requires Monotone(env.vault.clock) && Coherent(env.vault, vault) && FaithfulRequests(later, decode)
    requires Faithful(vault, decode) && FaithfulFindings(findings, text, decode)
    requires var end := Run(env.vault, Masked(env, vault, scope, text, findings, modes).1, later);
             ReadBack(env.vault, vault, end, scope, m)
    requires var reps := RepsOf(env, vault, scope, text, findings, modes);
             |reps| == |findings| ==>
               && Restorable(text, findings, modes, reps, m)
               && OnlyInside(Woven(text, findings, reps), findings, modes, reps, m)
    requires FitsCap(m, cap)
    ensures var result := Masked(env, vault, scope, text, findings, modes).0;
            result.Ok? && (Join(chunks) == result.value.text ==> Streamed(m, TailLength(m, cap), "", chunks) == text)
  {
    MaskedIsUndone(env, vault, scope, text, findings, modes, later, m, decode);
    StreamsIfMasked(text, findings, modes, RepsOf(env, vault, scope, text, findings, modes), m, cap, chunks);
  }
}
