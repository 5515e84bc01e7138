/**
 What the request lifecycle guarantees up to the provider: every request gets an outcome, every finding gets its own
 decision, and the walk masks each located text in the vault state it finds and keeps everything else.
 */
module PipelineTheorems {
  import opened Outcomes
  import opened JsonTree
  import opened Sorting
  import opened Detection
  import opened Extract
  import opened Rewrite
  import opened Replace
  import opened Vault
  import opened Masking
  import opened MaskTheorems
  import opened RoundTrip
  import opened MaskRuns
  import opened Pipeline
  import Policy

  // ---- entries of a detected request ----

  function EntriesFor(findings: seq<Finding>, ruleset: Policy.RuleSet, caller: Caller): Entries {
    seq(|findings|, i requires 0 <= i < |findings| =>
      (findings[i], ModeFor(Evaluate(ruleset, findings[i], caller).decision.action)))
  }

  lemma {:induction false} EntriesAppend(
    a: seq<LocatedFinding>, b: seq<LocatedFinding>, da: seq<FindingDecision>, db: seq<FindingDecision>, p: Path)
    requires |a| == |da| && |b| == |db|
    ensures EntriesAt(a + b, da + db, p) == EntriesAt(a, da, p) + EntriesAt(b, db, p)
    decreases |b|
  {
    if b == [] {
      assert a + b == a && da + db == da;
    } else {
      var n := |b| - 1;
      assert (a + b)[..|a + b| - 1] == a + b[..n] && (da + db)[..|da + db| - 1] == da + db[..n];
      EntriesAppend(a, b[..n], da, db[..n], p);
    }
  }

  /** Findings of one location, evaluated. */
  lemma {:induction false} EntriesOfOne(
    location: TextLocation, findings: seq<Finding>, ruleset: Policy.RuleSet, caller: Caller, p: Path)
    ensures EntriesAt(Pipeline.At(location, findings), EvaluateAll(ruleset, Pipeline.At(location, findings), caller), p)
         == if location.path == p then EntriesFor(findings, ruleset, caller) else []
    decreases |findings|
  {
    if findings != [] {
      var n := |findings| - 1;
      var here := Pipeline.At(location, findings);
      assert here[..n] == Pipeline.At(location, findings[..n]);
      assert EvaluateAll(ruleset, here, caller)[..n] == EvaluateAll(ruleset, here[..n], caller);
      EntriesOfOne(location, findings[..n], ruleset, caller, p);
      EntriesForLast(findings, ruleset, caller);
    }
  }

  lemma EntriesForLast(findings: seq<Finding>, ruleset: Policy.RuleSet, caller: Caller)
    requires findings != []
    ensures var n := |findings| - 1;
            EntriesFor(findings, ruleset, caller) == EntriesFor(findings[..n], ruleset, caller)
              + [(findings[n], ModeFor(Evaluate(ruleset, findings[n], caller).decision.action))]
  {
  }

  lemma RestPrefixFree(locations: seq<TextLocation>, p: Path)
    requires locations != [] && PrefixFree(locations)
    ensures PrefixFree(locations[1..])
    ensures Listed(locations, p) <==> locations[0].path == p || Listed(locations[1..], p)
    ensures locations[0].path == p ==> !Listed(locations[1..], p)
  {
    var rest := locations[1..];
    forall i, j | 0 <= i < |rest| && 0 <= j < |rest| && i != j ensures !(rest[i].path <= rest[j].path) {
      assert rest[i] == locations[i + 1] && rest[j] == locations[j + 1];
    }
    forall i | 0 <= i < |rest| ensures rest[i].path != locations[0].path {
      assert rest[i] == locations[i + 1] && !(locations[0].path <= locations[i + 1].path);
    }
    assert [locations[0]] + rest == locations;
    ListedUnion([locations[0]], rest, p);
    assert Listed([locations[0]], p) <==> locations[0].path == p by {
      if locations[0].path == p { assert [locations[0]][0].path == p; }
    }
  }

  /** Each location's entries are the findings in its text, each with its own decision; other paths have none. */
  lemma {:induction false} EntriesOfLocated(
    detectors: seq<Detector>, hash: string -> string, locations: seq<TextLocation>, ruleset: Policy.RuleSet,
    caller: Caller, p: Path)
    requires PrefixFree(locations)
    ensures var entries := LocatedEntries(detectors, hash, locations, ruleset, caller, p);
            && (!Listed(locations, p) ==> entries == [])
            && forall i :: 0 <= i < |locations| && locations[i].path == p ==>
                 entries == EntriesFor(Detected(detectors, hash, locations[i].text), ruleset, caller)
    decreases |locations|
  {
    if locations != [] {
      var rest := locations[1..];
      EntriesOfFirst(detectors, hash, locations, ruleset, caller, p);
      RestPrefixFree(locations, p);
      EntriesOfLocated(detectors, hash, rest, ruleset, caller, p);
      forall i | 0 <= i < |locations| && locations[i].path == p
        ensures LocatedEntries(detectors, hash, locations, ruleset, caller, p)
             == EntriesFor(Detected(detectors, hash, locations[i].text), ruleset, caller)
      {
        if i > 0 { assert rest[i - 1] == locations[i] && locations[0].path != p; }
      }
    }
  }

  function LocatedEntries(
    detectors: seq<Detector>, hash: string -> string, locations: seq<TextLocation>, ruleset: Policy.RuleSet,
    caller: Caller, p: Path): Entries
  {
    var located := Located(detectors, hash, locations);
    EntriesAt(located, EvaluateAll(ruleset, located, caller), p)
  }

  /** Entries come location by location. */
  lemma EntriesOfFirst(
    detectors: seq<Detector>, hash: string -> string, locations: seq<TextLocation>, ruleset: Policy.RuleSet,
    caller: Caller, p: Path)
    requires locations != []
    ensures LocatedEntries(detectors, hash, locations, ruleset, caller, p)
         == (if locations[0].path == p
             then EntriesFor(Detected(detectors, hash, locations[0].text), ruleset, caller) else [])
            + LocatedEntries(detectors, hash, locations[1..], ruleset, caller, p)
  {
    var found := Detected(detectors, hash, locations[0].text);
    var a, b := Pipeline.At(locations[0], found), Located(detectors, hash, locations[1..]);
    assert EvaluateAll(ruleset, a + b, caller) == EvaluateAll(ruleset, a, caller) + EvaluateAll(ruleset, b, caller);
    EntriesAppend(a, b, EvaluateAll(ruleset, a, caller), EvaluateAll(ruleset, b, caller), p);
    EntriesOfOne(locations[0], found, ruleset, caller, p);
  }

  /** Detected entries are sorted already, and the span dictionary gives each finding its own mode. */
  lemma {:induction false} ModesFind(entries: Entries, i: nat)
    requires i < |entries|
    requires forall j, k :: 0 <= j < k < |entries| ==>
      (entries[j].0.start, entries[j].0.end) != (entries[k].0.start, entries[k].0.end)
    ensures ModeOf(ModesOf(entries), entries[i].0) == entries[i].1
    decreases |entries|
  {
    var n := |entries| - 1;
    if i < n { ModesFind(entries[..n], i); }
  }

  lemma DetectedEntries(
    detectors: seq<Detector>, hash: string -> string, text: string, ruleset: Policy.RuleSet, caller: Caller)
    ensures var found := Detected(detectors, hash, text);
            var entries := EntriesFor(found, ruleset, caller);
            && FindingsOf(entries) == found && Placed(found, |text|)
            && forall i :: 0 <= i < |found| ==>
                 ModeOf(ModesOf(entries), found[i]) == ModeFor(Evaluate(ruleset, found[i], caller).decision.action)
  {
    var found := Detected(detectors, hash, text);
    var entries := EntriesFor(found, ruleset, caller);
    DetectedIsPlaced(detectors, hash, text);
    assert Sorted(entries, StartsBefore);
    SortOfSorted(entries, StartsBefore);
    forall i | 0 <= i < |found|
      ensures ModeOf(ModesOf(entries), found[i]) == ModeFor(Evaluate(ruleset, found[i], caller).decision.action)
    {
      forall j, k | 0 <= j < k < |entries|
        ensures (entries[j].0.start, entries[j].0.end) != (entries[k].0.start, entries[k].0.end)
      {
        assert entries[j].0 == found[j] && entries[k].0 == found[k];
      }
      ModesFind(entries, i);
    }
  }

  // ---- entries that masking accepts ----

  /** Entries for a text that masking it cannot fail on. */
  ghost predicate Sound(entries: Entries, text: string) {
    Placed(FindingsOf(entries), |text|) && NoneBlocked(FindingsOf(entries), ModesOf(entries))
  }

  /** Entries sit only at strings of the payload, and are sound there. */
  ghost predicate AllSound(byPath: ByPath, payload: Json) {
    forall p :: Lookup(byPath, p) != [] ==>
      Resolve(payload, p).Some? && Resolve(payload, p).value.JStr? && Sound(Lookup(byPath, p),
                                                                            Resolve(payload, p).value.s)
  }

  lemma {:induction false} ResolveStep(payload: Json, path: Path, v: Json, i: nat)
    requires WellFormed(payload) && Resolve(payload, path) == Some(v) && i < Count(v)
    ensures WellFormed(v) && Resolve(payload, path + [Seg(v, i)]) == Some(Kid(v, i))
    decreases |path|
  {
    var longer := path + [Seg(v, i)];
    if path == [] {
      ChildIs(v, i);
      assert longer[0] == Seg(v, i) && longer[1..] == [];
    } else {
      var c := Child(payload, path[0]).value;
      ResolveStep(Kid(payload, c), path[1..], v, i);
      assert longer[0] == path[0] && longer[1..] == path[1..] + [Seg(v, i)];
    }
  }

  /** With sound entries the walk succeeds. */
  lemma {:induction false} WalkSucceeds(
    env: MaskEnv, scope: string, byPath: ByPath, payload: Json, v: Json, path: Path, vault: State)
    requires WellFormed(payload) && AllSound(byPath, payload) && Resolve(payload, path) == Some(v)
    ensures Walk(env, scope, byPath, v, path, vault).0.Ok?
    decreases v, 1, 0
  {
    if v.JStr? {
      var entries := Lookup(byPath, path);
      if entries != [] {
        MaskLayout(env, vault, scope, v.s, FindingsOf(entries), ModesOf(entries));
      }
    } else {
      WalkKidsSucceed(env, scope, byPath, payload, v, 0, path, vault);
    }
  }

  lemma {:induction false} WalkKidsSucceed(
    env: MaskEnv, scope: string, byPath: ByPath, payload: Json, v: Json, i: nat, path: Path, vault: State)
    requires WellFormed(payload) && AllSound(byPath, payload) && Resolve(payload, path) == Some(v) && i <= Count(v)
    ensures WalkKids(env, scope, byPath, v, i, path, vault).0.Ok?
    decreases v, 0, Count(v) - i
  {
    if i < Count(v) {
      ResolveStep(payload, path, v, i);
      WalkSucceeds(env, scope, byPath, payload, Kid(v, i), path + [Seg(v, i)], vault);
      WalkKidsSucceed(env, scope, byPath, payload, v, i + 1, path,
                      Walk(env, scope, byPath, Kid(v, i), path + [Seg(v, i)], vault).1);
    }
  }

  /** A detected request has sound entries unless some decision blocks. */
  lemma DetectedIsSound(detectors: seq<Detector>, hash: string -> string, ruleset: Policy.RuleSet, payload: Json,
                        masking: MaskingContext, caller: Caller, byPath: ByPath)
    requires WellFormed(payload)
    requires var ctx := ContextFor(detectors, hash, ruleset, payload, masking, caller, false);
             !HasBlock(ctx) && Groups(byPath, ctx.findings, ctx.decisions)
    ensures AllSound(byPath, payload)
    ensures forall p :: Lookup(byPath, p) != [] ==> Listed(Extracted(payload), p)
    ensures forall i :: 0 <= i < |Extracted(payload)| ==>
      var location := Extracted(payload)[i];
      Lookup(byPath, location.path) == EntriesFor(Detected(detectors, hash, location.text), ruleset, caller)
  {
    var ctx := ContextFor(detectors, hash, ruleset, payload, masking, caller, false);
    var locations := Extracted(payload);
    LocationsPrefixFree(Payload, payload, []);
    LocationsResolve(Payload, payload, []);
    forall i | 0 <= i < |locations|
      ensures Lookup(byPath, locations[i].path)
           == EntriesFor(Detected(detectors, hash, locations[i].text), ruleset, caller)
    {
      EntriesOfLocated(detectors, hash, locations, ruleset, caller, locations[i].path);
    }
    forall p | Lookup(byPath, p) != []
      ensures Listed(locations, p) && Resolve(payload, p).Some? && Resolve(payload, p).value.JStr?
      ensures Sound(Lookup(byPath, p), Resolve(payload, p).value.s)
    {
      EntriesOfLocated(detectors, hash, locations, ruleset, caller, p);
      var i :| 0 <= i < |locations| && locations[i].path == p;
      assert Holds(payload, 0, locations[i]);
      assert p[0..] == p;
      NotBlockedAt(ctx, p);
      UnblockedIsSound(detectors, hash, locations[i].text, ruleset, caller);
    }
  }

  /** The entries of one text are sound if none of its decisions blocks. */
  lemma UnblockedIsSound(
    detectors: seq<Detector>, hash: string -> string, text: string, ruleset: Policy.RuleSet, caller: Caller)
    requires forall e :: e in EntriesFor(Detected(detectors, hash, text), ruleset, caller) ==> !e.1.Block?
    ensures Sound(EntriesFor(Detected(detectors, hash, text), ruleset, caller), text)
  {
    var found := Detected(detectors, hash, text);
    var entries := EntriesFor(found, ruleset, caller);
    DetectedEntries(detectors, hash, text, ruleset, caller);
    forall k | 0 <= k < |found| ensures !ModeOf(ModesOf(entries), found[k]).Block? {
      assert entries[k] in entries;
    }
  }

  /** Modes at a path come from decisions. */
  lemma {:induction false} ModeFromDecision(
    findings: seq<LocatedFinding>, decisions: seq<FindingDecision>, p: Path, e: (Finding, Mode))
    requires |findings| == |decisions| && e in EntriesAt(findings, decisions, p)
    ensures exists i :: 0 <= i < |decisions| && e.1 == ModeFor(decisions[i].decision.action)
    decreases |findings|
  {
    var n := |findings| - 1;
    if e in EntriesAt(findings[..n], decisions[..n], p) {
      ModeFromDecision(findings[..n], decisions[..n], p, e);
      var i :| 0 <= i < n && e.1 == ModeFor(decisions[..n][i].decision.action);
      assert decisions[i] == decisions[..n][i];
    } else {
      assert e.1 == ModeFor(decisions[n].decision.action);
    }
  }

  lemma NotBlockedAt(ctx: GatewayRequestContext, p: Path)
    requires |ctx.findings| == |ctx.decisions| && !HasBlock(ctx)
    ensures forall e :: e in EntriesAt(ctx.findings, ctx.decisions, p) ==> !e.1.Block?
  {
    forall e | e in EntriesAt(ctx.findings, ctx.decisions, p) ensures !e.1.Block? {
      ModeFromDecision(ctx.findings, ctx.decisions, p, e);
    }
  }

  lemma WalkKeepsObject(env: MaskEnv, scope: string, byPath: ByPath, v: Json, path: Path, vault: State)
    requires Walk(env, scope, byPath, v, path, vault).0.Ok?
    ensures Walk(env, scope, byPath, v, path, vault).0.value.JObj? <==> v.JObj?
  {
  }

  /** A payload that is not an object has no prompt text, so masking leaves it and the vault alone. */
  lemma NothingInNonObject(env: MaskEnv, scope: string, byPath: ByPath, payload: Json, vault: State)
    requires WellFormed(payload) && !payload.JObj? && AllSound(byPath, payload)
    requires forall p :: Lookup(byPath, p) != [] ==> Listed(Extracted(payload), p)
    ensures Walk(env, scope, byPath, payload, [], vault) == (Ok(payload), vault)
  {
    if !payload.JStr? {
      assert Plan(Payload, payload) == [];
      NoPlanNoLocations(Payload, payload, []);
    }
    assert Extracted(payload) == [] && FindingsOf([]) == [];
    WalkAllowed(env, scope, byPath, payload, payload, [], vault);
  }

  /**
   Every detected request gets an outcome: masking never meets findings it rejects, it raises exactly when the
   reported action is "blocked" or, outside shadow mode, the payload is no object, and then the vault is as it was.
   */
  lemma MaskingIsTotal(
    env: MaskEnv, detectors: seq<Detector>, hash: string -> string, ruleset: Policy.RuleSet, payload: Json,
    masking: MaskingContext, caller: Caller, shadow: bool, vault: State, result: Result<Json, PipelineError>,
    vault': State)
    requires WellFormed(payload)
    requires MaskOutcome(env, payload, ContextFor(detectors, hash, ruleset, payload, masking, caller, shadow), vault,
                         result, vault')
    ensures var ctx := ContextFor(detectors, hash, ruleset, payload, masking, caller, shadow);
            && (result.Err? <==> ctx.Action() == "blocked" || (!shadow && !payload.JObj?))
            && (result.Err? ==> vault' == vault)
            && (ctx.Action() == "blocked" ==> result == Err(Blocked))
            && (shadow ==> result == Ok(payload) && vault' == vault)
  {
    var ctx := ContextFor(detectors, hash, ruleset, payload, masking, caller, shadow);
    if !shadow && !HasBlock(ctx) {
      var scope := masking.ScopeId();
      var byPath :| Groups(byPath, ctx.findings, ctx.decisions)
        && var walked := Walk(env, scope, byPath, payload, [], vault);
           vault' == walked.1 && result == Checked(walked.0);
      DetectedIsSound(detectors, hash, ruleset, payload, masking, caller, byPath);
      WalkSucceeds(env, scope, byPath, payload, payload, [], vault);
      WalkKeepsObject(env, scope, byPath, payload, [], vault);
      if !payload.JObj? { NothingInNonObject(env, scope, byPath, payload, vault); }
    }
  }

  // ---- what the walk leaves alone ----

  /** Where the walk is when it comes to child `i` of a value, from child `j` on. */
  function StateAt(
    env: MaskEnv, scope: string, byPath: ByPath, v: Json, j: nat, path: Path, vault: State, i: nat): State
    requires j <= i <= Count(v)
    decreases i - j
  {
    if i == j then vault
    else StateAt(env, scope, byPath, v, j + 1, path, Walk(env, scope, byPath, Kid(v, j), path + [Seg(v, j)], vault).1,
                 i)
  }

  lemma {:induction false} KidWalked(
    env: MaskEnv, scope: string, byPath: ByPath, v: Json, j: nat, path: Path, vault: State, i: nat)
    requires j <= i < Count(v) && WalkKids(env, scope, byPath, v, j, path, vault).0.Ok?
    ensures var st := StateAt(env, scope, byPath, v, j, path, vault, i);
            var kid := Walk(env, scope, byPath, Kid(v, i), path + [Seg(v, i)], st).0;
            kid.Ok? && WalkKids(env, scope, byPath, v, j, path, vault).0.value[i - j] == kid.value
    decreases i - j
  {
    if j < i {
      KidWalked(env, scope, byPath, v, j + 1, path, Walk(env, scope, byPath, Kid(v, j), path + [Seg(v, j)], vault).1,
                i);
    }
  }

  /** Where the walk is when it comes to the value at `rel`. */
  function StateOf(env: MaskEnv, scope: string, byPath: ByPath, v: Json, path: Path, vault: State, rel: Path): State
    decreases |rel|
  {
    if rel == [] then vault
    else
      match Child(v, rel[0])
      case None => vault
      case Some(i) =>
        StateOf(env, scope, byPath, Kid(v, i), path + [Seg(v, i)], StateAt(env, scope, byPath, v, 0, path, vault, i),
                rel[1..])
  }

  /** One step down a path leads to a walked child, before and after. */
  lemma WalkDown(env: MaskEnv, scope: string, byPath: ByPath, v: Json, path: Path, vault: State, rel: Path)
    returns (i: nat, st: State)
    requires Walk(env, scope, byPath, v, path, vault).0.Ok? && rel != [] && Resolve(v, rel).Some?
    ensures Child(v, rel[0]) == Some(i) && i < Count(v) && st == StateAt(env, scope, byPath, v, 0, path, vault, i)
    ensures Resolve(v, rel) == Resolve(Kid(v, i), rel[1..]) && path + rel == path + [Seg(v, i)] + rel[1..]
    ensures var w, kid := Walk(env, scope, byPath, v, path, vault).0.value,
                          Walk(env, scope, byPath, Kid(v, i), path + [Seg(v, i)], st).0;
            kid.Ok? && SameKind(v, w) && Resolve(w, rel) == Resolve(kid.value, rel[1..])
  {
    i := Child(v, rel[0]).value;
    st := StateAt(env, scope, byPath, v, 0, path, vault, i);
    KidWalked(env, scope, byPath, v, 0, path, vault, i);
    ChildStable(v, Walk(env, scope, byPath, v, path, vault).0.value, rel[0], 0);
  }

  /** A leaf without entries is unchanged, and every value keeps its kind and keys. */
  lemma {:induction false} WalkKeepsLeaf(
    env: MaskEnv, scope: string, byPath: ByPath, v: Json, path: Path, vault: State, rel: Path)
    requires Walk(env, scope, byPath, v, path, vault).0.Ok?
    requires Resolve(v, rel).Some? && IsLeaf(Resolve(v, rel).value) && Lookup(byPath, path + rel) == []
    ensures var w := Walk(env, scope, byPath, v, path, vault).0.value;
            SameKind(v, w) && Resolve(w, rel) == Resolve(v, rel)
    decreases |rel|
  {
    if rel == [] {
      assert path + rel == path;
      if !v.JStr? { WithKids(v); }
    } else {
      var i, st := WalkDown(env, scope, byPath, v, path, vault, rel);
      WalkKeepsLeaf(env, scope, byPath, Kid(v, i), path + [Seg(v, i)], st, rel[1..]);
    }
  }

  /**
   In every successful walk a string with entries becomes its masked text, in the state the walk is in at that point.
   */
  lemma {:induction false} WalkMasksLeaf(
    env: MaskEnv, scope: string, byPath: ByPath, v: Json, path: Path, vault: State, rel: Path)
    requires Walk(env, scope, byPath, v, path, vault).0.Ok?
    requires Resolve(v, rel).Some? && Resolve(v, rel).value.JStr? && Lookup(byPath, path + rel) != []
    ensures var w, entries := Walk(env, scope, byPath, v, path, vault).0.value, Lookup(byPath, path + rel);
            var st := StateOf(env, scope, byPath, v, path, vault, rel);
            var masked := Masked(env, st, scope, Resolve(v, rel).value.s, FindingsOf(entries), ModesOf(entries)).0;
            masked.Ok? && Resolve(w, rel) == Some(JStr(masked.value.text))
    decreases |rel|
  {
    if rel == [] {
      assert path + rel == path;
    } else {
      var i, st := WalkDown(env, scope, byPath, v, path, vault, rel);
      WalkMasksLeaf(env, scope, byPath, Kid(v, i), path + [Seg(v, i)], st, rel[1..]);
    }
  }

  // ---- nothing to mask ----

  ghost predicate AllAllowed(byPath: ByPath) {
    forall p :: forall f :: f in FindingsOf(Lookup(byPath, p)) ==> ModeOf(ModesOf(Lookup(byPath, p)), f).Allow?
  }

  lemma {:induction false} AllowedRun(
    env: MaskEnv, scope: string, text: string, findings: seq<Finding>, modes: Modes, k: nat, p: Progress)
    requires k <= |findings| && forall f :: f in findings ==> ModeOf(modes, f).Allow?
    ensures EndVault(MaskAll(env, scope, text, modes, findings[k..], p)) == p.vault
    decreases |findings| - k
  {
    if k < |findings| {
      MaskAllStep(env, scope, text, modes, findings, k, p);
      assert findings[k] in findings;
      var next := MaskOne(env, scope, text, modes, findings[k], p);
      if next.Going? { AllowedRun(env, scope, text, findings, modes, k + 1, next.progress); }
    }
  }

  /** Weaving the originals back in gives the text. */
  lemma {:induction false} WovenOriginals(text: string, findings: seq<Finding>, reps: seq<string>, k: nat)
    requires |reps| == |findings| && k <= |findings| && Placed(findings, |text|)
    requires forall i :: 0 <= i < |findings| ==> reps[i] == text[findings[i].start..findings[i].end]
    ensures WovenTo(text, findings, reps, k) == text[..EndOf(findings, k)]
  {
    if k > 0 {
      WovenOriginals(text, findings, reps, k - 1);
      var a, f := EndOf(findings, k - 1), findings[k - 1];
      ThreeParts(WovenTo(text, findings, reps, k - 1), text[a..f.start], reps[k - 1], text, a, f.start, f.end);
    }
  }

  lemma WovenAllowed(env: MaskEnv, text: string, findings: seq<Finding>, modes: Modes, reps: seq<string>)
    requires |reps| == |findings| && Placed(findings, |text|)
    requires forall i :: 0 <= i < |findings| ==> ModeOf(modes, findings[i]).Allow?
    requires forall i :: 0 <= i < |findings| ==> PureReplacement(env, text, findings, modes, i, reps[i])
    ensures Woven(text, findings, reps) == text
  {
    forall i | 0 <= i < |findings| ensures reps[i] == text[findings[i].start..findings[i].end] {
      assert PureReplacement(env, text, findings, modes, i, reps[i]);
    }
    WovenOriginals(text, findings, reps, |findings|);
    var end := EndOf(findings, |findings|);
    assert text[..end] + text[end..] == text;
  }

  lemma MaskAllowed(env: MaskEnv, scope: string, text: string, findings: seq<Finding>, modes: Modes, vault: State)
    requires Placed(findings, |text|) && forall f :: f in findings ==> ModeOf(modes, f).Allow?
    ensures var (result, vault') := Masked(env, vault, scope, text, findings, modes);
            result.Ok? && result.value.text == text && vault' == vault
  {
    assert findings[0..] == findings;
    AllowedRun(env, scope, text, findings, modes, 0, Start(vault));
    forall i | 0 <= i < |findings| ensures ModeOf(modes, findings[i]).Allow? { assert findings[i] in findings; }
    MaskLayout(env, vault, scope, text, findings, modes);
    WovenAllowed(env, text, findings, modes, RepsOf(env, vault, scope, text, findings, modes));
  }

  lemma {:induction false} WalkAllowed(
    env: MaskEnv, scope: string, byPath: ByPath, payload: Json, v: Json, path: Path, vault: State)
    requires WellFormed(payload) && AllSound(byPath, payload) && AllAllowed(byPath) && Resolve(payload, path) == Some(v)
    ensures Walk(env, scope, byPath, v, path, vault) == (Ok(v), vault)
    decreases v, 1, 0
  {
    if v.JStr? {
      var entries := Lookup(byPath, path);
      if entries != [] { MaskAllowed(env, scope, v.s, FindingsOf(entries), ModesOf(entries), vault); }
    } else {
      WalkKidsAllowed(env, scope, byPath, payload, v, 0, path, vault);
      var kids := WalkKids(env, scope, byPath, v, 0, path, vault).0.value;
      assert kids == Kids(v)[0..] == Kids(v);
      WithKids(v);
    }
  }

  lemma {:induction false} WalkKidsAllowed(
    env: MaskEnv, scope: string, byPath: ByPath, payload: Json, v: Json, i: nat, path: Path, vault: State)
    requires WellFormed(payload) && AllSound(byPath, payload) && AllAllowed(byPath) && Resolve(payload, path) == Some(v)
    requires i <= Count(v)
    ensures var (result, vault') := WalkKids(env, scope, byPath, v, i, path, vault);
            vault' == vault && result.Ok? && result.value == Kids(v)[i..]
    decreases v, 0, Count(v) - i
  {
    if i < Count(v) {
      ResolveStep(payload, path, v, i);
      WalkAllowed(env, scope, byPath, payload, Kid(v, i), path + [Seg(v, i)], vault);
      WalkKidsAllowed(env, scope, byPath, payload, v, i + 1, path, vault);
      KidsStep(env, scope, byPath, v, i, path, vault);
    } else {
      assert Kids(v)[i..] == [];
    }
  }

  /** One step of the walk over children that leaves them alone. */
  lemma KidsStep(env: MaskEnv, scope: string, byPath: ByPath, v: Json, i: nat, path: Path, vault: State)
    requires i < Count(v) && Walk(env, scope, byPath, Kid(v, i), path + [Seg(v, i)], vault) == (Ok(Kid(v, i)), vault)
    requires var (rest, vault') := WalkKids(env, scope, byPath, v, i + 1, path, vault);
             vault' == vault && rest.Ok? && rest.value == Kids(v)[i + 1..]
    ensures var (result, vault') := WalkKids(env, scope, byPath, v, i, path, vault);
            vault' == vault && result.Ok? && result.value == Kids(v)[i..]
  {
    assert Kids(v)[i..] == [Kid(v, i)] + Kids(v)[i + 1..];
  }

  lemma AllowedAction(ctx: GatewayRequestContext)
    requires ctx.Action() == "allowed"
    ensures !ctx.shadow && forall i :: 0 <= i < |ctx.decisions| ==> ctx.decisions[i].decision.action.Allow?
  {
  }

  lemma AllowedAt(ctx: GatewayRequestContext, p: Path, e: (Finding, Mode))
    requires |ctx.findings| == |ctx.decisions| && e in EntriesAt(ctx.findings, ctx.decisions, p)
    requires forall i :: 0 <= i < |ctx.decisions| ==> ctx.decisions[i].decision.action.Allow?
    ensures e.1.Allow?
  {
    ModeFromDecision(ctx.findings, ctx.decisions, p, e);
  }

  lemma DetectedAllAllowed(detectors: seq<Detector>, hash: string -> string, ruleset: Policy.RuleSet, payload: Json,
                           masking: MaskingContext, caller: Caller, byPath: ByPath, p: Path, f: Finding)
    requires WellFormed(payload)
    requires var ctx := ContextFor(detectors, hash, ruleset, payload, masking, caller, false);
             && Groups(byPath, ctx.findings, ctx.decisions)
             && forall i :: 0 <= i < |ctx.decisions| ==> ctx.decisions[i].decision.action.Allow?
    requires f in FindingsOf(Lookup(byPath, p))
    ensures ModeOf(ModesOf(Lookup(byPath, p)), f).Allow?
  {
    var ctx := ContextFor(detectors, hash, ruleset, payload, masking, caller, false);
    DetectedIsSound(detectors, hash, ruleset, payload, masking, caller, byPath);
    assert FindingsOf([]) == [];
    assert Lookup(byPath, p) != [];
    var i :| 0 <= i < |Extracted(payload)| && Extracted(payload)[i].path == p;
    var found := Detected(detectors, hash, Extracted(payload)[i].text);
    DetectedEntries(detectors, hash, Extracted(payload)[i].text, ruleset, caller);
    var k :| 0 <= k < |found| && found[k] == f;
    AllowedAt(ctx, p, EntriesFor(found, ruleset, caller)[k]);
  }

  /** A request reported as "allowed" goes out as it came in, if it is an object, and the vault is as it was. */
  lemma AllowedIsUntouched(
    env: MaskEnv, detectors: seq<Detector>, hash: string -> string, ruleset: Policy.RuleSet, payload: Json,
    masking: MaskingContext, caller: Caller, shadow: bool, vault: State, result: Result<Json, PipelineError>,
    vault': State)
    requires WellFormed(payload)
    requires var ctx := ContextFor(detectors, hash, ruleset, payload, masking, caller, shadow);
             ctx.Action() == "allowed" && MaskOutcome(env, payload, ctx, vault, result, vault')
    ensures result == (if payload.JObj? then Ok(payload) else Err(PayloadNotObject)) && vault' == vault
  {
    var ctx := ContextFor(detectors, hash, ruleset, payload, masking, caller, shadow);
    AllowedAction(ctx);
    var byPath :| Groups(byPath, ctx.findings, ctx.decisions)
      && var walked := Walk(env, masking.ScopeId(), byPath, payload, [], vault);
         vault' == walked.1 && result == Checked(walked.0);
    DetectedIsSound(detectors, hash, ruleset, payload, masking, caller, byPath);
    forall p, f | f in FindingsOf(Lookup(byPath, p)) ensures ModeOf(ModesOf(Lookup(byPath, p)), f).Allow? {
      DetectedAllAllowed(detectors, hash, ruleset, payload, masking, caller, byPath, p, f);
    }
    WalkAllowed(env, masking.ScopeId(), byPath, payload, payload, [], vault);
  }
}
