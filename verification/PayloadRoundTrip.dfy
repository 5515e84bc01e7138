/**
 The masked payload, as a rewriting of the request at its text locations, and the round trip: restoring a masked
 request gives the request back.
 */
module PayloadRoundTrip {
  import opened Outcomes
  import opened JsonTree
  import opened Detection
  import opened Extract
  import opened Rewrite
  import opened Replace
  import opened Restore
  import opened BatchTheorems
  import opened Vault
  import opened VaultTheorems
  import opened Masking
  import opened MaskTheorems
  import opened RoundTrip
  import opened MaskRuns
  import opened Pipeline
  import opened PipelineTheorems
  import Policy

  // ---- masked text as a function of the vault ----

  /** The replacement of finding `k` when the vault is `st`. */
  function RepFrom(
    env: MaskEnv, st: State, scope: string, text: string, findings: seq<Finding>, modes: Modes, k: nat): string
    requires k < |findings| && Placed(findings, |text|)
  {
    var f := findings[k];
    var original := text[f.start..f.end];
    match ModeOf(modes, f)
    case Allow => original
    case Hash => "sha256:" + env.digest(original)
    case Tag => TagText(f.entityType, TagsTo(findings, modes, f.entityType, k) + 1)
    case Pseudonymize =>
      if (scope, f.valueHash) in st.forward then st.forward[(scope, f.valueHash)].mapping.surrogate else ""
    case Block => ""
  }

  function RepsFrom(
    env: MaskEnv, st: State, scope: string, text: string, findings: seq<Finding>, modes: Modes): seq<string>
    requires Placed(findings, |text|)
  {
    seq(|findings|, k requires 0 <= k < |findings| => RepFrom(env, st, scope, text, findings, modes, k))
  }

  /** The text at one location, masked according to the vault `st`. */
  function Rendered(env: MaskEnv, st: State, scope: string, entries: Entries, text: string): string {
    var findings, modes := FindingsOf(entries), ModesOf(entries);
    if entries == [] || !Placed(findings, |text|) then text
    else Woven(text, findings, RepsFrom(env, st, scope, text, findings, modes))
  }

  function MaskRule(env: MaskEnv, st: State, scope: string, byPath: ByPath): Rule {
    (p, s) => Rendered(env, st, scope, Lookup(byPath, p), s)
  }

  lemma RememberedReps(
    env: MaskEnv, st: State, scope: string, text: string, findings: seq<Finding>, modes: Modes, reps: seq<string>,
    t: int)
    requires Placed(findings, |text|) && NoneBlocked(findings, modes)
    requires AllRemembered(scope, findings, modes, 0, reps, st, t)
    requires forall i :: 0 <= i < |findings| ==> PureReplacement(env, text, findings, modes, i, reps[i])
    ensures reps == RepsFrom(env, st, scope, text, findings, modes)
  {
    forall k | 0 <= k < |findings| ensures reps[k] == RepFrom(env, st, scope, text, findings, modes, k) {
      assert PureReplacement(env, text, findings, modes, k, reps[k]);
    }
  }

  /**
   Masking one text gives the rendering under any later state of the vault within the window, and that state still
   remembers every pseudonymized finding.
   */
  lemma MaskRendered(
    env: MaskEnv, vault: State, scope: string, text: string, entries: Entries, later: seq<Step>, t: int,
    decode: string -> string)
    requires Sound(entries, text) && FaithfulFindings(FindingsOf(entries), text, decode)
    requires Monotone(env.vault.clock) && Steady(env.vault, vault, scope, t)
    requires var vault' := Masked(env, vault, scope, text, FindingsOf(entries), ModesOf(entries)).1;
             Now(env.vault, Run(env.vault, vault', later)) <= t
    ensures var (result, vault') := Masked(env, vault, scope, text, FindingsOf(entries), ModesOf(entries));
            var end := Run(env.vault, vault', later);
            && result.Ok? && (entries != [] ==> result.value.text == Rendered(env, end, scope, entries, text))
            && AllRemembered(scope, FindingsOf(entries), ModesOf(entries), 0,
                             RepsFrom(env, end, scope, text, FindingsOf(entries), ModesOf(entries)), end, t)
  {
    var findings, modes := FindingsOf(entries), ModesOf(entries);
    var vault' := Masked(env, vault, scope, text, findings, modes).1;
    var end := Run(env.vault, vault', later);
    assert findings[0..] == findings;
    RunAdvances(env.vault, vault', later);
    MaskLayout(env, vault, scope, text, findings, modes);
    StartLaid(env, text, findings, modes, vault);
    var masked := LaidFrom(env, scope, text, findings, modes, 0, Start(vault));
    MaskRemembers(env, scope, text, findings, modes, vault, masked, t, decode);
    var reps := RepsOf(env, vault, scope, text, findings, modes);
    forall i | 0 <= i < |findings| && ModeOf(modes, findings[i]).Pseudonymize?
      ensures Remembers(end, scope, findings[i].valueHash, reps[i], t)
    {
      RunRemembers(env.vault, vault', later, scope, findings[i].valueHash, reps[i], t);
    }
    RememberedReps(env, end, scope, text, findings, modes, reps, t);
  }

  // ---- the walk ----

  /** Apply a rule at every string of a value. */
  function AtStrings(v: Json, path: Path, g: Rule): Json
    decreases v, 1, 0
  {
    if v.JStr? then JStr(g(path, v.s)) else With(v, KidsAtStrings(v, 0, path, g))
  }

  function KidsAtStrings(v: Json, i: nat, path: Path, g: Rule): (kids: seq<Json>)
    requires i <= Count(v)
    ensures |kids| == Count(v) - i
    decreases v, 0, Count(v) - i
  {
    if i == Count(v) then []
    else [AtStrings(Kid(v, i), path + [Seg(v, i)], g)] + KidsAtStrings(v, i + 1, path, g)
  }

  lemma {:induction false} KidAtStrings(v: Json, i: nat, path: Path, g: Rule, k: nat)
    requires i <= k < Count(v)
    ensures KidsAtStrings(v, i, path, g)[k - i] == AtStrings(Kid(v, k), path + [Seg(v, k)], g)
    decreases k - i
  {
    if i < k { KidAtStrings(v, i + 1, path, g, k); }
  }

  /** Findings at every path stand for the texts their hashes name. */
  ghost predicate AllFaithful(byPath: ByPath, payload: Json, decode: string -> string) {
    forall p :: Lookup(byPath, p) != [] && Resolve(payload, p).Some? && Resolve(payload, p).value.JStr?
      ==> FaithfulFindings(FindingsOf(Lookup(byPath, p)), Resolve(payload, p).value.s, decode)
  }

  ghost predicate Maskable(byPath: ByPath, payload: Json, decode: string -> string) {
    WellFormed(payload) && AllSound(byPath, payload) && AllFaithful(byPath, payload, decode)
  }

  /** The walk is a run of the vault. */
  lemma {:induction false} WalkIsRun(
    env: MaskEnv, scope: string, byPath: ByPath, payload: Json, v: Json, path: Path, vault: State,
    decode: string -> string) returns (steps: seq<Step>)
    requires Maskable(byPath, payload, decode) && Resolve(payload, path) == Some(v)
    ensures Walk(env, scope, byPath, v, path, vault).1 == Run(env.vault, vault, steps)
    ensures FaithfulSteps(steps, scope, decode)
    decreases v, 1, 0
  {
    steps := [];
    if v.JStr? {
      var entries := Lookup(byPath, path);
      if entries != [] {
        assert FindingsOf(entries)[0..] == FindingsOf(entries);
        steps := MaskIsRun(env, scope, v.s, FindingsOf(entries), ModesOf(entries), 0, Start(vault), decode);
      }
    } else {
      steps := WalkKidsIsRun(env, scope, byPath, payload, v, 0, path, vault, decode);
    }
  }

  lemma {:induction false} WalkKidsIsRun(
    env: MaskEnv, scope: string, byPath: ByPath, payload: Json, v: Json, i: nat, path: Path, vault: State,
    decode: string -> string) returns (steps: seq<Step>)
    requires Maskable(byPath, payload, decode) && Resolve(payload, path) == Some(v) && i <= Count(v)
    ensures WalkKids(env, scope, byPath, v, i, path, vault).1 == Run(env.vault, vault, steps)
    ensures FaithfulSteps(steps, scope, decode)
    decreases v, 0, Count(v) - i
  {
    steps := [];
    if i < Count(v) {
      ResolveStep(payload, path, v, i);
      var first := WalkIsRun(env, scope, byPath, payload, Kid(v, i), path + [Seg(v, i)], vault, decode);
      WalkSucceeds(env, scope, byPath, payload, Kid(v, i), path + [Seg(v, i)], vault);
      var vault' := Walk(env, scope, byPath, Kid(v, i), path + [Seg(v, i)], vault).1;
      var rest := WalkKidsIsRun(env, scope, byPath, payload, v, i + 1, path, vault', decode);
      RunAppend(env.vault, vault, first, rest);
      steps := first + rest;
    }
  }

  /** Walking one child: the steps so far and the steps to come. */
  lemma WalkOneKid(
    env: MaskEnv, scope: string, byPath: ByPath, payload: Json, v: Json, i: nat, path: Path, vault: State,
    later: seq<Step>, t: int, decode: string -> string, end: State) returns (vault': State, rest: seq<Step>)
    requires Maskable(byPath, payload, decode) && Resolve(payload, path) == Some(v) && i < Count(v)
    requires Monotone(env.vault.clock) && Steady(env.vault, vault, scope, t) && Faithful(vault, decode)
    requires end == Run(env.vault, WalkKids(env, scope, byPath, v, i, path, vault).1, later) && Now(env.vault, end) <= t
    ensures Resolve(payload, path + [Seg(v, i)]) == Some(Kid(v, i))
    ensures vault' == Walk(env, scope, byPath, Kid(v, i), path + [Seg(v, i)], vault).1
    ensures Steady(env.vault, vault', scope, t) && Faithful(vault', decode) && Run(env.vault, vault', rest) == end
    ensures WalkKids(env, scope, byPath, v, i, path, vault).1 == WalkKids(env, scope, byPath, v, i + 1, path, vault').1
  {
    ResolveStep(payload, path, v, i);
    var kid, below := Kid(v, i), path + [Seg(v, i)];
    WalkSucceeds(env, scope, byPath, payload, kid, below, vault);
    vault' := Walk(env, scope, byPath, kid, below, vault).1;
    var first := WalkIsRun(env, scope, byPath, payload, kid, below, vault, decode);
    var others := WalkKidsIsRun(env, scope, byPath, payload, v, i + 1, path, vault', decode);
    rest := others + later;
    RunAppend(env.vault, vault', others, later);
    RunAdvances(env.vault, vault', rest);
    RunSteady(env.vault, vault, first, scope, t, decode);
  }

  /** That state is steady, and from after child `i` some steps lead to the end. */
  lemma {:induction false} ReachKid(
    env: MaskEnv, scope: string, byPath: ByPath, payload: Json, v: Json, j: nat, path: Path, vault: State,
    later: seq<Step>, t: int, decode: string -> string, end: State, i: nat) returns (rest: seq<Step>)
    requires Maskable(byPath, payload, decode) && Resolve(payload, path) == Some(v) && j <= i < Count(v)
    requires Monotone(env.vault.clock) && Steady(env.vault, vault, scope, t) && Faithful(vault, decode)
    requires end == Run(env.vault, WalkKids(env, scope, byPath, v, j, path, vault).1, later) && Now(env.vault, end) <= t
    ensures Resolve(payload, path + [Seg(v, i)]) == Some(Kid(v, i))
    ensures var st := StateAt(env, scope, byPath, v, j, path, vault, i);
            && Steady(env.vault, st, scope, t) && Faithful(st, decode)
            && end == Run(env.vault, Walk(env, scope, byPath, Kid(v, i), path + [Seg(v, i)], st).1, rest)
    decreases i - j
  {
    var vault';
    vault', rest := WalkOneKid(env, scope, byPath, payload, v, j, path, vault, later, t, decode, end);
    if j < i {
      StateAtNext(env, scope, byPath, v, j, path, vault, i, vault');
      rest := ReachKid(env, scope, byPath, payload, v, j + 1, path, vault', later, t, decode, end, i);
    }
  }

  lemma StateAtNext(
    env: MaskEnv, scope: string, byPath: ByPath, v: Json, j: nat, path: Path, vault: State, i: nat, vault': State)
    requires j < i <= Count(v) && vault' == Walk(env, scope, byPath, Kid(v, j), path + [Seg(v, j)], vault).1
    ensures StateAt(env, scope, byPath, v, j, path, vault, i) == StateAt(env, scope, byPath, v, j + 1, path, vault', i)
  {
  }

  /** The walk renders every string under any later state of the vault within the window. */
  lemma {:induction false} WalkRenders(
    env: MaskEnv, scope: string, byPath: ByPath, payload: Json, v: Json, path: Path, vault: State, later: seq<Step>,
    t: int, decode: string -> string, end: State)
    requires Maskable(byPath, payload, decode) && Resolve(payload, path) == Some(v)
    requires Monotone(env.vault.clock) && Steady(env.vault, vault, scope, t) && Faithful(vault, decode)
    requires end == Run(env.vault, Walk(env, scope, byPath, v, path, vault).1, later) && Now(env.vault, end) <= t
    ensures Walk(env, scope, byPath, v, path, vault).0 == Ok(AtStrings(v, path, MaskRule(env, end, scope, byPath)))
    decreases v, 1
  {
    if v.JStr? {
      var entries := Lookup(byPath, path);
      if entries != [] { MaskRendered(env, vault, scope, v.s, entries, later, t, decode); }
    } else {
      WalkSucceeds(env, scope, byPath, payload, v, path, vault);
      var kids, g := WalkKids(env, scope, byPath, v, 0, path, vault).0.value, MaskRule(env, end, scope, byPath);
      forall i: nat | i < Count(v) ensures kids[i] == KidsAtStrings(v, 0, path, g)[i] {
        KidRenders(env, scope, byPath, payload, v, path, vault, later, t, decode, end, i);
        KidAtStrings(v, 0, path, g, i);
      }
      assert kids == KidsAtStrings(v, 0, path, g);
    }
  }

  lemma {:induction false} KidRenders(
    env: MaskEnv, scope: string, byPath: ByPath, payload: Json, v: Json, path: Path, vault: State, later: seq<Step>,
    t: int, decode: string -> string, end: State, i: nat)
    requires Maskable(byPath, payload, decode) && Resolve(payload, path) == Some(v) && i < Count(v)
    requires Monotone(env.vault.clock) && Steady(env.vault, vault, scope, t) && Faithful(vault, decode)
    requires end == Run(env.vault, WalkKids(env, scope, byPath, v, 0, path, vault).1, later) && Now(env.vault, end) <= t
    requires WalkKids(env, scope, byPath, v, 0, path, vault).0.Ok?
    ensures WalkKids(env, scope, byPath, v, 0, path, vault).0.value[i]
         == AtStrings(Kid(v, i), path + [Seg(v, i)], MaskRule(env, end, scope, byPath))
    decreases v, 0
  {
    var st := StateAt(env, scope, byPath, v, 0, path, vault, i);
    var rest := ReachKid(env, scope, byPath, payload, v, 0, path, vault, later, t, decode, end, i);
    KidWalked(env, scope, byPath, v, 0, path, vault, i);
    WalkRenders(env, scope, byPath, payload, Kid(v, i), path + [Seg(v, i)], st, rest, t, decode, end);
  }

  // ---- the walk is a rewriting at the extracted locations ----

  lemma SameKidsAs(v: Json, w: Json, x: Json)
    requires SameKind(v, w) && SameKind(v, x) && !IsLeaf(v)
    requires forall i :: 0 <= i < Count(v) ==> Kid(w, i) == Kid(x, i)
    ensures w == x
  {
    KindSymmetric(v, w);
    KindTransitive(w, v, x);
    SameKids(w, x);
  }

  lemma AtStringsSameKind(v: Json, path: Path, g: Rule)
    ensures SameKind(v, AtStrings(v, path, g))
    ensures forall i :: 0 <= i < Count(v) ==>
              Kid(AtStrings(v, path, g), i) == AtStrings(Kid(v, i), path + [Seg(v, i)], g)
  {
    forall i | 0 <= i < Count(v) ensures Kid(AtStrings(v, path, g), i) == AtStrings(Kid(v, i), path + [Seg(v, i)], g) {
      KidAtStrings(v, 0, path, g, i);
    }
  }

  /** The rule changes text only at listed locations of `v`, as far as paths below `path` go. */
  ghost predicate OnlyListed(locations: seq<TextLocation>, path: Path, g: Rule) {
    forall p, s :: path <= p && !Listed(locations, p) ==> g(p, s) == s
  }

  lemma {:induction false} NothingListed(v: Json, path: Path, g: Rule)
    requires OnlyListed([], path, g)
    ensures AtStrings(v, path, g) == v
    decreases v
  {
    if v.JStr? {
      assert !Listed([], path);
    } else {
      AtStringsSameKind(v, path, g);
      WithKids(v);
      forall i | 0 <= i < Count(v) ensures Kid(AtStrings(v, path, g), i) == Kid(v, i) {
        forall p, s | path + [Seg(v, i)] <= p && !Listed([], p) ensures g(p, s) == s { Below(path, Seg(v, i), p); }
        NothingListed(Kid(v, i), path + [Seg(v, i)], g);
      }
      if !IsLeaf(v) {
        KindReflexive(v);
        SameKidsAs(v, AtStrings(v, path, g), v);
      }
    }
  }

  lemma Below(path: Path, s: Segment, p: Path)
    requires path + [s] <= p
    ensures path <= p
  {
    assert path == (path + [s])[..|path|] == p[..|path|];
  }

  lemma {:induction false} AtStringsIsRewrite(shape: Shape, v: Json, path: Path, g: Rule)
    requires WellFormed(v) && OnlyListed(Locations(shape, v, path), path, g)
    ensures AtStrings(v, path, g) == Rewritten(shape, v, path, g)
    decreases v
  {
    if v.JStr? {
      if !Collects(shape) { assert !Listed(Locations(shape, v, path), path); }
    } else if IsLeaf(v) {
      WithKids(v);
      RewrittenSameKind(shape, v, path, g);
      assert AtStrings(v, path, g) == v;
    } else {
      var plan := Plan(shape, v);
      PlanInRange(shape, v);
      PlanDistinct(shape, v);
      AtStringsSameKind(v, path, g);
      RewrittenSameKind(shape, v, path, g);
      forall i | 0 <= i < Count(v) ensures Kid(AtStrings(v, path, g), i) == Kid(Rewritten(shape, v, path, g), i) {
        KidOfRewritten(shape, v, path, g, i);
        if Planned(plan, i) {
          var k :| 0 <= k < |plan| && plan[k].index == i;
          PlannedBelow(shape, v, path, g, k);
          AtStringsIsRewrite(plan[k].shape, Kid(v, i), path + [Seg(v, i)], g);
        } else {
          UnplannedBelow(shape, v, path, g, i);
          NothingListed(Kid(v, i), path + [Seg(v, i)], g);
        }
      }
      SameKidsAs(v, AtStrings(v, path, g), Rewritten(shape, v, path, g));
    }
  }

  /** Below a planned child, what is no location of that child in its role is no location at all. */
  lemma NotListedInRole(plan: seq<Visit>, v: Json, path: Path, k: nat, p: Path)
    requires WellFormed(v) && InRange(plan, v) && IndicesDistinct(plan) && k < |plan|
    requires path + [Seg(v, plan[k].index)] <= p
    requires !Listed(Locations(plan[k].shape, Kid(v, plan[k].index), path + [Seg(v, plan[k].index)]), p)
    ensures !Listed(LocationsOver(plan, v, path), p)
  {
    ListedBelow(plan, v, path, plan[k].index, p);
  }

  lemma PlannedBelow(shape: Shape, v: Json, path: Path, g: Rule, k: nat)
    requires WellFormed(v) && !v.JStr? && OnlyListed(Locations(shape, v, path), path, g) && k < |Plan(shape, v)|
    ensures Plan(shape, v)[k].index < Count(v)
    ensures var visit := Plan(shape, v)[k];
            var below := path + [Seg(v, visit.index)];
            OnlyListed(Locations(visit.shape, Kid(v, visit.index), below), below, g)
  {
    PlanInRange(shape, v);
    PlanDistinct(shape, v);
    var plan := Plan(shape, v);
    var i := plan[k].index;
    var below := path + [Seg(v, i)];
    forall p, s | below <= p && !Listed(Locations(plan[k].shape, Kid(v, i), below), p) ensures g(p, s) == s {
      Below(path, Seg(v, i), p);
      NotListedInRole(plan, v, path, k, p);
    }
  }

  lemma UnplannedBelow(shape: Shape, v: Json, path: Path, g: Rule, i: nat)
    requires WellFormed(v) && !v.JStr? && OnlyListed(Locations(shape, v, path), path, g)
    requires i < Count(v) && !Planned(Plan(shape, v), i)
    ensures OnlyListed([], path + [Seg(v, i)], g)
  {
    PlanInRange(shape, v);
    PlanDistinct(shape, v);
    var plan := Plan(shape, v);
    forall p, s | path + [Seg(v, i)] <= p && !Listed([], p) ensures g(p, s) == s {
      Below(path, Seg(v, i), p);
      ListedBelow(plan, v, path, i, p);
      assert !Listed(LocationsOver(plan, v, path), p);
    }
  }

  /**
   The masked request is the request with each located text masked, and nothing else changed; surrogates are those of
   the vault afterwards, whatever order the walk took.
   */
  lemma MaskedPayload(
    env: MaskEnv, byPath: ByPath, payload: Json, scope: string, vault: State, later: seq<Step>, t: int,
    decode: string -> string)
    requires Maskable(byPath, payload, decode)
    requires forall p :: Lookup(byPath, p) != [] ==> Listed(Extracted(payload), p)
    requires Monotone(env.vault.clock) && Steady(env.vault, vault, scope, t) && Faithful(vault, decode)
    requires Now(env.vault, Run(env.vault, Walk(env, scope, byPath, payload, [], vault).1, later)) <= t
    ensures var (result, vault') := Walk(env, scope, byPath, payload, [], vault);
            result == Ok(Rewritten(Payload, payload, [], MaskRule(env, Run(env.vault, vault', later), scope, byPath)))
  {
    var vault' := Walk(env, scope, byPath, payload, [], vault).1;
    var g := MaskRule(env, Run(env.vault, vault', later), scope, byPath);
    WalkRenders(env, scope, byPath, payload, payload, [], vault, later, t, decode,
                Run(env.vault, Walk(env, scope, byPath, payload, [], vault).1, later));
    forall p, s | [] <= p && !Listed(Extracted(payload), p) ensures g(p, s) == s {
      assert Lookup(byPath, p) == [];
    }
    AtStringsIsRewrite(Payload, payload, [], g);
  }

  /** The text the walk puts at a string that it reaches in the state `st`. */
  function LeafText(env: MaskEnv, st: State, scope: string, entries: Entries, text: string): string {
    if entries == [] then text
    else
      match Masked(env, st, scope, text, FindingsOf(entries), ModesOf(entries)).0
      case Ok(masked) => masked.text
      case Err(_) => text
  }

  /** The rule of one walk: each string is masked in the state the walk is in when it comes to it. */
  function WalkRule(env: MaskEnv, scope: string, byPath: ByPath, payload: Json, vault: State): Rule {
    (p, s) => LeafText(env, StateOf(env, scope, byPath, payload, [], vault, p), scope, Lookup(byPath, p), s)
  }

  /** Below `path` the rule says what the walk of `v` does at its strings. */
  ghost predicate FollowsWalk(env: MaskEnv, scope: string, byPath: ByPath, v: Json, path: Path, vault: State, g: Rule) {
    forall rel :: Resolve(v, rel).Some? && Resolve(v, rel).value.JStr? ==>
      var text := Resolve(v, rel).value.s;
      g(path + rel, text) == LeafText(env, StateOf(env, scope, byPath, v, path, vault, rel), scope,
                                      Lookup(byPath, path + rel), text)
  }

  lemma KidFollows(env: MaskEnv, scope: string, byPath: ByPath, v: Json, path: Path, vault: State, g: Rule, i: nat)
    requires WellFormed(v) && i < Count(v) && FollowsWalk(env, scope, byPath, v, path, vault, g)
    ensures FollowsWalk(env, scope, byPath, Kid(v, i), path + [Seg(v, i)],
                        StateAt(env, scope, byPath, v, 0, path, vault, i), g)
  {
    var kid, below, st := Kid(v, i), path + [Seg(v, i)], StateAt(env, scope, byPath, v, 0, path, vault, i);
    ChildIs(v, i);
    forall rel | Resolve(kid, rel).Some? && Resolve(kid, rel).value.JStr?
      ensures g(below + rel, Resolve(kid, rel).value.s)
           == LeafText(env, StateOf(env, scope, byPath, kid, below, st, rel), scope, Lookup(byPath, below + rel),
                       Resolve(kid, rel).value.s)
    {
      var longer := [Seg(v, i)] + rel;
      assert longer[0] == Seg(v, i) && longer[1..] == rel && path + longer == below + rel;
      assert Resolve(v, longer) == Resolve(kid, rel);
    }
  }

  /** A successful walk puts at each string what its rule says and changes nothing else. */
  lemma {:induction false} WalkIsAtStrings(
    env: MaskEnv, scope: string, byPath: ByPath, v: Json, path: Path, vault: State, g: Rule)
    requires WellFormed(v) && Walk(env, scope, byPath, v, path, vault).0.Ok?
    requires FollowsWalk(env, scope, byPath, v, path, vault, g)
    ensures Walk(env, scope, byPath, v, path, vault).0.value == AtStrings(v, path, g)
    decreases v, 1
  {
    if v.JStr? {
      assert Resolve(v, []) == Some(v) && path + [] == path;
    } else {
      var kids := WalkKids(env, scope, byPath, v, 0, path, vault).0.value;
      forall i: nat | i < Count(v) ensures kids[i] == KidsAtStrings(v, 0, path, g)[i] {
        KidIsAtStrings(env, scope, byPath, v, path, vault, g, i);
      }
      assert kids == KidsAtStrings(v, 0, path, g);
    }
  }

  lemma {:induction false} KidIsAtStrings(
    env: MaskEnv, scope: string, byPath: ByPath, v: Json, path: Path, vault: State, g: Rule, i: nat)
    requires WellFormed(v) && i < Count(v) && WalkKids(env, scope, byPath, v, 0, path, vault).0.Ok?
    requires FollowsWalk(env, scope, byPath, v, path, vault, g)
    ensures WalkKids(env, scope, byPath, v, 0, path, vault).0.value[i] == KidsAtStrings(v, 0, path, g)[i]
    decreases v, 0
  {
    var st := StateAt(env, scope, byPath, v, 0, path, vault, i);
    KidWalked(env, scope, byPath, v, 0, path, vault, i);
    KidFollows(env, scope, byPath, v, path, vault, g, i);
    WalkIsAtStrings(env, scope, byPath, Kid(v, i), path + [Seg(v, i)], st, g);
    KidAtStrings(v, 0, path, g, i);
  }

  /** Every successful walk is the path-by-path replacement at the extracted locations, by the rule of the walk. */
  lemma WalkIsRewriting(env: MaskEnv, scope: string, byPath: ByPath, payload: Json, vault: State)
    requires WellFormed(payload) && Walk(env, scope, byPath, payload, [], vault).0.Ok?
    requires forall p :: Lookup(byPath, p) != [] ==> Listed(Extracted(payload), p)
    ensures Walk(env, scope, byPath, payload, [], vault).0.value
         == Rewritten(Payload, payload, [], WalkRule(env, scope, byPath, payload, vault))
  {
    var g := WalkRule(env, scope, byPath, payload, vault);
    forall rel: Path ensures [] + rel == rel {}
    WalkIsAtStrings(env, scope, byPath, payload, [], vault, g);
    forall p, s | [] <= p && !Listed(Extracted(payload), p) ensures g(p, s) == s {
      assert Lookup(byPath, p) == [];
    }
    AtStringsIsRewrite(Payload, payload, [], g);
  }

  /**
   Whatever was detected: a request that is not blocked is masked at its locations, each string as the walk finds it.
   */
  lemma RequestIsMasked(
    env: MaskEnv, detectors: seq<Detector>, hash: string -> string, ruleset: Policy.RuleSet, payload: Json,
    masking: MaskingContext, caller: Caller, byPath: ByPath, vault: State)
    requires WellFormed(payload)
    requires var ctx := ContextFor(detectors, hash, ruleset, payload, masking, caller, false);
             !HasBlock(ctx) && Groups(byPath, ctx.findings, ctx.decisions)
    ensures Walk(env, masking.ScopeId(), byPath, payload, [], vault).0
         == Ok(Rewritten(Payload, payload, [], WalkRule(env, masking.ScopeId(), byPath, payload, vault)))
  {
    DetectedIsSound(detectors, hash, ruleset, payload, masking, caller, byPath);
    WalkSucceeds(env, masking.ScopeId(), byPath, payload, payload, [], vault);
    WalkIsRewriting(env, masking.ScopeId(), byPath, payload, vault);
  }

  // ---- the round trip ----

  /** At every location the masked text and the map meet the conditions under which restoration is exact. */
  ghost predicate RestorableEverywhere(
    env: MaskEnv, st: State, scope: string, byPath: ByPath, payload: Json, m: seq<Entry>) {
    forall i :: 0 <= i < |Extracted(payload)| ==>
      var location := Extracted(payload)[i];
      var findings, modes := FindingsOf(Lookup(byPath, location.path)), ModesOf(Lookup(byPath, location.path));
      Placed(findings, |location.text|) ==>
        var reps := RepsFrom(env, st, scope, location.text, findings, modes);
        Restorable(location.text, findings, modes, reps, m)
  }

  /** Surrogates occur in each masked string only inside replaced spans. */
  ghost predicate InsideEverywhere(
    env: MaskEnv, st: State, scope: string, byPath: ByPath, payload: Json, m: seq<Entry>) {
    forall i :: 0 <= i < |Extracted(payload)| ==>
      var location := Extracted(payload)[i];
      var findings, modes := FindingsOf(Lookup(byPath, location.path)), ModesOf(Lookup(byPath, location.path));
      Placed(findings, |location.text|) ==>
        var reps := RepsFrom(env, st, scope, location.text, findings, modes);
        OnlyInside(Woven(location.text, findings, reps), findings, modes, reps, m)
  }

  ghost predicate ReversibleEverywhere(byPath: ByPath, payload: Json) {
    forall i :: 0 <= i < |Extracted(payload)| ==>
      var entries := Lookup(byPath, Extracted(payload)[i].path);
      Reversible(FindingsOf(entries), ModesOf(entries))
  }

  /** One location: the map undoes every replacement. */
  lemma RenderedUndone(env: MaskEnv, st: State, scope: string, entries: Entries, text: string, m: seq<Entry>, t: int,
                       decode: string -> string)
    requires Sound(entries, text) && FaithfulFindings(FindingsOf(entries), text, decode)
    requires var findings, modes := FindingsOf(entries), ModesOf(entries);
             && Reversible(findings, modes)
             && AllRemembered(scope, findings, modes, 0, RepsFrom(env, st, scope, text, findings, modes), st, t)
    requires Monotone(env.vault.clock) && Coherent(env.vault, st) && IsReverseMap(env.vault, st, scope, m)
    requires Faithful(st, decode) && SurrogatesDistinct(env.vault, st, scope)
    requires Now(env.vault, AfterReverse(env.vault, st, scope)) <= t
    ensures var findings, modes := FindingsOf(entries), ModesOf(entries);
            DistinctKeys(m) && Undone(text, findings, modes, RepsFrom(env, st, scope, text, findings, modes), m)
  {
    var findings, modes := FindingsOf(entries), ModesOf(entries);
    var reps := RepsFrom(env, st, scope, text, findings, modes);
    forall i | 0 <= i < |findings| ensures PureReplacement(env, text, findings, modes, i, reps[i]) {
      assert reps[i] == RepFrom(env, st, scope, text, findings, modes, i);
    }
    RememberedIsUndone(env, st, scope, text, findings, modes, reps, m, t, decode);
  }

  /** Rendering is the weaving, with or without findings. */
  lemma RenderedIsWoven(env: MaskEnv, st: State, scope: string, entries: Entries, text: string)
    requires Placed(FindingsOf(entries), |text|)
    ensures var findings, modes := FindingsOf(entries), ModesOf(entries);
            var reps := RepsFrom(env, st, scope, text, findings, modes);
            Rendered(env, st, scope, entries, text) == Woven(text, findings, reps)
  {
    if entries == [] {
      assert FindingsOf([]) == [];
    }
  }

  ghost predicate RememberedAt(env: MaskEnv, st: State, scope: string, entries: Entries, text: string, t: int) {
    Placed(FindingsOf(entries), |text|) ==>
      AllRemembered(scope, FindingsOf(entries), ModesOf(entries), 0,
                    RepsFrom(env, st, scope, text, FindingsOf(entries), ModesOf(entries)), st, t)
  }

  /** After the walk, the vault remembers every pseudonymized finding of every location. */
  lemma {:induction false} WalkRemembers(
    env: MaskEnv, scope: string, byPath: ByPath, payload: Json, v: Json, path: Path, vault: State, later: seq<Step>,
    t: int, decode: string -> string, rel: Path, end: State)
    requires Maskable(byPath, payload, decode) && Resolve(payload, path) == Some(v)
    requires Monotone(env.vault.clock) && Steady(env.vault, vault, scope, t) && Faithful(vault, decode)
    requires end == Run(env.vault, Walk(env, scope, byPath, v, path, vault).1, later) && Now(env.vault, end) <= t
    requires Resolve(v, rel).Some? && Resolve(v, rel).value.JStr? && Lookup(byPath, path + rel) != []
    ensures RememberedAt(env, end, scope, Lookup(byPath, path + rel), Resolve(v, rel).value.s, t)
    decreases |rel|
  {
    if rel == [] {
      assert path + rel == path;
      MaskRendered(env, vault, scope, v.s, Lookup(byPath, path), later, t, decode);
    } else {
      var i := Child(v, rel[0]).value;
      assert path + rel == path + [Seg(v, i)] + rel[1..];
      var st := StateAt(env, scope, byPath, v, 0, path, vault, i);
      var rest := ReachKid(env, scope, byPath, payload, v, 0, path, vault, later, t, decode, end, i);
      WalkRemembers(env, scope, byPath, payload, Kid(v, i), path + [Seg(v, i)], st, rest, t, decode, rel[1..], end);
    }
  }

  /**
   A walk over a request, then other requests that use the vault; the reverse map is read in the state `end`.
   */
  ghost predicate Cycle(env: MaskEnv, byPath: ByPath, payload: Json, scope: string, vault: State, later: seq<Step>,
                        end: State, m: seq<Entry>, decode: string -> string) {
    && Maskable(byPath, payload, decode) && ReversibleEverywhere(byPath, payload)
    && (forall p :: Lookup(byPath, p) != [] ==> Listed(Extracted(payload), p))
    && Monotone(env.vault.clock) && Coherent(env.vault, vault) && Faithful(vault, decode)
    && end == Run(env.vault, Walk(env, scope, byPath, payload, [], vault).1, later) && FaithfulRequests(later, decode)
    && ReadBack(env.vault, vault, end, scope, m)
  }

  /** The vault keeps its two indices in step and its hashes faithful up to the end of a cycle. */
  lemma CycleVault(env: MaskEnv, byPath: ByPath, payload: Json, scope: string, vault: State, later: seq<Step>,
                   end: State, m: seq<Entry>, decode: string -> string)
    requires Cycle(env, byPath, payload, scope, vault, later, end, m, decode)
    ensures Coherent(env.vault, end) && Faithful(end, decode)
    ensures Now(env.vault, end) <= Now(env.vault, AfterReverse(env.vault, end, scope))
  {
    var vault' := Walk(env, scope, byPath, payload, [], vault).1;
    var t := Now(env.vault, AfterReverse(env.vault, end, scope));
    var steps := WalkIsRun(env, scope, byPath, payload, payload, [], vault, decode);
    RunAdvances(env.vault, vault', later);
    RunCoherent(env.vault, vault, steps);
    RunSteady(env.vault, vault, steps, scope, t, decode);
    RunCoherent(env.vault, vault', later);
    RunFaithful(env.vault, vault', later, decode);
  }

  /** At each location the reverse map undoes what the walk put there. */
  lemma LocationUndone(env: MaskEnv, byPath: ByPath, payload: Json, scope: string, vault: State, later: seq<Step>,
                       end: State, m: seq<Entry>, decode: string -> string, i: nat)
    requires Cycle(env, byPath, payload, scope, vault, later, end, m, decode) && i < |Extracted(payload)|
    ensures var location := Extracted(payload)[i];
            var findings, modes := FindingsOf(Lookup(byPath, location.path)), ModesOf(Lookup(byPath, location.path));
            Placed(findings, |location.text|) && DistinctKeys(m)
            && Undone(location.text, findings, modes, RepsFrom(env, end, scope, location.text, findings, modes), m)
  {
    var location := Extracted(payload)[i];
    var entries := Lookup(byPath, location.path);
    var t := Now(env.vault, AfterReverse(env.vault, end, scope));
    CycleVault(env, byPath, payload, scope, vault, later, end, m, decode);
    LocationsResolve(Payload, payload, []);
    assert Holds(payload, 0, location);
    assert location.path[0..] == location.path && [] + location.path == location.path;
    if entries != [] {
      WalkRemembers(env, scope, byPath, payload, payload, [], vault, later, t, decode, location.path, end);
    } else {
      assert FindingsOf(entries) == [];
    }
    RenderedUndone(env, end, scope, entries, location.text, m, t, decode);
  }

  /**
   Mask a request, let other requests use the vault, then restore it from the scope's reverse map: the request comes
   back, if everything found is allowed or pseudonymized, nothing of the scope expires before the map is read, hashes
   stand for one text each, the scope's surrogates are distinct, and at each stage of the restoration of each string
   the next surrogate occurs only where it was put.
   */
  lemma PayloadComesBack(env: MaskEnv, byPath: ByPath, payload: Json, scope: string, vault: State, later: seq<Step>,
                         end: State, m: seq<Entry>, decode: string -> string)
    requires Cycle(env, byPath, payload, scope, vault, later, end, m, decode)
    requires RestorableEverywhere(env, end, scope, byPath, payload, m)
    ensures var result := Walk(env, scope, byPath, payload, [], vault).0;
            result.Ok? && Replaced(result.value, (text: string) => Restored(text, m)) == payload
  {
    var result := Walk(env, scope, byPath, payload, [], vault).0;
    var t := Now(env.vault, AfterReverse(env.vault, end, scope));
    var g := MaskRule(env, end, scope, byPath);
    var f := (text: string) => Restored(text, m);
    CycleVault(env, byPath, payload, scope, vault, later, end, m, decode);
    MaskedPayload(env, byPath, payload, scope, vault, later, t, decode);
    var locations := Extracted(payload);
    forall i | 0 <= i < |locations|
      ensures Then(g, Ignoring(f))(locations[i].path, locations[i].text)
           == Unchanged()(locations[i].path, locations[i].text)
    {
      LocationComesBack(env, byPath, payload, scope, vault, later, end, m, decode, i);
    }
    RewriteUndone(Payload, payload, [], g, Ignoring(f));
  }

  lemma LocationComesBack(env: MaskEnv, byPath: ByPath, payload: Json, scope: string, vault: State, later: seq<Step>,
                          end: State, m: seq<Entry>, decode: string -> string, i: nat)
    requires Cycle(env, byPath, payload, scope, vault, later, end, m, decode) && i < |Extracted(payload)|
    requires RestorableEverywhere(env, end, scope, byPath, payload, m)
    ensures var location := Extracted(payload)[i];
            Restored(Rendered(env, end, scope, Lookup(byPath, location.path), location.text), m) == location.text
  {
    var location := Extracted(payload)[i];
    var entries := Lookup(byPath, location.path);
    var findings, modes := FindingsOf(entries), ModesOf(entries);
    LocationUndone(env, byPath, payload, scope, vault, later, end, m, decode, i);
    RenderedIsWoven(env, end, scope, entries, location.text);
    RestoresMasked(location.text, findings, modes, RepsFrom(env, end, scope, location.text, findings, modes), m);
  }

  /** With inert originals it is enough that surrogates occur only inside replaced spans. */
  lemma InertEverywhere(env: MaskEnv, byPath: ByPath, payload: Json, scope: string, vault: State, later: seq<Step>,
                        end: State, m: seq<Entry>, decode: string -> string)
    requires Cycle(env, byPath, payload, scope, vault, later, end, m, decode)
    requires InsideEverywhere(env, end, scope, byPath, payload, m) && OriginalsInert(Order(m))
    ensures RestorableEverywhere(env, end, scope, byPath, payload, m)
  {
    forall i | 0 <= i < |Extracted(payload)|
      ensures var location := Extracted(payload)[i];
              var findings, modes := FindingsOf(Lookup(byPath, location.path)), ModesOf(Lookup(byPath, location.path));
              Placed(findings, |location.text|) ==>
                Restorable(location.text, findings, modes,
                           RepsFrom(env, end, scope, location.text, findings, modes), m)
    {
      var location := Extracted(payload)[i];
      var findings, modes := FindingsOf(Lookup(byPath, location.path)), ModesOf(Lookup(byPath, location.path));
      LocationUndone(env, byPath, payload, scope, vault, later, end, m, decode, i);
      InertIsRestorable(location.text, findings, modes, RepsFrom(env, end, scope, location.text, findings, modes), m);
    }
  }

  // ---- a detected request ----

  /** Every detected value is the one its hash stands for: the hash has no collision among the values involved. */
  ghost predicate HashNames(detectors: seq<Detector>, hash: string -> string, payload: Json, decode: string -> string) {
    forall i :: 0 <= i < |Extracted(payload)| ==>
      FaithfulFindings(Detected(detectors, hash, Extracted(payload)[i].text), Extracted(payload)[i].text, decode)
  }

  ghost predicate OnlyReversible(ctx: GatewayRequestContext) {
    forall i :: 0 <= i < |ctx.decisions| ==>
      ctx.decisions[i].decision.action.Allow? || ctx.decisions[i].decision.action.Pseudonymize?
  }

  lemma DetectedIsMaskable(detectors: seq<Detector>, hash: string -> string, ruleset: Policy.RuleSet, payload: Json,
                           masking: MaskingContext, caller: Caller, byPath: ByPath, decode: string -> string)
    requires WellFormed(payload) && HashNames(detectors, hash, payload, decode)
    requires var ctx := ContextFor(detectors, hash, ruleset, payload, masking, caller, false);
             OnlyReversible(ctx) && Groups(byPath, ctx.findings, ctx.decisions)
    ensures Maskable(byPath, payload, decode) && ReversibleEverywhere(byPath, payload)
    ensures forall p :: Lookup(byPath, p) != [] ==> Listed(Extracted(payload), p)
  {
    var ctx := ContextFor(detectors, hash, ruleset, payload, masking, caller, false);
    var locations := Extracted(payload);
    DetectedIsSound(detectors, hash, ruleset, payload, masking, caller, byPath);
    LocationsResolve(Payload, payload, []);
    forall p | Lookup(byPath, p) != []
      ensures Resolve(payload, p).Some? && Resolve(payload, p).value.JStr?
      ensures FaithfulFindings(FindingsOf(Lookup(byPath, p)), Resolve(payload, p).value.s, decode)
    {
      var i :| 0 <= i < |locations| && locations[i].path == p;
      assert Holds(payload, 0, locations[i]) && p[0..] == p;
      DetectedEntries(detectors, hash, locations[i].text, ruleset, caller);
    }
    forall i | 0 <= i < |locations|
      ensures Reversible(FindingsOf(Lookup(byPath, locations[i].path)), ModesOf(Lookup(byPath, locations[i].path)))
    {
      DetectedReversible(detectors, hash, ruleset, payload, masking, caller, byPath, i);
    }
  }

  lemma DetectedReversible(detectors: seq<Detector>, hash: string -> string, ruleset: Policy.RuleSet, payload: Json,
                           masking: MaskingContext, caller: Caller, byPath: ByPath, i: nat)
    requires WellFormed(payload) && i < |Extracted(payload)|
    requires var ctx := ContextFor(detectors, hash, ruleset, payload, masking, caller, false);
             OnlyReversible(ctx) && Groups(byPath, ctx.findings, ctx.decisions)
    ensures var entries := Lookup(byPath, Extracted(payload)[i].path); Reversible(FindingsOf(entries), ModesOf(entries))
  {
    var ctx := ContextFor(detectors, hash, ruleset, payload, masking, caller, false);
    var location := Extracted(payload)[i];
    var found := Detected(detectors, hash, location.text);
    DetectedIsSound(detectors, hash, ruleset, payload, masking, caller, byPath);
    DetectedEntries(detectors, hash, location.text, ruleset, caller);
    AllReversibleAt(ctx, location.path, found, EntriesFor(found, ruleset, caller));
  }

  lemma AllReversibleAt(ctx: GatewayRequestContext, p: Path, found: seq<Finding>, entries: Entries)
    requires |ctx.findings| == |ctx.decisions| && OnlyReversible(ctx)
    requires entries == EntriesAt(ctx.findings, ctx.decisions, p)
    requires FindingsOf(entries) == found && |entries| == |found|
    requires forall k :: 0 <= k < |found| ==> ModeOf(ModesOf(entries), found[k]) == entries[k].1
    ensures Reversible(FindingsOf(entries), ModesOf(entries))
  {
    forall k | 0 <= k < |found|
      ensures ModeOf(ModesOf(entries), found[k]).Allow? || ModeOf(ModesOf(entries), found[k]).Pseudonymize?
    {
      ReversibleAt(ctx, p, entries[k]);
    }
  }

  lemma ReversibleAt(ctx: GatewayRequestContext, p: Path, e: (Finding, Mode))
    requires |ctx.findings| == |ctx.decisions| && OnlyReversible(ctx) && e in EntriesAt(ctx.findings, ctx.decisions, p)
    ensures e.1.Allow? || e.1.Pseudonymize?
  {
    ModeFromDecision(ctx.findings, ctx.decisions, p, e);
  }

  /** A request outside shadow mode whose decisions are all "allow" or "pseudonymize", up to its restoration. */
  ghost predicate RequestCycle(
    env: MaskEnv, hash: string -> string, payload: Json, ctx: GatewayRequestContext, detectors: seq<Detector>,
    vault: State, result: Result<Json, PipelineError>, vault': State, later: seq<Step>, m: seq<Entry>,
    decode: string -> string) {
    && WellFormed(payload) && HashNames(detectors, hash, payload, decode) && OnlyReversible(ctx)
    && MaskOutcome(env, payload, ctx, vault, result, vault')
    && Monotone(env.vault.clock) && Coherent(env.vault, vault) && Faithful(vault, decode)
    && FaithfulRequests(later, decode)
    && ReadBack(env.vault, vault, Run(env.vault, vault', later), ctx.maskingContext.ScopeId(), m)
  }

  /** Such a request is walked over, and the walk begins a cycle. */
  lemma RequestWalked(
    env: MaskEnv, detectors: seq<Detector>, hash: string -> string, ruleset: Policy.RuleSet, payload: Json,
    masking: MaskingContext, caller: Caller, vault: State, result: Result<Json, PipelineError>, vault': State,
    later: seq<Step>, m: seq<Entry>, decode: string -> string) returns (byPath: ByPath)
    requires var ctx := ContextFor(detectors, hash, ruleset, payload, masking, caller, false);
             RequestCycle(env, hash, payload, ctx, detectors, vault, result, vault', later, m, decode)
    ensures var ctx, scope := ContextFor(detectors, hash, ruleset, payload, masking, caller, false), masking.ScopeId();
            var end := Run(env.vault, vault', later);
            && Groups(byPath, ctx.findings, ctx.decisions)
            && Cycle(env, byPath, payload, scope, vault, later, end, m, decode)
            && result == Checked(Walk(env, scope, byPath, payload, [], vault).0)
  {
    var ctx, scope := ContextFor(detectors, hash, ruleset, payload, masking, caller, false), masking.ScopeId();
    byPath :| Groups(byPath, ctx.findings, ctx.decisions)
      && var walked := Walk(env, scope, byPath, payload, [], vault); vault' == walked.1 && result == Checked(walked.0);
    DetectedIsMaskable(detectors, hash, ruleset, payload, masking, caller, byPath, decode);
  }

  /**
   The whole cycle for a request outside shadow mode whose decisions are all "allow" or "pseudonymize": whatever the
   detectors found, and whatever other requests did in the vault meanwhile, `mask` returns a payload, and restoring it
   with the scope's reverse map returns the request.
   */
  lemma RequestRoundTrip(
    env: MaskEnv, detectors: seq<Detector>, hash: string -> string, ruleset: Policy.RuleSet, payload: Json,
    masking: MaskingContext, caller: Caller, vault: State, result: Result<Json, PipelineError>, vault': State,
    later: seq<Step>, m: seq<Entry>, decode: string -> string)
    requires var ctx := ContextFor(detectors, hash, ruleset, payload, masking, caller, false);
             && RequestCycle(env, hash, payload, ctx, detectors, vault, result, vault', later, m, decode)
             && forall byPath :: Groups(byPath, ctx.findings, ctx.decisions) ==>
                  RestorableEverywhere(env, Run(env.vault, vault', later), masking.ScopeId(), byPath, payload, m)
    ensures if payload.JObj? then result.Ok? && Replaced(result.value, (text: string) => Restored(text, m)) == payload
            else result == Err(PayloadNotObject)
  {
    var scope, end := masking.ScopeId(), Run(env.vault, vault', later);
    var byPath := RequestWalked(env, detectors, hash, ruleset, payload, masking, caller, vault, result, vault', later,
                                m, decode);
    PayloadComesBack(env, byPath, payload, scope, vault, later, end, m, decode);
    WalkKeepsObject(env, scope, byPath, payload, [], vault);
  }

  /** The same when originals are inert and surrogates occur in the masked strings only inside replaced spans. */
  lemma InertRequestRoundTrip(
    env: MaskEnv, detectors: seq<Detector>, hash: string -> string, ruleset: Policy.RuleSet, payload: Json,
    masking: MaskingContext, caller: Caller, vault: State, result: Result<Json, PipelineError>, vault': State,
    later: seq<Step>, m: seq<Entry>, decode: string -> string)
    requires var ctx := ContextFor(detectors, hash, ruleset, payload, masking, caller, false);
             && RequestCycle(env, hash, payload, ctx, detectors, vault, result, vault', later, m, decode)
             && forall byPath :: Groups(byPath, ctx.findings, ctx.decisions) ==>
                  InsideEverywhere(env, Run(env.vault, vault', later), masking.ScopeId(), byPath, payload, m)
    requires OriginalsInert(Order(m))
    ensures if payload.JObj? then result.Ok? && Replaced(result.value, (text: string) => Restored(text, m)) == payload
            else result == Err(PayloadNotObject)
  {
    var scope, end := masking.ScopeId(), Run(env.vault, vault', later);
    var byPath := RequestWalked(env, detectors, hash, ruleset, payload, masking, caller, vault, result, vault', later,
                                m, decode);
    InertEverywhere(env, byPath, payload, scope, vault, later, end, m, decode);
    PayloadComesBack(env, byPath, payload, scope, vault, later, end, m, decode);
    WalkKeepsObject(env, scope, byPath, payload, [], vault);
  }
}
