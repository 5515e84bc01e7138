/**
 What masking one text produces: exactly when it succeeds, where every replacement ends up, and what it is.
 */
module MaskTheorems {
  import opened Text
  import opened Detection
  import opened Vault
  import opened Masking

  /** Where the text after the first `k` findings starts. */
  function EndOf(findings: seq<Finding>, k: nat): int
    requires k <= |findings|
  {
    if k == 0 then 0 else findings[k - 1].end
  }

  // ---- success ----

  /** Each finding starts at or after the end of the one before it and lies in the text. */
  ghost predicate Accepted(findings: seq<Finding>, n: nat) {
    forall k :: 0 <= k < |findings| ==> EndOf(findings, k) <= findings[k].start && findings[k].end <= n
  }

  ghost predicate NoneBlocked(findings: seq<Finding>, modes: Modes) {
    forall k :: 0 <= k < |findings| ==> !ModeOf(modes, findings[k]).Block?
  }

  /** Finding `i` is in place and not blocked. */
  ghost predicate Passes(findings: seq<Finding>, modes: Modes, n: nat, i: nat)
    requires i < |findings|
  {
    EndOf(findings, i) <= findings[i].start && findings[i].end <= n && !ModeOf(modes, findings[i]).Block?
  }

  lemma OnePasses(env: MaskEnv, scope: string, text: string, findings: seq<Finding>, modes: Modes, k: nat, p: Progress)
    requires k < |findings| && p.cursor == EndOf(findings, k)
    ensures var next := MaskOne(env, scope, text, modes, findings[k], p);
            && (next.Going? <==> Passes(findings, modes, |text|, k))
            && (next.Going? ==> next.progress.cursor == EndOf(findings, k + 1))
  {
  }

  lemma {:induction false} SucceedsFrom(
    env: MaskEnv, scope: string, text: string, findings: seq<Finding>, modes: Modes, k: nat, p: Progress)
    requires k <= |findings| && p.cursor == EndOf(findings, k)
    ensures MaskAll(env, scope, text, modes, findings[k..], p).Going? <==>
            forall i :: k <= i < |findings| ==> Passes(findings, modes, |text|, i)
    decreases |findings| - k
  {
    if k < |findings| {
      MaskAllStep(env, scope, text, modes, findings, k, p);
      OnePasses(env, scope, text, findings, modes, k, p);
      var next := MaskOne(env, scope, text, modes, findings[k], p);
      if next.Going? {
        SucceedsFrom(env, scope, text, findings, modes, k + 1, next.progress);
      }
    }
  }

  lemma AllPass(findings: seq<Finding>, modes: Modes, n: nat)
    ensures Accepted(findings, n) && NoneBlocked(findings, modes)
            <==> forall i :: 0 <= i < |findings| ==> Passes(findings, modes, n, i)
  {
    if forall i :: 0 <= i < |findings| ==> Passes(findings, modes, n, i) {
      forall k | 0 <= k < |findings|
        ensures EndOf(findings, k) <= findings[k].start && findings[k].end <= n && !ModeOf(modes, findings[k]).Block?
      {
        assert Passes(findings, modes, n, k);
      }
    }
  }

  /** Masking fails exactly when a finding is out of place or blocked. */
  lemma MaskSucceedsExactly(
    env: MaskEnv, vault: State, scope: string, text: string, findings: seq<Finding>, modes: Modes)
    ensures Masked(env, vault, scope, text, findings, modes).0.Ok?
            <==> Accepted(findings, |text|) && NoneBlocked(findings, modes)
  {
    assert findings[0..] == findings;
    SucceedsFrom(env, scope, text, findings, modes, 0, Start(vault));
    AllPass(findings, modes, |text|);
  }

  // ---- layout ----

  /** The replacements among the output parts, which alternate between gaps and replacements. */
  function Replacements(output: seq<string>): seq<string> {
    seq(|output| / 2, i requires 0 <= i < |output| / 2 => output[2 * i + 1])
  }

  /** The first `k` gaps and replacements. */
  function WovenTo(text: string, findings: seq<Finding>, reps: seq<string>, k: nat): string
    requires k <= |findings| && k <= |reps| && Placed(findings, |text|)
  {
    if k == 0 then ""
    else WovenTo(text, findings, reps, k - 1) + text[EndOf(findings, k - 1)..findings[k - 1].start] + reps[k - 1]
  }

  /** The untouched gaps of the text interleaved with the replacements. */
  function Woven(text: string, findings: seq<Finding>, reps: seq<string>): string
    requires |reps| == |findings| && Placed(findings, |text|)
  {
    WovenTo(text, findings, reps, |findings|) + text[EndOf(findings, |findings|)..]
  }

  /** How much longer the output is than the text after `k` replacements. */
  function Growth(findings: seq<Finding>, reps: seq<string>, k: nat): int
    requires k <= |findings| && k <= |reps|
  {
    if k == 0 then 0
    else Growth(findings, reps, k - 1) + |reps[k - 1]| - (findings[k - 1].end - findings[k - 1].start)
  }

  /** Where replacement `k` starts in the output: its offset in the text plus the growth before it. */
  function SpanStart(findings: seq<Finding>, reps: seq<string>, k: nat): int
    requires k < |findings| && k <= |reps|
  {
    findings[k].start + Growth(findings, reps, k)
  }

  /** The output spans of the pseudonymized and tagged ones among the first `k` findings. */
  function ImmuneTo(findings: seq<Finding>, modes: Modes, reps: seq<string>, k: nat): seq<(int, int)>
    requires k <= |findings| && k <= |reps|
  {
    if k == 0 then []
    else
      var before := ImmuneTo(findings, modes, reps, k - 1);
      if IsImmune(ModeOf(modes, findings[k - 1])) then
        before + [(SpanStart(findings, reps, k - 1), SpanStart(findings, reps, k - 1) + |reps[k - 1]|)]
      else before
  }

  /** How many of the first `k` findings are tagged with this entity type. */
  function TagsTo(findings: seq<Finding>, modes: Modes, entityType: string, k: nat): nat
    requires k <= |findings|
  {
    if k == 0 then 0
    else
      var here := if ModeOf(modes, findings[k - 1]).Tag? && findings[k - 1].entityType == entityType then 1 else 0;
      TagsTo(findings, modes, entityType, k - 1) + here
  }

  /** What replacement `k` is, for the modes that do not consult the vault. */
  ghost predicate PureReplacement(env: MaskEnv, text: string, findings: seq<Finding>, modes: Modes, k: nat, rep: string)
    requires k < |findings| && Placed(findings, |text|)
  {
    var f := findings[k];
    var original := text[f.start..f.end];
    match ModeOf(modes, f)
    case Allow => rep == original
    case Hash => rep == "sha256:" + env.digest(original)
    case Tag => rep == TagText(f.entityType, TagsTo(findings, modes, f.entityType, k) + 1)
    case Pseudonymize => true
    case Block => false
  }

  /** After `k` findings the output and the immune spans are laid out as described. */
  ghost predicate LaidOut(text: string, findings: seq<Finding>, modes: Modes, k: nat, p: Progress)
    requires k <= |findings| && Placed(findings, |text|)
  {
    var reps := Replacements(p.output);
    && |p.output| == 2 * k && p.cursor == EndOf(findings, k)
    && Join(p.output) == WovenTo(text, findings, reps, k)
    && p.immune == ImmuneTo(findings, modes, reps, k)
  }

  ghost predicate Counted(findings: seq<Finding>, modes: Modes, k: nat, p: Progress)
    requires k <= |findings|
  {
    forall t :: Seen(p.counts, t) == TagsTo(findings, modes, t, k)
  }

  ghost predicate Described(env: MaskEnv, text: string, findings: seq<Finding>, modes: Modes, k: nat, p: Progress)
    requires k <= |findings| && Placed(findings, |text|) && |p.output| == 2 * k
  {
    forall i :: 0 <= i < k ==> PureReplacement(env, text, findings, modes, i, Replacements(p.output)[i])
  }

  ghost predicate Laid(env: MaskEnv, text: string, findings: seq<Finding>, modes: Modes, k: nat, p: Progress)
    requires k <= |findings| && Placed(findings, |text|)
  {
    LaidOut(text, findings, modes, k, p) && Counted(findings, modes, k, p)
      && Described(env, text, findings, modes, k, p)
  }

  lemma {:induction false} WovenLength(text: string, findings: seq<Finding>, reps: seq<string>, k: nat)
    requires k <= |findings| && k <= |reps| && Placed(findings, |text|)
    ensures |WovenTo(text, findings, reps, k)| == EndOf(findings, k) + Growth(findings, reps, k)
  {
    if k > 0 { WovenLength(text, findings, reps, k - 1); }
  }

  lemma {:induction false} PrefixOnly(
    text: string, findings: seq<Finding>, modes: Modes, a: seq<string>, b: seq<string>, k: nat)
    requires k <= |findings| && k <= |a| && a <= b && Placed(findings, |text|)
    ensures WovenTo(text, findings, a, k) == WovenTo(text, findings, b, k)
    ensures Growth(findings, a, k) == Growth(findings, b, k)
    ensures ImmuneTo(findings, modes, a, k) == ImmuneTo(findings, modes, b, k)
  {
    if k > 0 {
      PrefixOnly(text, findings, modes, a, b, k - 1);
      assert a[k - 1] == b[k - 1];
    }
  }

  lemma ReplacementsSnoc(output: seq<string>, gap: string, rep: string)
    requires |output| % 2 == 0
    ensures Replacements(output + [gap] + [rep]) == Replacements(output) + [rep]
  {
  }

  lemma SliceInRange(text: string, a: int, b: int)
    requires 0 <= a <= b <= |text|
    ensures Slice(text, a, b) == text[a..b]
  {
  }

  /** What one successful iteration writes. */
  lemma IterationWrites(
    env: MaskEnv, scope: string, text: string, findings: seq<Finding>, modes: Modes, k: nat, p: Progress)
    returns (rep: string, next: Progress)
    requires k < |findings| && Placed(findings, |text|) && p.cursor == EndOf(findings, k)
    requires !ModeOf(modes, findings[k]).Block?
    ensures MaskOne(env, scope, text, modes, findings[k], p) == Going(next)
    ensures var f := findings[k];
            var gap := text[p.cursor..f.start];
            && (rep, next.counts, next.vault)
               == Replacement(env, scope, ModeOf(modes, f), f, text[f.start..f.end], p.counts, p.vault)
            && next.cursor == f.end && next.output == p.output + [gap] + [rep]
            && next.immune == if !IsImmune(ModeOf(modes, f)) then p.immune
                              else p.immune + [(|Join(p.output + [gap])|, |Join(p.output + [gap])| + |rep|)]
  {
    var f := findings[k];
    SliceInRange(text, p.cursor, f.start);
    SliceInRange(text, f.start, f.end);
    next := MaskOne(env, scope, text, modes, f, p).progress;
    rep := next.output[|next.output| - 1];
  }

  lemma LayoutExtends(
    text: string, findings: seq<Finding>, modes: Modes, k: nat, p: Progress, rep: string, next: Progress)
    requires k < |findings| && Placed(findings, |text|) && LaidOut(text, findings, modes, k, p)
    requires var f := findings[k];
            var gap := text[p.cursor..f.start];
            && next.cursor == f.end && next.output == p.output + [gap] + [rep]
            && next.immune == if !IsImmune(ModeOf(modes, f)) then p.immune
                              else p.immune + [(|Join(p.output + [gap])|, |Join(p.output + [gap])| + |rep|)]
    ensures LaidOut(text, findings, modes, k + 1, next) && Replacements(next.output) == Replacements(p.output) + [rep]
  {
    var reps, gap := Replacements(p.output), text[p.cursor..findings[k].start];
    ReplacementsSnoc(p.output, gap, rep);
    JoinSnoc(p.output, gap);
    JoinSnoc(p.output + [gap], rep);
    WovenExtends(text, findings, modes, k, reps, rep);
    ImmuneExtends(text, findings, modes, k, reps, rep);
  }

  lemma WovenExtends(text: string, findings: seq<Finding>, modes: Modes, k: nat, reps: seq<string>, rep: string)
    requires k < |findings| && k == |reps| && Placed(findings, |text|)
    ensures WovenTo(text, findings, reps + [rep], k + 1)
         == WovenTo(text, findings, reps, k) + text[EndOf(findings, k)..findings[k].start] + rep
  {
    PrefixOnly(text, findings, modes, reps, reps + [rep], k);
  }

  lemma ImmuneExtends(text: string, findings: seq<Finding>, modes: Modes, k: nat, reps: seq<string>, rep: string)
    requires k < |findings| && k == |reps| && Placed(findings, |text|)
    ensures var start := |WovenTo(text, findings, reps, k) + text[EndOf(findings, k)..findings[k].start]|;
            var before := ImmuneTo(findings, modes, reps, k);
            && (IsImmune(ModeOf(modes, findings[k]))
                ==> ImmuneTo(findings, modes, reps + [rep], k + 1) == before + [(start, start + |rep|)])
            && (!IsImmune(ModeOf(modes, findings[k])) ==> ImmuneTo(findings, modes, reps + [rep], k + 1) == before)
  {
    PrefixOnly(text, findings, modes, reps, reps + [rep], k);
    SpanLength(text, findings, reps, k);
  }

  /** A replacement starts where the output before it and the gap end. */
  lemma SpanLength(text: string, findings: seq<Finding>, reps: seq<string>, k: nat)
    requires k < |findings| && k <= |reps| && Placed(findings, |text|)
    ensures SpanStart(findings, reps, k)
         == |WovenTo(text, findings, reps, k)| + |text[EndOf(findings, k)..findings[k].start]|
  {
    WovenLength(text, findings, reps, k);
  }

  lemma TagsCounted(
    env: MaskEnv, scope: string, text: string, findings: seq<Finding>, modes: Modes, k: nat, p: Progress,
    rep: string, next: Progress)
    requires k < |findings| && Placed(findings, |text|) && Counted(findings, modes, k, p)
    requires var f := findings[k];
            && !ModeOf(modes, f).Block?
            && (rep, next.counts, next.vault)
               == Replacement(env, scope, ModeOf(modes, f), f, text[f.start..f.end], p.counts, p.vault)
    ensures Counted(findings, modes, k + 1, next) && PureReplacement(env, text, findings, modes, k, rep)
  {
    forall t ensures Seen(next.counts, t) == TagsTo(findings, modes, t, k + 1) {
      assert Seen(p.counts, t) == TagsTo(findings, modes, t, k);
    }
  }

  /** One iteration keeps the layout. */
  lemma LaidStep(env: MaskEnv, scope: string, text: string, findings: seq<Finding>, modes: Modes, k: nat, p: Progress)
    returns (next: Progress)
    requires k < |findings| && Placed(findings, |text|) && Laid(env, text, findings, modes, k, p)
    requires !ModeOf(modes, findings[k]).Block?
    ensures MaskOne(env, scope, text, modes, findings[k], p) == Going(next)
    ensures Laid(env, text, findings, modes, k + 1, next)
  {
    var rep;
    rep, next := IterationWrites(env, scope, text, findings, modes, k, p);
    LayoutExtends(text, findings, modes, k, p, rep, next);
    TagsCounted(env, scope, text, findings, modes, k, p, rep, next);
    DescribedMore(env, text, findings, modes, k, p, rep, next);
  }

  lemma DescribedMore(
    env: MaskEnv, text: string, findings: seq<Finding>, modes: Modes, k: nat, p: Progress, rep: string,
    next: Progress)
    requires k < |findings| && Placed(findings, |text|) && |p.output| == 2 * k && |next.output| == 2 * (k + 1)
    requires Described(env, text, findings, modes, k, p) && PureReplacement(env, text, findings, modes, k, rep)
    requires Replacements(next.output) == Replacements(p.output) + [rep]
    ensures Described(env, text, findings, modes, k + 1, next)
  {
    var before, after := Replacements(p.output), Replacements(next.output);
    forall i | 0 <= i < k + 1 ensures PureReplacement(env, text, findings, modes, i, after[i]) {
      if i < k { assert PureReplacement(env, text, findings, modes, i, before[i]) && before[i] == after[i]; }
    }
  }

  lemma StepMasks(
    env: MaskEnv, scope: string, text: string, findings: seq<Finding>, modes: Modes, k: nat, p: Progress,
    next: Progress)
    requires k < |findings| && MaskOne(env, scope, text, modes, findings[k], p) == Going(next)
    ensures MaskAll(env, scope, text, modes, findings[k..], p)
         == MaskAll(env, scope, text, modes, findings[k + 1..], next)
  {
    MaskAllStep(env, scope, text, modes, findings, k, p);
  }

  /** One iteration on an unblocked finding, within the whole loop. */
  lemma LaidNext(
    env: MaskEnv, scope: string, text: string, findings: seq<Finding>, modes: Modes, k: nat, p: Progress)
    returns (next: Progress)
    requires k < |findings| && Placed(findings, |text|) && NoneBlocked(findings, modes)
    requires Laid(env, text, findings, modes, k, p)
    ensures MaskOne(env, scope, text, modes, findings[k], p) == Going(next)
    ensures Laid(env, text, findings, modes, k + 1, next)
    ensures MaskAll(env, scope, text, modes, findings[k..], p)
         == MaskAll(env, scope, text, modes, findings[k + 1..], next)
  {
    next := LaidStep(env, scope, text, findings, modes, k, p);
    StepMasks(env, scope, text, findings, modes, k, p, next);
  }

  lemma {:induction false} LaidFrom(
    env: MaskEnv, scope: string, text: string, findings: seq<Finding>, modes: Modes, k: nat, p: Progress)
    returns (end: Progress)
    requires k <= |findings| && Placed(findings, |text|) && Laid(env, text, findings, modes, k, p)
    requires NoneBlocked(findings, modes)
    ensures MaskAll(env, scope, text, modes, findings[k..], p) == Going(end)
    ensures Laid(env, text, findings, modes, |findings|, end)
    decreases |findings| - k
  {
    if k == |findings| {
      end := p;
    } else {
      var next := LaidNext(env, scope, text, findings, modes, k, p);
      end := LaidFrom(env, scope, text, findings, modes, k + 1, next);
    }
  }

  /** The replacements a successful masking makes. */
  function RepsOf(
    env: MaskEnv, vault: State, scope: string, text: string, findings: seq<Finding>, modes: Modes): seq<string> {
    var end := MaskAll(env, scope, text, modes, findings, Start(vault));
    if end.Going? then Replacements(end.progress.output) else []
  }

  /**
   The masked text is the gaps interleaved with the replacements; immune spans are the output coordinates of the
   pseudonymized and tagged ones; and tags are numbered per entity type.
   */
  lemma MaskLayout(env: MaskEnv, vault: State, scope: string, text: string, findings: seq<Finding>, modes: Modes)
    requires Placed(findings, |text|) && NoneBlocked(findings, modes)
    ensures var result := Masked(env, vault, scope, text, findings, modes).0;
            var reps := RepsOf(env, vault, scope, text, findings, modes);
            && result.Ok? && |reps| == |findings|
            && result.value.text == Woven(text, findings, reps)
            && result.value.immuneSpans == ImmuneTo(findings, modes, reps, |findings|)
            && forall i :: 0 <= i < |findings| ==> PureReplacement(env, text, findings, modes, i, reps[i])
  {
    assert findings[0..] == findings;
    StartLaid(env, text, findings, modes, vault);
    var end := LaidFrom(env, scope, text, findings, modes, 0, Start(vault));
    FinalText(text, findings, modes, end);
  }

  lemma StartLaid(env: MaskEnv, text: string, findings: seq<Finding>, modes: Modes, vault: State)
    requires Placed(findings, |text|)
    ensures Laid(env, text, findings, modes, 0, Start(vault))
  {
  }

  lemma FinalText(text: string, findings: seq<Finding>, modes: Modes, p: Progress)
    requires Placed(findings, |text|) && LaidOut(text, findings, modes, |findings|, p)
    ensures |Replacements(p.output)| == |findings|
    ensures Join(p.output + [Slice(text, p.cursor, |text|)]) == Woven(text, findings, Replacements(p.output))
  {
    SliceInRange(text, p.cursor, |text|);
    assert text[p.cursor..|text|] == text[p.cursor..];
    JoinSnoc(p.output, text[p.cursor..]);
  }

  // ---- where the replacements are ----

  lemma {:induction false} WovenMonotone(text: string, findings: seq<Finding>, reps: seq<string>, j: nat, k: nat)
    requires j <= k <= |findings| && k <= |reps| && Placed(findings, |text|)
    ensures WovenTo(text, findings, reps, j) <= WovenTo(text, findings, reps, k)
    decreases k
  {
    if j < k { WovenMonotone(text, findings, reps, j, k - 1); }
  }

  lemma SpansInOrder(text: string, findings: seq<Finding>, reps: seq<string>, j: nat, k: nat)
    requires |reps| == |findings| && j < k < |findings| && Placed(findings, |text|)
    ensures SpanStart(findings, reps, j) + |reps[j]| <= SpanStart(findings, reps, k)
  {
    EndsGrow(text, findings, reps, j + 1, k);
  }

  lemma {:induction false} EndsGrow(text: string, findings: seq<Finding>, reps: seq<string>, j: nat, k: nat)
    requires |reps| == |findings| && j <= k <= |findings| && Placed(findings, |text|)
    ensures EndOf(findings, j) + Growth(findings, reps, j) <= EndOf(findings, k) + Growth(findings, reps, k)
    decreases k
  {
    if j < k {
      EndsGrow(text, findings, reps, j, k - 1);
      assert EndOf(findings, k - 1) <= findings[k - 1].start;
    }
  }

  /** Replacement `k` occupies its span of the masked text, and spans come in order without overlapping. */
  lemma ReplacementLocated(text: string, findings: seq<Finding>, reps: seq<string>, k: nat)
    requires |reps| == |findings| && k < |findings| && Placed(findings, |text|)
    ensures At(Woven(text, findings, reps), reps[k], SpanStart(findings, reps, k))
    ensures forall j :: 0 <= j < k ==> SpanStart(findings, reps, j) + |reps[j]| <= SpanStart(findings, reps, k)
  {
    WovenLength(text, findings, reps, k);
    WovenMonotone(text, findings, reps, k + 1, |findings|);
    var upTo, a := WovenTo(text, findings, reps, k + 1), SpanStart(findings, reps, k);
    assert upTo[a..a + |reps[k]|] == reps[k];
    assert Woven(text, findings, reps) == upTo + Woven(text, findings, reps)[|upTo|..];
    AtAppend(upTo, Woven(text, findings, reps)[|upTo|..], reps[k], a);
    forall j | 0 <= j < k ensures SpanStart(findings, reps, j) + |reps[j]| <= a {
      SpansInOrder(text, findings, reps, j, k);
    }
  }

  lemma {:induction false} ImmuneFrom(
    text: string, findings: seq<Finding>, modes: Modes, reps: seq<string>, k: nat, i: nat)
    returns (j: nat)
    requires |reps| == |findings| && k <= |findings| && Placed(findings, |text|)
    requires i < |ImmuneTo(findings, modes, reps, k)|
    ensures j < k && IsImmune(ModeOf(modes, findings[j]))
    ensures ImmuneTo(findings, modes, reps, k)[i] == (SpanStart(findings, reps, j),
                                                      SpanStart(findings, reps, j) + |reps[j]|)
    ensures i < |ImmuneTo(findings, modes, reps, j + 1)| && i >= |ImmuneTo(findings, modes, reps, j)|
  {
    if i < |ImmuneTo(findings, modes, reps, k - 1)| {
      j := ImmuneFrom(text, findings, modes, reps, k - 1, i);
    } else {
      j := k - 1;
    }
  }

  lemma {:induction false} ImmuneMonotone(findings: seq<Finding>, modes: Modes, reps: seq<string>, j: nat, k: nat)
    requires |reps| == |findings| && j <= k <= |findings|
    ensures |ImmuneTo(findings, modes, reps, j)| <= |ImmuneTo(findings, modes, reps, k)|
    decreases k
  {
    if j < k { ImmuneMonotone(findings, modes, reps, j, k - 1); }
  }

  lemma ImmuneOrder(text: string, findings: seq<Finding>, modes: Modes, reps: seq<string>, i: nat, j: nat)
    requires |reps| == |findings| && Placed(findings, |text|) && i < j < |ImmuneTo(findings, modes, reps, |findings|)|
    ensures ImmuneTo(findings, modes, reps, |findings|)[i].1 <= ImmuneTo(findings, modes, reps, |findings|)[j].0
  {
    var a := ImmuneFrom(text, findings, modes, reps, |findings|, i);
    var b := ImmuneFrom(text, findings, modes, reps, |findings|, j);
    ImmuneIndexOrder(findings, modes, reps, i, j, a, b);
    SpansInOrder(text, findings, reps, a, b);
  }

  lemma ImmuneIndexOrder(findings: seq<Finding>, modes: Modes, reps: seq<string>, i: nat, j: nat, a: nat, b: nat)
    requires |reps| == |findings| && a < |findings| && b < |findings| && i < j
    requires |ImmuneTo(findings, modes, reps, a)| <= i && j < |ImmuneTo(findings, modes, reps, b + 1)|
    ensures a < b
  {
    if b < a { ImmuneMonotone(findings, modes, reps, b + 1, a); }
  }

  lemma ImmuneInRange(text: string, findings: seq<Finding>, modes: Modes, reps: seq<string>, i: nat)
    requires |reps| == |findings| && Placed(findings, |text|) && i < |ImmuneTo(findings, modes, reps, |findings|)|
    ensures var span := ImmuneTo(findings, modes, reps, |findings|)[i]; 0 <= span.0 <= span.1 <= |Woven(text,
                                                                                                        findings, reps)|
  {
    var a := ImmuneFrom(text, findings, modes, reps, |findings|, i);
    ReplacementLocated(text, findings, reps, a);
  }

  /** Immune spans are in range, sorted and disjoint. */
  lemma ImmuneSpansSorted(text: string, findings: seq<Finding>, modes: Modes, reps: seq<string>)
    requires |reps| == |findings| && Placed(findings, |text|)
    ensures var spans := ImmuneTo(findings, modes, reps, |findings|);
            && (forall i :: 0 <= i < |spans| ==> 0 <= spans[i].0 <= spans[i].1 <= |Woven(text, findings, reps)|)
            && (forall i, j :: 0 <= i < j < |spans| ==> spans[i].1 <= spans[j].0)
  {
    var spans := ImmuneTo(findings, modes, reps, |findings|);
    forall i: nat | i < |spans| ensures 0 <= spans[i].0 <= spans[i].1 <= |Woven(text, findings, reps)| {
      ImmuneInRange(text, findings, modes, reps, i);
    }
    forall i: nat, j: nat | i < j < |spans| ensures spans[i].1 <= spans[j].0 {
      ImmuneOrder(text, findings, modes, reps, i, j);
    }
  }
}
