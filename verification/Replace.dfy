/**
 `replace_text`: the locations are distinct and independent places, so assigning at them one after the other is the
 structural rewriting, which leaves every other leaf alone.
 */
module Replace {
  import opened Outcomes
  import opened JsonTree
  import opened Extract
  import opened Rewrite

  /** Assign at the locations, one after the other; `n` is the depth of `v` in the payload. */
  function SetAll(v: Json, locations: seq<TextLocation>, n: nat, g: Rule): Json
    requires forall i :: 0 <= i < |locations| ==> n <= |locations[i].path|
    decreases |locations|
  {
    if locations == [] then v
    else SetAll(SetAt(v, locations[0].path[n..], g(locations[0].path, locations[0].text)), locations[1..], n, g)
  }

  function Ignoring(f: string -> string): Rule { (p, s) => f(s) }

  function Replaced(payload: Json, f: string -> string): Json { Rewritten(Payload, payload, [], Ignoring(f)) }

  /** The locations only: their texts are read before any assignment, as in the source. */
  method ReplaceText(payload: Json, f: string -> string) returns (value: Json)
    requires WellFormed(payload)
    ensures value == Replaced(payload, f)
  {
    value := payload;
    if !payload.JObj? {
      if !payload.JStr? {
        assert Plan(Payload, payload) == [];
        assert RewrittenKids(Kids(payload), [], payload, [], Ignoring(f)) == Kids(payload);
        WithKids(payload);
      }
      return;
    }
    var locations := ExtractText(value);
    for i := 0 to |locations|
      invariant SetAll(value, locations[i..], 0, Ignoring(f)) == SetAll(payload, locations, 0, Ignoring(f))
    {
      assert locations[i..][1..] == locations[i + 1..];
      assert locations[i].path[0..] == locations[i].path;
      value := SetAt(value, locations[i].path, f(locations[i].text));
    }
    SetAllIsRewrite(Payload, payload, [], Ignoring(f));
  }

  // ---- where the locations are ----

  ghost predicate AllUnder(locations: seq<TextLocation>, path: Path) {
    forall i :: 0 <= i < |locations| ==> path <= locations[i].path
  }

  /** No location's path is a prefix of another's. */
  ghost predicate PrefixFree(locations: seq<TextLocation>) {
    forall i, j :: 0 <= i < |locations| && 0 <= j < |locations| && i != j ==> !(locations[i].path <= locations[j].path)
  }

  lemma {:induction false} LocationsUnder(shape: Shape, v: Json, path: Path)
    ensures AllUnder(Locations(shape, v, path), path)
    decreases v, 1, 0
  {
    if !v.JStr? {
      PlanInRange(shape, v);
      LocationsOverUnder(Plan(shape, v), v, path);
    }
  }

  lemma {:induction false} LocationsOverUnder(plan: seq<Visit>, v: Json, path: Path)
    requires InRange(plan, v)
    ensures AllUnder(LocationsOver(plan, v, path), path)
    ensures forall i :: 0 <= i < |LocationsOver(plan, v, path)| ==>
      exists k :: 0 <= k < |plan| && path + [Seg(v, plan[k].index)] <= LocationsOver(plan, v, path)[i].path
    decreases v, 0, |plan|
  {
    if plan != [] {
      var first := path + [Seg(v, plan[0].index)];
      LocationsUnder(plan[0].shape, Kid(v, plan[0].index), first);
      LocationsOverUnder(plan[1..], v, path);
      var here, rest := Locations(plan[0].shape, Kid(v, plan[0].index), first), LocationsOver(plan[1..], v, path);
      var all := LocationsOver(plan, v, path);
      forall i | 0 <= i < |all|
        ensures exists k :: 0 <= k < |plan| && path + [Seg(v, plan[k].index)] <= all[i].path
      {
        if i < |here| {
          assert all[i] == here[i] && first <= here[i].path;
        } else {
          assert all[i] == rest[i - |here|];
          var k :| 0 <= k < |plan[1..]| && path + [Seg(v, plan[1..][k].index)] <= rest[i - |here|].path;
          assert plan[k + 1] == plan[1..][k];
        }
      }
    }
  }

  lemma DifferentBranches(path: Path, a: Segment, b: Segment, p: Path, q: Path)
    requires path + [a] <= p && path + [b] <= q && a != b
    ensures !(p <= q) && !(q <= p)
  {
    assert p[|path|] == (path + [a])[|path|] == a;
    assert q[|path|] == (path + [b])[|path|] == b;
  }

  /** Locations are pairwise independent places. */
  lemma {:induction false} LocationsPrefixFree(shape: Shape, v: Json, path: Path)
    requires WellFormed(v)
    ensures PrefixFree(Locations(shape, v, path))
    decreases v, 1, 0
  {
    if !v.JStr? {
      PlanInRange(shape, v);
      PlanDistinct(shape, v);
      LocationsOverPrefixFree(Plan(shape, v), v, path);
    }
  }

  lemma {:induction false} LocationsOverPrefixFree(plan: seq<Visit>, v: Json, path: Path)
    requires WellFormed(v) && InRange(plan, v) && IndicesDistinct(plan)
    ensures PrefixFree(LocationsOver(plan, v, path))
    decreases v, 0, |plan|
  {
    if plan != [] {
      var i0 := plan[0].index;
      var first := path + [Seg(v, i0)];
      var here, rest := Locations(plan[0].shape, Kid(v, i0), first), LocationsOver(plan[1..], v, path);
      LocationsPrefixFree(plan[0].shape, Kid(v, i0), first);
      LocationsUnder(plan[0].shape, Kid(v, i0), first);
      LocationsOverPrefixFree(plan[1..], v, path);
      LocationsOverUnder(plan[1..], v, path);
      forall i, j | 0 <= i < |here| && 0 <= j < |rest|
        ensures !(here[i].path <= rest[j].path) && !(rest[j].path <= here[i].path)
      {
        var k :| 0 <= k < |plan[1..]| && path + [Seg(v, plan[1..][k].index)] <= rest[j].path;
        if Seg(v, i0) == Seg(v, plan[k + 1].index) { SegsDistinct(v, i0, plan[k + 1].index); }
        DifferentBranches(path, Seg(v, i0), Seg(v, plan[k + 1].index), here[i].path, rest[j].path);
      }
      PrefixFreeUnion(here, rest);
    }
  }

  lemma PrefixFreeUnion(a: seq<TextLocation>, b: seq<TextLocation>)
    requires PrefixFree(a) && PrefixFree(b)
    requires forall i, j :: 0 <= i < |a| && 0 <= j < |b| ==> !(a[i].path <= b[j].path) && !(b[j].path <= a[i].path)
    ensures PrefixFree(a + b)
  {
  }

  /** The string at path `p` of the payload, where `v` sits at depth `n`. */
  ghost predicate Holds(v: Json, n: nat, location: TextLocation) {
    n <= |location.path| && Resolve(v, location.path[n..]) == Some(JStr(location.text))
  }

  /** Every location resolves to the recorded string. */
  lemma {:induction false} LocationsResolve(shape: Shape, v: Json, path: Path)
    requires WellFormed(v)
    ensures forall i :: 0 <= i < |Locations(shape, v, path)| ==> Holds(v, |path|, Locations(shape, v, path)[i])
    decreases v, 1, 0
  {
    if !v.JStr? {
      PlanInRange(shape, v);
      LocationsOverResolve(Plan(shape, v), v, path);
    }
  }

  lemma HoldsAbove(v: Json, i: nat, path: Path, location: TextLocation)
    requires DistinctFields(v) && i < Count(v) && path + [Seg(v, i)] <= location.path
    requires Holds(Kid(v, i), |path| + 1, location)
    ensures Holds(v, |path|, location)
  {
    ChildIs(v, i);
    var rel := location.path[|path|..];
    assert rel[0] == (path + [Seg(v, i)])[|path|];
    assert rel[1..] == location.path[|path| + 1..];
  }

  lemma {:induction false} LocationsOverResolve(plan: seq<Visit>, v: Json, path: Path)
    requires WellFormed(v) && InRange(plan, v)
    ensures forall i :: 0 <= i < |LocationsOver(plan, v, path)| ==> Holds(v, |path|, LocationsOver(plan, v, path)[i])
    decreases v, 0, |plan|
  {
    if plan != [] {
      var i0 := plan[0].index;
      var first := path + [Seg(v, i0)];
      var here, rest := Locations(plan[0].shape, Kid(v, i0), first), LocationsOver(plan[1..], v, path);
      LocationsResolve(plan[0].shape, Kid(v, i0), first);
      LocationsUnder(plan[0].shape, Kid(v, i0), first);
      LocationsOverResolve(plan[1..], v, path);
      forall i | 0 <= i < |here| ensures Holds(v, |path|, here[i]) {
        HoldsAbove(v, i0, path, here[i]);
      }
      var all := LocationsOver(plan, v, path);
      forall i | 0 <= i < |all| ensures Holds(v, |path|, all[i]) {
        assert all[i] == if i < |here| then here[i] else rest[i - |here|];
      }
    }
  }

  // ---- assigning one after the other ----

  lemma {:induction false} SetAllAppend(v: Json, a: seq<TextLocation>, b: seq<TextLocation>, n: nat, g: Rule)
    requires forall i :: 0 <= i < |a| ==> n <= |a[i].path|
    requires forall i :: 0 <= i < |b| ==> n <= |b[i].path|
    ensures SetAll(v, a + b, n, g) == SetAll(SetAll(v, a, n, g), b, n, g)
    decreases |a|
  {
    if a == [] {
      assert a + b == b;
    } else {
      assert (a + b)[1..] == a[1..] + b;
      SetAllAppend(SetAt(v, a[0].path[n..], g(a[0].path, a[0].text)), a[1..], b, n, g);
    }
  }

  /** Assignments below child `i` happen in child `i`. */
  lemma {:induction false} SetAllInKid(
    v: Json, kids: seq<Json>, i: nat, path: Path, locations: seq<TextLocation>, g: Rule)
    requires DistinctFields(v) && |kids| == Count(v) && i < Count(v)
    requires AllUnder(locations, path + [Seg(v, i)])
    ensures SetAll(With(v, kids), locations, |path|, g)
         == With(v, kids[i := SetAll(kids[i], locations, |path| + 1, g)])
    decreases |locations|
  {
    if locations == [] {
      assert kids[i := kids[i]] == kids;
    } else {
      var p, w := locations[0].path, With(v, kids);
      var rel := p[|path|..];
      assert rel[0] == (path + [Seg(v, i)])[|path|] == Seg(w, i);
      assert rel[1..] == p[|path| + 1..];
      WithDistinct(v, kids);
      ChildIs(w, i);
      KidsOfWith(v, kids);
      var kid := SetAt(kids[i], rel[1..], g(p, locations[0].text));
      WithTwice(v, kids, kids[i := kid]);
      assert SetAt(w, rel, g(p, locations[0].text)) == With(v, kids[i := kid]);
      SetAllInKid(v, kids[i := kid], i, path, locations[1..], g);
      assert kids[i := kid][i := SetAll(kid, locations[1..], |path| + 1, g)]
          == kids[i := SetAll(kid, locations[1..], |path| + 1, g)];
    }
  }

  lemma WithDistinct(v: Json, kids: seq<Json>)
    requires DistinctFields(v) && |kids| == Count(v)
    ensures DistinctFields(With(v, kids))
  {
    if v.JObj? {
      forall i, j | 0 <= i < j < |v.fields| ensures With(v, kids).fields[i].key != With(v, kids).fields[j].key {
        assert v.fields[i].key != v.fields[j].key;
      }
    }
  }

  /** Assigning at all locations of a value is rewriting it. */
  lemma {:induction false} SetAllIsRewrite(shape: Shape, v: Json, path: Path, g: Rule)
    requires WellFormed(v)
    ensures AllUnder(Locations(shape, v, path), path)
    ensures SetAll(v, Locations(shape, v, path), |path|, g) == Rewritten(shape, v, path, g)
    decreases v, 1, 0
  {
    LocationsUnder(shape, v, path);
    if v.JStr? {
      if Collects(shape) {
        var all := Locations(shape, v, path);
        assert all[1..] == [] && path[|path|..] == [];
        assert SetAll(v, all, |path|, g) == SetAll(SetAt(v, [], g(path, v.s)), all[1..], |path|, g);
      }
    } else {
      PlanInRange(shape, v);
      PlanDistinct(shape, v);
      WithKids(v);
      SetAllOverIsRewrite(Kids(v), Plan(shape, v), v, path, g);
    }
  }

  /** Assignments below one child, then the others. */
  lemma SetAllFirst(
    v: Json, kids: seq<Json>, i: nat, path: Path, here: seq<TextLocation>, rest: seq<TextLocation>, g: Rule)
    requires DistinctFields(v) && |kids| == Count(v) && i < Count(v)
    requires AllUnder(here, path + [Seg(v, i)]) && AllUnder(rest, path)
    ensures SetAll(With(v, kids), here + rest, |path|, g)
         == SetAll(With(v, kids[i := SetAll(kids[i], here, |path| + 1, g)]), rest, |path|, g)
  {
    SetAllAppend(With(v, kids), here, rest, |path|, g);
    SetAllInKid(v, kids, i, path, here, g);
  }

  lemma {:induction false} SetAllOverIsRewrite(kids: seq<Json>, plan: seq<Visit>, v: Json, path: Path, g: Rule)
    requires WellFormed(v) && InRange(plan, v) && IndicesDistinct(plan) && |kids| == Count(v)
    requires forall k :: 0 <= k < |plan| ==> kids[plan[k].index] == Kid(v, plan[k].index)
    ensures AllUnder(LocationsOver(plan, v, path), path)
    ensures SetAll(With(v, kids), LocationsOver(plan, v, path), |path|, g)
         == With(v, RewrittenKids(kids, plan, v, path, g))
    decreases v, 0, |plan|
  {
    LocationsOverUnder(plan, v, path);
    if plan != [] {
      var i := plan[0].index;
      var first := path + [Seg(v, i)];
      var here, rest := Locations(plan[0].shape, Kid(v, i), first), LocationsOver(plan[1..], v, path);
      var kid := Rewritten(plan[0].shape, Kid(v, i), first, g);
      LocationsUnder(plan[0].shape, Kid(v, i), first);
      LocationsOverUnder(plan[1..], v, path);
      SetAllIsRewrite(plan[0].shape, Kid(v, i), first, g);
      SetAllFirst(v, kids, i, path, here, rest, g);
      SetAllOverIsRewrite(kids[i := kid], plan[1..], v, path, g);
    }
  }

  // ---- every other leaf ----

  ghost predicate Listed(locations: seq<TextLocation>, p: Path) {
    exists i :: 0 <= i < |locations| && locations[i].path == p
  }

  /** Below child `i` the locations of the whole are the locations of that child in its role. */
  lemma {:induction false} ListedBelow(plan: seq<Visit>, v: Json, path: Path, i: nat, p: Path)
    requires WellFormed(v) && InRange(plan, v) && IndicesDistinct(plan) && i < Count(v) && path + [Seg(v, i)] <= p
    ensures Listed(LocationsOver(plan, v, path), p) <==>
            exists k :: 0 <= k < |plan| && plan[k].index == i
                        && Listed(Locations(plan[k].shape, Kid(v, i), path + [Seg(v, i)]), p)
    decreases |plan|
  {
    if plan != [] {
      var j := plan[0].index;
      var first := path + [Seg(v, j)];
      var here, rest, all :=
        Locations(plan[0].shape, Kid(v, j), first), LocationsOver(plan[1..], v, path), LocationsOver(plan, v, path);
      ListedBelow(plan[1..], v, path, i, p);
      ListedUnion(here, rest, p);
      LocationsUnder(plan[0].shape, Kid(v, j), first);
      if j != i && Listed(here, p) {
        var l :| 0 <= l < |here| && here[l].path == p;
        if Seg(v, i) == Seg(v, j) { SegsDistinct(v, i, j); }
        DifferentBranches(path, Seg(v, i), Seg(v, j), p, p);
      }
      PlanShift(plan, v, path, i, p);
    }
  }

  lemma ListedUnion(a: seq<TextLocation>, b: seq<TextLocation>, p: Path)
    ensures Listed(a + b, p) <==> Listed(a, p) || Listed(b, p)
  {
    if Listed(a, p) {
      var l :| 0 <= l < |a| && a[l].path == p;
      assert (a + b)[l].path == p;
    }
    if Listed(b, p) {
      var l :| 0 <= l < |b| && b[l].path == p;
      assert (a + b)[|a| + l].path == p;
    }
  }

  lemma PlanShift(plan: seq<Visit>, v: Json, path: Path, i: nat, p: Path)
    requires plan != [] && i < Count(v)
    ensures (exists k :: 0 <= k < |plan| && plan[k].index == i
                         && Listed(Locations(plan[k].shape, Kid(v, i), path + [Seg(v, i)]), p))
            <==> (plan[0].index == i && Listed(Locations(plan[0].shape, Kid(v, i), path + [Seg(v, i)]), p))
                 || exists k :: 0 <= k < |plan[1..]| && plan[1..][k].index == i
                                && Listed(Locations(plan[1..][k].shape, Kid(v, i), path + [Seg(v, i)]), p)
  {
    if k :| 0 <= k < |plan[1..]| && plan[1..][k].index == i
            && Listed(Locations(plan[1..][k].shape, Kid(v, i), path + [Seg(v, i)]), p) {
      assert plan[k + 1] == plan[1..][k];
    }
    if k :| 0 <= k < |plan| && plan[k].index == i
            && Listed(Locations(plan[k].shape, Kid(v, i), path + [Seg(v, i)]), p) {
      if k > 0 { assert plan[k] == plan[1..][k - 1]; }
    }
  }

  /** Below a planned child, what is extracted is what is extracted from that child in its role. */
  lemma ListedInPlanned(shape: Shape, v: Json, path: Path, k: nat, p: Path)
    requires WellFormed(v) && !v.JStr? && k < |Plan(shape, v)| && Plan(shape, v)[k].index < Count(v)
    requires path + [Seg(v, Plan(shape, v)[k].index)] <= p
    ensures var visit := Plan(shape, v)[k];
            Listed(Locations(shape, v, path), p)
            <==> Listed(Locations(visit.shape, Kid(v, visit.index), path + [Seg(v, visit.index)]), p)
  {
    PlanInRange(shape, v);
    PlanDistinct(shape, v);
    ListedBelow(Plan(shape, v), v, path, Plan(shape, v)[k].index, p);
  }

  /** Below a child the walk does not visit nothing is extracted. */
  lemma NotListedElsewhere(shape: Shape, v: Json, path: Path, i: nat, p: Path)
    requires WellFormed(v) && !v.JStr? && i < Count(v) && !Planned(Plan(shape, v), i)
    requires path + [Seg(v, i)] <= p
    ensures !Listed(Locations(shape, v, path), p)
  {
    PlanInRange(shape, v);
    PlanDistinct(shape, v);
    ListedBelow(Plan(shape, v), v, path, i, p);
  }

  /** One step down a path leads to the same child before and after rewriting. */
  lemma StepDown(shape: Shape, v: Json, path: Path, g: Rule, rel: Path) returns (i: nat)
    requires rel != [] && Resolve(v, rel).Some?
    ensures i < Count(v) && !v.JStr? && Resolve(v, rel) == Resolve(Kid(v, i), rel[1..])
    ensures Count(Rewritten(shape, v, path, g)) == Count(v)
    ensures Resolve(Rewritten(shape, v, path, g), rel) == Resolve(Kid(Rewritten(shape, v, path, g), i), rel[1..])
    ensures path + rel == path + [Seg(v, i)] + rel[1..]
  {
    i := Child(v, rel[0]).value;
    assert path + rel == path + [Seg(v, i)] + rel[1..];
    RewrittenSameKind(shape, v, path, g);
    ChildStable(v, Rewritten(shape, v, path, g), rel[0], 0);
    KidOfRewritten(shape, v, path, g, i);
  }

  lemma LeafHere(shape: Shape, v: Json, path: Path, g: Rule)
    requires IsLeaf(v)
    ensures if Listed(Locations(shape, v, path), path)
            then v.JStr? && Rewritten(shape, v, path, g) == JStr(g(path, v.s))
            else Rewritten(shape, v, path, g) == v
  {
    if v.JStr? {
      if Collects(shape) { assert Locations(shape, v, path)[0].path == path; }
    } else {
      PlanInRange(shape, v);
      assert Plan(shape, v) == [];
      NoPlanNoLocations(shape, v, path);
    }
  }

  /** At any leaf: the rule's text if the leaf was extracted, and the old leaf if it was not. */
  lemma {:induction false} LeafAfterRewrite(shape: Shape, v: Json, path: Path, g: Rule, rel: Path)
    requires WellFormed(v) && Resolve(v, rel).Some? && IsLeaf(Resolve(v, rel).value)
    ensures var leaf := Resolve(v, rel).value;
            if Listed(Locations(shape, v, path), path + rel)
            then leaf.JStr? && Resolve(Rewritten(shape, v, path, g), rel) == Some(JStr(g(path + rel, leaf.s)))
            else Resolve(Rewritten(shape, v, path, g), rel) == Some(leaf)
    decreases |rel|
  {
    if rel == [] {
      assert path + rel == path;
      LeafHere(shape, v, path, g);
    } else {
      var i := StepDown(shape, v, path, g, rel);
      KidOfRewritten(shape, v, path, g, i);
      var plan, first := Plan(shape, v), path + [Seg(v, i)];
      if Planned(plan, i) {
        var k :| 0 <= k < |plan| && plan[k].index == i;
        ListedInPlanned(shape, v, path, k, path + rel);
        LeafAfterRewrite(plan[k].shape, Kid(v, i), first, g, rel[1..]);
      } else {
        NotListedElsewhere(shape, v, path, i, path + rel);
      }
    }
  }
}
