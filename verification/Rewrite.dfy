/**
 Replacing text at the extracted locations (`replace_text`), one assignment at a time, and what it amounts to: one
 structural rewriting of the payload that touches exactly the extracted strings.
 */
module Rewrite {
  import opened JsonTree
  import opened Extract

  /** A rewriting of located text. */
  type Rule = (Path, string) -> string

  /** Apply a rule at every location in a value of the given shape. */
  function Rewritten(shape: Shape, v: Json, path: Path, g: Rule): Json
    decreases v, 1, 0
  {
    if v.JStr? then (if Collects(shape) then JStr(g(path, v.s)) else v)
    else
      PlanInRange(shape, v);
      With(v, RewrittenKids(Kids(v), Plan(shape, v), v, path, g))
  }

  /** Rewrite the children named by the plan, leaving the others as they are. */
  function RewrittenKids(kids: seq<Json>, plan: seq<Visit>, v: Json, path: Path, g: Rule): (kids': seq<Json>)
    requires |kids| == Count(v) && InRange(plan, v)
    ensures |kids'| == |kids|
    decreases v, 0, |plan|
  {
    if plan == [] then kids
    else
      var i := plan[0].index;
      var kid := Rewritten(plan[0].shape, Kid(v, i), path + [Seg(v, i)], g);
      RewrittenKids(kids[i := kid], plan[1..], v, path, g)
  }

  // ---- the children of a rewritten value ----

  lemma {:induction false} KidNotPlanned(kids: seq<Json>, plan: seq<Visit>, v: Json, path: Path, g: Rule, i: nat)
    requires |kids| == Count(v) && InRange(plan, v) && i < |kids|
    requires forall k :: 0 <= k < |plan| ==> plan[k].index != i
    ensures RewrittenKids(kids, plan, v, path, g)[i] == kids[i]
    decreases |plan|
  {
    if plan != [] {
      var j := plan[0].index;
      var kid := Rewritten(plan[0].shape, Kid(v, j), path + [Seg(v, j)], g);
      KidNotPlanned(kids[j := kid], plan[1..], v, path, g, i);
    }
  }

  lemma {:induction false} KidPlanned(kids: seq<Json>, plan: seq<Visit>, v: Json, path: Path, g: Rule, k: nat)
    requires |kids| == Count(v) && InRange(plan, v) && IndicesDistinct(plan) && k < |plan|
    ensures var i := plan[k].index;
            RewrittenKids(kids, plan, v, path, g)[i] == Rewritten(plan[k].shape, Kid(v, i), path + [Seg(v, i)], g)
    decreases |plan|
  {
    var j := plan[0].index;
    var kid := Rewritten(plan[0].shape, Kid(v, j), path + [Seg(v, j)], g);
    if k == 0 {
      KidNotPlanned(kids[j := kid], plan[1..], v, path, g, j);
    } else {
      assert IndicesDistinct(plan[1..]);
      KidPlanned(kids[j := kid], plan[1..], v, path, g, k - 1);
    }
  }

  ghost predicate Planned(plan: seq<Visit>, i: nat) { exists k :: 0 <= k < |plan| && plan[k].index == i }

  /** Child `i` of a rewritten value: rewritten in its role if the plan names it, untouched otherwise. */
  lemma KidOfRewritten(shape: Shape, v: Json, path: Path, g: Rule, i: nat)
    requires i < Count(v)
    ensures var w := Rewritten(shape, v, path, g);
            && Count(w) == Count(v) && Seg(w, i) == Seg(v, i)
            && (!Planned(Plan(shape, v), i) ==> Kid(w, i) == Kid(v, i))
            && forall k :: 0 <= k < |Plan(shape, v)| && Plan(shape, v)[k].index == i ==>
                 Kid(w, i) == Rewritten(Plan(shape, v)[k].shape, Kid(v, i), path + [Seg(v, i)], g)
  {
    var plan := Plan(shape, v);
    PlanInRange(shape, v);
    PlanDistinct(shape, v);
    if !Planned(plan, i) { KidNotPlanned(Kids(v), plan, v, path, g, i); }
    forall k | 0 <= k < |plan| && plan[k].index == i
      ensures RewrittenKids(Kids(v), plan, v, path, g)[i] == Rewritten(plan[k].shape, Kid(v, i), path + [Seg(v, i)], g)
    {
      KidPlanned(Kids(v), plan, v, path, g, k);
    }
  }

  lemma RewrittenSameKind(shape: Shape, v: Json, path: Path, g: Rule)
    ensures SameKind(v, Rewritten(shape, v, path, g))
  {
  }

  /** Which children hold prompt text does not depend on the text. */
  lemma PlanStable(shape: Shape, v: Json, w: Json)
    requires SameKind(v, w) && forall i :: 0 <= i < Count(v) ==> SameKind(Kid(v, i), Kid(w, i))
    ensures Plan(shape, w) == Plan(shape, v)
  {
    NamedStable(v, w, KeysOf(shape));
    if v.JObj? {
      forall i | 0 <= i < |v.fields|
        ensures SchemaChild(w.fields[i].key, w.fields[i].value) == SchemaChild(v.fields[i].key, v.fields[i].value)
      {
        assert SameKind(Kid(v, i), Kid(w, i));
      }
      assert SchemaVisits(w) == SchemaVisits(v);
    }
  }

  lemma {:induction false} ChildStable(v: Json, w: Json, s: Segment, from: nat)
    requires SameKind(v, w) && from <= Count(v)
    ensures ChildFrom(w, s, from) == ChildFrom(v, s, from)
    decreases Count(v) - from
  {
    if from < Count(v) { ChildStable(v, w, s, from + 1); }
  }

  lemma {:induction false} NamedStable(v: Json, w: Json, keys: seq<(string, Shape)>)
    requires SameKind(v, w)
    ensures Named(w, keys) == Named(v, keys)
  {
    if keys != [] {
      ChildStable(v, w, Key(keys[0].0), 0);
      NamedStable(v, w, keys[1..]);
    }
  }

  lemma RewrittenPlan(shape: Shape, v: Json, path: Path, g: Rule)
    ensures Plan(shape, Rewritten(shape, v, path, g)) == Plan(shape, v)
  {
    var w := Rewritten(shape, v, path, g);
    RewrittenSameKind(shape, v, path, g);
    forall i | 0 <= i < Count(v) ensures SameKind(Kid(v, i), Kid(w, i)) {
      KidOfRewritten(shape, v, path, g, i);
      if Planned(Plan(shape, v), i) {
        var k :| 0 <= k < |Plan(shape, v)| && Plan(shape, v)[k].index == i;
        RewrittenSameKind(Plan(shape, v)[k].shape, Kid(v, i), path + [Seg(v, i)], g);
      } else {
        KindReflexive(Kid(v, i));
      }
    }
    PlanStable(shape, v, w);
  }

  lemma KindReflexive(v: Json)
    ensures SameKind(v, v)
  {
  }

  // ---- extraction after rewriting ----

  function Apply(locations: seq<TextLocation>, g: Rule): seq<TextLocation> {
    seq(|locations|,
        i requires 0 <= i < |locations| => TextLocation(locations[i].path, g(locations[i].path, locations[i].text)))
  }

  lemma ApplyAppend(a: seq<TextLocation>, b: seq<TextLocation>, g: Rule)
    ensures Apply(a + b, g) == Apply(a, g) + Apply(b, g)
  {
  }

  /** Extracting from a rewritten value gives the same locations with the rule applied to each text. */
  lemma {:induction false} ExtractAfterRewrite(shape: Shape, v: Json, path: Path, g: Rule)
    ensures Locations(shape, Rewritten(shape, v, path, g), path) == Apply(Locations(shape, v, path), g)
    decreases v, 1, 0
  {
    if !v.JStr? {
      var w := Rewritten(shape, v, path, g);
      RewrittenSameKind(shape, v, path, g);
      RewrittenPlan(shape, v, path, g);
      PlanInRange(shape, v);
      forall k | 0 <= k < |Plan(shape, v)|
        ensures Kid(w, Plan(shape, v)[k].index) ==
                Rewritten(Plan(shape, v)[k].shape, Kid(v, Plan(shape, v)[k].index),
                          path + [Seg(v, Plan(shape, v)[k].index)], g)
        ensures Seg(w, Plan(shape, v)[k].index) == Seg(v, Plan(shape, v)[k].index)
      {
        KidOfRewritten(shape, v, path, g, Plan(shape, v)[k].index);
      }
      ExtractOverAfterRewrite(Plan(shape, v), v, w, path, g);
    }
  }

  lemma {:induction false} ExtractOverAfterRewrite(plan: seq<Visit>, v: Json, w: Json, path: Path, g: Rule)
    requires Count(w) == Count(v) && InRange(plan, v)
    requires forall k :: 0 <= k < |plan| ==>
      Kid(w, plan[k].index) == Rewritten(plan[k].shape, Kid(v, plan[k].index), path + [Seg(v, plan[k].index)], g)
    requires forall k :: 0 <= k < |plan| ==> Seg(w, plan[k].index) == Seg(v, plan[k].index)
    ensures LocationsOver(plan, w, path) == Apply(LocationsOver(plan, v, path), g)
    decreases v, 0, |plan|
  {
    if plan != [] {
      var i := plan[0].index;
      ExtractAfterRewrite(plan[0].shape, Kid(v, i), path + [Seg(v, i)], g);
      ExtractOverAfterRewrite(plan[1..], v, w, path, g);
      ApplyAppend(Locations(plan[0].shape, Kid(v, i), path + [Seg(v, i)]), LocationsOver(plan[1..], v, path), g);
    }
  }

  // ---- identity and composition ----

  /** Two rules do the same to every listed location. */
  ghost predicate AgreeOn(locations: seq<TextLocation>, g: Rule, h: Rule) {
    forall i :: 0 <= i < |locations| ==>
      g(locations[i].path, locations[i].text) == h(locations[i].path, locations[i].text)
  }

  function Unchanged(): Rule { (p, s) => s }

  function Then(g: Rule, h: Rule): Rule { (p, s) => h(p, g(p, s)) }

  lemma AgreeParts(a: seq<TextLocation>, b: seq<TextLocation>, g: Rule, h: Rule)
    requires AgreeOn(a + b, g, h)
    ensures AgreeOn(a, g, h) && AgreeOn(b, g, h)
  {
    forall i | 0 <= i < |a| ensures g(a[i].path, a[i].text) == h(a[i].path, a[i].text) { assert (a + b)[i] == a[i]; }
    forall i | 0 <= i < |b| ensures g(b[i].path, b[i].text) == h(b[i].path, b[i].text) {
      assert (a + b)[|a| + i] == b[i];
    }
  }

  /** Only what a rule does at the locations matters. */
  lemma {:induction false} RewriteDependsOnLocations(shape: Shape, v: Json, path: Path, g: Rule, h: Rule)
    requires AgreeOn(Locations(shape, v, path), g, h)
    ensures Rewritten(shape, v, path, g) == Rewritten(shape, v, path, h)
    decreases v, 1, 0
  {
    if !v.JStr? {
      PlanInRange(shape, v);
      RewriteKidsDepend(Kids(v), Plan(shape, v), v, path, g, h);
    } else if Collects(shape) {
      assert Locations(shape, v, path)[0] == TextLocation(path, v.s);
    }
  }

  lemma {:induction false} RewriteKidsDepend(kids: seq<Json>, plan: seq<Visit>, v: Json, path: Path, g: Rule, h: Rule)
    requires |kids| == Count(v) && InRange(plan, v) && AgreeOn(LocationsOver(plan, v, path), g, h)
    ensures RewrittenKids(kids, plan, v, path, g) == RewrittenKids(kids, plan, v, path, h)
    decreases v, 0, |plan|
  {
    if plan != [] {
      var i := plan[0].index;
      AgreeParts(Locations(plan[0].shape, Kid(v, i), path + [Seg(v, i)]), LocationsOver(plan[1..], v, path), g, h);
      RewriteDependsOnLocations(plan[0].shape, Kid(v, i), path + [Seg(v, i)], g, h);
      RewriteKidsDepend(kids[i := Rewritten(plan[0].shape, Kid(v, i), path + [Seg(v, i)], g)], plan[1..], v, path, g,
                        h);
    }
  }

  /** Values with the same children are equal. */
  lemma SameKids(v: Json, w: Json)
    requires SameKind(v, w) && !IsLeaf(v) && forall i :: 0 <= i < Count(v) ==> Kid(v, i) == Kid(w, i)
    ensures v == w
  {
    if v.JList? {
      assert forall i :: 0 <= i < |v.items| ==> v.items[i] == Kid(v, i) && w.items[i] == Kid(w, i);
      assert v.items == w.items;
    } else {
      forall i | 0 <= i < |v.fields| ensures v.fields[i] == w.fields[i] { assert Kid(v, i) == Kid(w, i); }
      assert v.fields == w.fields;
    }
  }

  /** Rewriting with the identity changes nothing. */
  lemma {:induction false} RewriteIdentity(shape: Shape, v: Json, path: Path)
    ensures Rewritten(shape, v, path, Unchanged()) == v
    decreases v
  {
    if !IsLeaf(v) {
      var w := Rewritten(shape, v, path, Unchanged());
      RewrittenSameKind(shape, v, path, Unchanged());
      forall i | 0 <= i < Count(v) ensures Kid(v, i) == Kid(w, i) {
        KidOfRewritten(shape, v, path, Unchanged(), i);
        if Planned(Plan(shape, v), i) {
          var k :| 0 <= k < |Plan(shape, v)| && Plan(shape, v)[k].index == i;
          RewriteIdentity(Plan(shape, v)[k].shape, Kid(v, i), path + [Seg(v, i)]);
        }
      }
      SameKids(v, w);
    }
  }

  lemma KindTransitive(u: Json, v: Json, w: Json)
    requires SameKind(u, v) && SameKind(v, w)
    ensures SameKind(u, w) && (SameKind(u, w) ==> Count(u) == Count(w))
  {
  }

  lemma KindSymmetric(v: Json, w: Json)
    requires SameKind(v, w)
    ensures SameKind(w, v)
  {
  }

  /** Rewriting twice is rewriting once with the composed rule. */
  lemma {:induction false} RewriteComposes(shape: Shape, v: Json, path: Path, g: Rule, h: Rule)
    ensures Rewritten(shape, Rewritten(shape, v, path, g), path, h) == Rewritten(shape, v, path, Then(g, h))
    decreases v
  {
    if !IsLeaf(v) {
      var w := Rewritten(shape, v, path, g);
      var x, y := Rewritten(shape, w, path, h), Rewritten(shape, v, path, Then(g, h));
      RewrittenSameKind(shape, v, path, g);
      RewrittenSameKind(shape, w, path, h);
      RewrittenSameKind(shape, v, path, Then(g, h));
      KindSymmetric(w, x);
      KindSymmetric(v, w);
      KindTransitive(x, w, v);
      KindTransitive(x, v, y);
      RewrittenPlan(shape, v, path, g);
      forall i | 0 <= i < Count(v) ensures Kid(x, i) == Kid(y, i) {
        KidOfRewritten(shape, v, path, g, i);
        KidOfRewritten(shape, w, path, h, i);
        KidOfRewritten(shape, v, path, Then(g, h), i);
        if Planned(Plan(shape, v), i) {
          var k :| 0 <= k < |Plan(shape, v)| && Plan(shape, v)[k].index == i;
          RewriteComposes(Plan(shape, v)[k].shape, Kid(v, i), path + [Seg(v, i)], g, h);
        }
      }
      SameKids(x, y);
    }
  }

  /** If the second rule undoes the first at every location, the value comes back. */
  lemma RewriteUndone(shape: Shape, v: Json, path: Path, g: Rule, h: Rule)
    requires AgreeOn(Locations(shape, v, path), Then(g, h), Unchanged())
    ensures Rewritten(shape, Rewritten(shape, v, path, g), path, h) == v
  {
    RewriteComposes(shape, v, path, g, h);
    RewriteDependsOnLocations(shape, v, path, Then(g, h), Unchanged());
    RewriteIdentity(shape, v, path);
  }
}
