/**
 Merging detector spans (`frostglass/detection/merge.py`): a greedy selection by rank. Its result has an order-free
 description (`Selection`) that determines it up to the entity types of otherwise equal candidates.
 */
module Merge {
  import opened Text
  import opened Sorting

  datatype CandidateSpan = CandidateSpan(
    entityType: string, start: int, end: int, confidence: real, detector: string, specificity: int)

  /** `_rank(a) >= _rank(b)` as tuples (confidence, specificity, length, detector). */
  predicate RankGeq(a: CandidateSpan, b: CandidateSpan) {
    a.confidence > b.confidence || (a.confidence == b.confidence && (
      a.specificity > b.specificity || (a.specificity == b.specificity && (
        a.end - a.start > b.end - b.start || (a.end - a.start == b.end - b.start && (
          StrLeq(b.detector, a.detector)))))))
  }

  /** The key `(-start, end)`. */
  predicate LaterStart(a: CandidateSpan, b: CandidateSpan) {
    a.start > b.start || (a.start == b.start && a.end <= b.end)
  }

  /** The key `(start, end)`. */
  predicate ByOffset(a: CandidateSpan, b: CandidateSpan) {
    a.start < b.start || (a.start == b.start && a.end <= b.end)
  }

  predicate Apart(a: CandidateSpan, b: CandidateSpan) { a.end <= b.start || a.start >= b.end }

  predicate Clear(c: CandidateSpan, selected: seq<CandidateSpan>) {
    forall i :: 0 <= i < |selected| ==> Apart(c, selected[i])
  }

  /** The order in which candidates are considered. */
  function Ranked(candidates: seq<CandidateSpan>): seq<CandidateSpan> {
    Sort(Sort(candidates, LaterStart), RankGeq)
  }

  /** The greedy choice among the first `n` ranked candidates. */
  function Chosen(ranked: seq<CandidateSpan>, n: nat): seq<CandidateSpan>
    requires n <= |ranked|
  {
    if n == 0 then []
    else
      var selected := Chosen(ranked, n - 1);
      if Clear(ranked[n - 1], selected) then selected + [ranked[n - 1]] else selected
  }

  function Merged(candidates: seq<CandidateSpan>): seq<CandidateSpan> {
    Sort(Chosen(Ranked(candidates), |Ranked(candidates)|), ByOffset)
  }

  method MergeSpans(candidates: seq<CandidateSpan>) returns (merged: seq<CandidateSpan>)
    ensures merged == Merged(candidates)
    ensures AllNonEmpty(candidates) ==> Selection(merged, candidates)
  {
    var ranked := Ranked(candidates);
    var selected: seq<CandidateSpan> := [];
    for n := 0 to |ranked|
      invariant selected == Chosen(ranked, n)
    {
      if Clear(ranked[n], selected) {
        selected := selected + [ranked[n]];
      }
    }
    merged := Sort(selected, ByOffset);
    if AllNonEmpty(candidates) { MergedIsSelection(candidates); }
  }

  // ---- the order-free description ----

  predicate AllNonEmpty(s: seq<CandidateSpan>) { forall i :: 0 <= i < |s| ==> s[i].start < s[i].end }

  /** A candidate without its entity type. */
  function Core(c: CandidateSpan): CandidateSpan { c.(entityType := "") }

  function Cores(s: seq<CandidateSpan>): seq<CandidateSpan> { seq(|s|, i requires 0 <= i < |s| => Core(s[i])) }

  /** `a` outranks `b`, or ranks the same and starts later. */
  predicate Before(a: CandidateSpan, b: CandidateSpan) {
    RankGeq(a, b) && (!RankGeq(b, a) || a.start > b.start)
  }

  ghost function CoreSet(s: seq<CandidateSpan>): set<CandidateSpan> {
    set i | 0 <= i < |s| :: Core(s[i])
  }

  /** `r` contains `c`, up to its entity type. */
  ghost predicate Kept(r: seq<CandidateSpan>, c: CandidateSpan) { Core(c) in CoreSet(r) }

  /** No kept candidate earlier in the order overlaps `c`. */
  ghost predicate Unblocked(r: seq<CandidateSpan>, c: CandidateSpan) {
    forall i :: 0 <= i < |r| && Before(r[i], c) ==> Apart(r[i], c)
  }

  ghost predicate Disjoint(r: seq<CandidateSpan>) {
    forall i, j :: 0 <= i < j < |r| ==> r[i].end <= r[j].start
  }

  /** A sorted, disjoint choice that keeps a candidate exactly when nothing kept before it is in the way. */
  ghost predicate Selection(r: seq<CandidateSpan>, candidates: seq<CandidateSpan>) {
    && (forall i :: 0 <= i < |r| ==> r[i] in candidates)
    && Disjoint(r)
    && (forall c :: c in candidates ==> (Kept(r, c) <==> Unblocked(r, c)))
  }

  // ---- the orders ----

  lemma RankOrder()
    ensures TotalPreorder(RankGeq)
  {
    forall x, y ensures RankGeq(x, y) || RankGeq(y, x) { StrLeqTotal(x.detector, y.detector); }
    forall x, y, z | RankGeq(x, y) && RankGeq(y, z) ensures RankGeq(x, z) {
      if StrLeq(z.detector, y.detector) && StrLeq(y.detector, x.detector) {
        StrLeqTransitive(z.detector, y.detector, x.detector);
      }
    }
  }

  /** Candidates of equal rank and start differ at most in entity type. */
  lemma SameRankAndStart(a: CandidateSpan, b: CandidateSpan)
    requires RankGeq(a, b) && RankGeq(b, a) && a.start == b.start
    ensures Core(a) == Core(b)
  {
    StrLeqTotal(a.detector, b.detector);
  }

  /** The position in the ranked list decides `Before`, and ties follow any order `rel` of the input. */
  lemma RankedOrder(candidates: seq<CandidateSpan>, rel: (CandidateSpan, CandidateSpan) -> bool, i: nat, j: nat)
    requires Pairwise(candidates, rel) && i < j < |Ranked(candidates)|
    ensures var a, b := Ranked(candidates)[i], Ranked(candidates)[j];
            !Before(b, a) && (Before(a, b) || (Core(a) == Core(b) && rel(a, b)))
  {
    RankOrder();
    var both := (a, b) => LaterStart(a, b) && (LaterStart(b, a) ==> rel(a, b));
    SortStable(candidates, LaterStart, rel);
    var byStart := Sort(candidates, LaterStart);
    assert forall i, j :: 0 <= i < j < |byStart| ==> both(byStart[i], byStart[j]);
    SortStable(byStart, RankGeq, both);
    var a, b := Ranked(candidates)[i], Ranked(candidates)[j];
    assert RankGeq(a, b) && (RankGeq(b, a) ==> both(a, b));
    if RankGeq(b, a) && a.start == b.start { SameRankAndStart(a, b); }
  }

  lemma RankedElements(candidates: seq<CandidateSpan>, c: CandidateSpan)
    ensures c in Ranked(candidates) <==> c in candidates
  {
    SortSameElements(candidates, LaterStart, c);
    SortSameElements(Sort(candidates, LaterStart), RankGeq, c);
  }

  // ---- the greedy choice ----

  lemma {:induction false} ChosenFrom(ranked: seq<CandidateSpan>, n: nat, i: nat)
    requires n <= |ranked| && i < |Chosen(ranked, n)|
    ensures exists k :: 0 <= k < n && ranked[k] == Chosen(ranked, n)[i]
  {
    var selected := Chosen(ranked, n - 1);
    if i < |selected| {
      ChosenFrom(ranked, n - 1, i);
      var k :| 0 <= k < n - 1 && ranked[k] == selected[i];
      assert ranked[k] == Chosen(ranked, n)[i];
    } else {
      assert ranked[n - 1] == Chosen(ranked, n)[i];
    }
  }

  lemma {:induction false} ChosenGrows(ranked: seq<CandidateSpan>, n: nat, m: nat)
    requires n <= m <= |ranked|
    ensures Chosen(ranked, n) <= Chosen(ranked, m)
    decreases m
  {
    if n < m { ChosenGrows(ranked, n, m - 1); }
  }

  lemma {:induction false} ChosenApart(ranked: seq<CandidateSpan>, n: nat)
    requires n <= |ranked|
    ensures Pairwise(Chosen(ranked, n), Apart)
  {
    if n > 0 { ChosenApart(ranked, n - 1); }
  }

  lemma MergedElements(candidates: seq<CandidateSpan>, c: CandidateSpan)
    ensures c in Merged(candidates) <==> c in Chosen(Ranked(candidates), |Ranked(candidates)|)
  {
    SortSameElements(Chosen(Ranked(candidates), |Ranked(candidates)|), ByOffset, c);
  }

  lemma MergedFromInput(candidates: seq<CandidateSpan>, c: CandidateSpan)
    requires c in Merged(candidates)
    ensures c in candidates
  {
    MergedElements(candidates, c);
    var ranked := Ranked(candidates);
    var i :| 0 <= i < |Chosen(ranked, |ranked|)| && Chosen(ranked, |ranked|)[i] == c;
    ChosenFrom(ranked, |ranked|, i);
    RankedElements(candidates, c);
  }

  lemma MergedDisjoint(candidates: seq<CandidateSpan>)
    requires AllNonEmpty(candidates)
    ensures Disjoint(Merged(candidates))
  {
    var ranked := Ranked(candidates);
    var r := Merged(candidates);
    ChosenApart(ranked, |ranked|);
    SortPairwise(Chosen(ranked, |ranked|), ByOffset, Apart);
    SortSorted(Chosen(ranked, |ranked|), ByOffset);
    forall i, j | 0 <= i < j < |r| ensures r[i].end <= r[j].start {
      assert Apart(r[i], r[j]) && ByOffset(r[i], r[j]);
      assert r[i] in r && r[j] in r;
      MergedFromInput(candidates, r[i]);
      MergedFromInput(candidates, r[j]);
    }
  }

  /** A candidate with nothing kept before it in the way is kept. */
  lemma UnblockedIsKept(candidates: seq<CandidateSpan>, c: CandidateSpan)
    requires c in candidates && Unblocked(Merged(candidates), c)
    ensures Kept(Merged(candidates), c)
  {
    var ranked, r := Ranked(candidates), Merged(candidates);
    RankedElements(candidates, c);
    var i: nat :| i < |ranked| && ranked[i] == c;
    var kept: CandidateSpan;
    if Clear(c, Chosen(ranked, i)) {
      kept := c;
      ChosenGrows(ranked, i + 1, |ranked|);
      assert c == Chosen(ranked, i + 1)[|Chosen(ranked, i)|];
    } else {
      var k: nat :| k < |Chosen(ranked, i)| && !Apart(c, Chosen(ranked, i)[k]);
      kept := Chosen(ranked, i)[k];
      ChosenFrom(ranked, i, k);
      var l: nat :| l < i && ranked[l] == kept;
      RankedOrder(candidates, (a, b) => true, l, i);
      ChosenGrows(ranked, i, |ranked|);
    }
    assert kept in Chosen(ranked, |ranked|);
    MergedElements(candidates, kept);
    var m :| 0 <= m < |r| && r[m] == kept;
    assert Core(r[m]) == Core(c);
  }

  lemma KeptIsUnblocked(candidates: seq<CandidateSpan>, c: CandidateSpan)
    requires AllNonEmpty(candidates) && Kept(Merged(candidates), c)
    ensures Unblocked(Merged(candidates), c)
  {
    var r := Merged(candidates);
    var i :| 0 <= i < |r| && Core(r[i]) == Core(c);
    MergedDisjoint(candidates);
    forall j | 0 <= j < |r| && Before(r[j], c) ensures Apart(r[j], c) {
      assert Before(r[j], c) == Before(r[j], r[i]);
      assert j < i ==> r[j].end <= r[i].start;
      assert i < j ==> r[i].end <= r[j].start;
    }
  }

  lemma MergedIsSelection(candidates: seq<CandidateSpan>)
    requires AllNonEmpty(candidates)
    ensures Selection(Merged(candidates), candidates)
  {
    var r := Merged(candidates);
    forall i | 0 <= i < |r| ensures r[i] in candidates {
      assert r[i] in r;
      MergedFromInput(candidates, r[i]);
    }
    MergedDisjoint(candidates);
    forall c | c in candidates ensures Kept(r, c) <==> Unblocked(r, c) {
      if Kept(r, c) { KeptIsUnblocked(candidates, c); }
      if Unblocked(r, c) { UnblockedIsKept(candidates, c); }
    }
  }

  /** Every rejected candidate overlaps a kept one that comes before it. */
  lemma RejectedOverlapsKept(candidates: seq<CandidateSpan>, c: CandidateSpan)
    requires AllNonEmpty(candidates) && c in candidates && !Kept(Merged(candidates), c)
    ensures exists r :: r in Merged(candidates) && RankGeq(r, c) && !Apart(r, c)
  {
    MergedIsSelection(candidates);
    var r := Merged(candidates);
    var i :| 0 <= i < |r| && Before(r[i], c) && !Apart(r[i], c);
    assert r[i] in r;
  }

  /** The two spans share a position of the text. */
  predicate Overlap(a: CandidateSpan, b: CandidateSpan) { a.start < b.end && b.start < a.end }

  /** They differ at most in entity type. */
  predicate SameButType(a: CandidateSpan, b: CandidateSpan) {
    && a.start == b.start && a.end == b.end && a.confidence == b.confidence && a.specificity == b.specificity
    && a.detector == b.detector
  }

  /** `a` is surer; or as sure and more specific; or also as specific and longer; and so on to name and start. */
  predicate Beats(a: CandidateSpan, b: CandidateSpan) {
    || a.confidence > b.confidence
    || (a.confidence == b.confidence && a.specificity > b.specificity)
    || (a.confidence == b.confidence && a.specificity == b.specificity && a.end - a.start > b.end - b.start)
    || (a.confidence == b.confidence && a.specificity == b.specificity && a.end - a.start == b.end - b.start
        && a.detector != b.detector && StrLeq(b.detector, a.detector))
    || (a.confidence == b.confidence && a.specificity == b.specificity && a.end - a.start == b.end - b.start
        && a.detector == b.detector && a.start > b.start)
  }

  /** Every candidate is kept, up to its entity type, or overlaps a kept one that beats it in these fields. */
  lemma RejectedIsBeaten(candidates: seq<CandidateSpan>, c: CandidateSpan)
    requires AllNonEmpty(candidates) && c in candidates
    ensures (exists r :: r in Merged(candidates) && SameButType(r, c))
            || exists r :: r in Merged(candidates) && Overlap(r, c) && Beats(r, c)
  {
    MergedIsSelection(candidates);
    var kept := Merged(candidates);
    if Kept(kept, c) {
      var i :| 0 <= i < |kept| && Core(kept[i]) == Core(c);
      assert SameButType(kept[i], c);
    } else {
      var i :| 0 <= i < |kept| && Before(kept[i], c) && !Apart(kept[i], c);
      StrLeqTotal(kept[i].detector, c.detector);
      assert kept[i] in kept && Overlap(kept[i], c) && Beats(kept[i], c);
    }
  }

  /** So a candidate that beats whatever it overlaps is kept. */
  lemma UnbeatenIsKept(candidates: seq<CandidateSpan>, c: CandidateSpan)
    requires AllNonEmpty(candidates) && c in candidates
    requires forall d :: d in candidates && Overlap(d, c) ==> !Beats(d, c)
    ensures exists r :: r in Merged(candidates) && SameButType(r, c)
  {
    RejectedIsBeaten(candidates, c);
    forall r | r in Merged(candidates) ensures r in candidates { MergedFromInput(candidates, r); }
  }

  // ---- the description determines the result ----

  /** What blocks a candidate in one selection blocks it in the other, given agreement on earlier candidates. */
  lemma BlockerCarriesOver(
    r1: seq<CandidateSpan>, r2: seq<CandidateSpan>, c1: seq<CandidateSpan>, i: nat, c: CandidateSpan)
    requires i < |Ranked(c1)| && c == Ranked(c1)[i]
    requires CoreSet(r1) <= CoreSet(c1)
    requires forall k :: 0 <= k < i ==> (Kept(r1, Ranked(c1)[k]) <==> Kept(r2, Ranked(c1)[k]))
    requires !Unblocked(r1, c)
    ensures !Unblocked(r2, c)
  {
    var k :| 0 <= k < |r1| && Before(r1[k], c) && !Apart(r1[k], c);
    assert Core(r1[k]) in CoreSet(c1);
    var m :| 0 <= m < |c1| && Core(c1[m]) == Core(r1[k]);
    var b := c1[m];
    assert Before(b, c) && !Apart(b, c);
    RankedElements(c1, b);
    var n: nat :| n < |Ranked(c1)| && Ranked(c1)[n] == b;
    if i < n { RankedOrder(c1, (x, y) => true, i, n); }
    assert n < i && Kept(r1, b);
    assert Kept(r2, b);
    var l :| 0 <= l < |r2| && Core(r2[l]) == Core(b);
    assert Before(r2[l], c) && !Apart(r2[l], c);
  }

  lemma CoreDecides(r: seq<CandidateSpan>, a: CandidateSpan, b: CandidateSpan)
    requires Core(a) == Core(b)
    ensures Kept(r, a) == Kept(r, b) && Unblocked(r, a) == Unblocked(r, b)
  {
    forall i | 0 <= i < |r|
      ensures Before(r[i], a) == Before(r[i], b) && Apart(r[i], a) == Apart(r[i], b)
    {
    }
  }

  lemma KeptMember(r: seq<CandidateSpan>, c: CandidateSpan)
    requires c in r
    ensures Kept(r, c)
  {
    var i :| 0 <= i < |r| && r[i] == c;
  }

  lemma SubsetCores(a: seq<CandidateSpan>, b: seq<CandidateSpan>)
    requires forall i :: 0 <= i < |a| ==> a[i] in b
    ensures CoreSet(a) <= CoreSet(b)
  {
    forall i | 0 <= i < |a| ensures Core(a[i]) in CoreSet(b) { KeptMember(b, a[i]); }
  }

  /** In a selection a candidate's core is kept exactly when it is unblocked, whichever candidate carries it. */
  lemma KeptIffUnblocked(r: seq<CandidateSpan>, candidates: seq<CandidateSpan>, c: CandidateSpan)
    requires Selection(r, candidates) && Kept(candidates, c)
    ensures Kept(r, c) <==> Unblocked(r, c)
  {
    var m :| 0 <= m < |candidates| && Core(candidates[m]) == Core(c);
    CoreDecides(r, candidates[m], c);
  }

  lemma {:induction false} AgreeOnKept(
    r1: seq<CandidateSpan>, c1: seq<CandidateSpan>, r2: seq<CandidateSpan>, c2: seq<CandidateSpan>, i: nat)
    requires Selection(r1, c1) && Selection(r2, c2) && CoreSet(c1) == CoreSet(c2) && i <= |Ranked(c1)|
    ensures forall k :: 0 <= k < i ==> (Kept(r1, Ranked(c1)[k]) <==> Kept(r2, Ranked(c1)[k]))
  {
    if i > 0 {
      AgreeOnKept(r1, c1, r2, c2, i - 1);
      var c := Ranked(c1)[i - 1];
      RankedElements(c1, c);
      KeptMember(c1, c);
      KeptIffUnblocked(r1, c1, c);
      KeptIffUnblocked(r2, c2, c);
      SubsetCores(r1, c1);
      SubsetCores(r2, c2);
      if !Unblocked(r1, c) { BlockerCarriesOver(r1, r2, c1, i - 1, c); }
      if !Unblocked(r2, c) { BlockerCarriesOver(r2, r1, c1, i - 1, c); }
    }
  }

  lemma FirstStartsFirst(r1: seq<CandidateSpan>, r2: seq<CandidateSpan>)
    requires r1 != [] && AllNonEmpty(r1) && Disjoint(r1) && CoreSet(r2) <= CoreSet(r1) && r2 != []
    ensures r1[0].start <= r2[0].start
  {
    assert Core(r2[0]) in CoreSet(r1);
    var j :| 0 <= j < |r1| && Core(r1[j]) == Core(r2[0]);
  }

  lemma HeadsEqual(r1: seq<CandidateSpan>, r2: seq<CandidateSpan>)
    requires AllNonEmpty(r1) && AllNonEmpty(r2) && Disjoint(r1) && Disjoint(r2) && CoreSet(r1) == CoreSet(r2)
    requires r1 != [] && r2 != []
    ensures Core(r1[0]) == Core(r2[0])
  {
    FirstStartsFirst(r1, r2);
    FirstStartsFirst(r2, r1);
    assert Core(r2[0]) in CoreSet(r1);
    var j :| 0 <= j < |r1| && Core(r1[j]) == Core(r2[0]);
  }

  lemma TailCores(r: seq<CandidateSpan>)
    requires AllNonEmpty(r) && Disjoint(r) && r != []
    ensures CoreSet(r[1..]) == CoreSet(r) - {Core(r[0])}
  {
    forall i | 1 <= i < |r| ensures Core(r[i]) != Core(r[0]) && Core(r[i]) in CoreSet(r[1..]) {
      assert r[1..][i - 1] == r[i];
    }
    forall i | 0 <= i < |r[1..]| ensures Core(r[1..][i]) in CoreSet(r) { assert r[i + 1] == r[1..][i]; }
  }

  lemma {:induction false} SortedSameCores(r1: seq<CandidateSpan>, r2: seq<CandidateSpan>)
    requires AllNonEmpty(r1) && AllNonEmpty(r2) && Disjoint(r1) && Disjoint(r2) && CoreSet(r1) == CoreSet(r2)
    ensures Cores(r1) == Cores(r2)
  {
    assert r1 != [] ==> Core(r1[0]) in CoreSet(r1);
    assert r2 != [] ==> Core(r2[0]) in CoreSet(r2);
    if r1 != [] {
      HeadsEqual(r1, r2);
      TailCores(r1);
      TailCores(r2);
      SortedSameCores(r1[1..], r2[1..]);
      assert Cores(r1) == [Core(r1[0])] + Cores(r1[1..]);
      assert Cores(r2) == [Core(r2[0])] + Cores(r2[1..]);
    }
  }

  lemma KeptCarriesOver(r1: seq<CandidateSpan>, c1: seq<CandidateSpan>, r2: seq<CandidateSpan>)
    requires CoreSet(r1) <= CoreSet(c1)
    requires forall k :: 0 <= k < |Ranked(c1)| ==> (Kept(r1, Ranked(c1)[k]) ==> Kept(r2, Ranked(c1)[k]))
    ensures CoreSet(r1) <= CoreSet(r2)
  {
    forall x | x in CoreSet(r1) ensures x in CoreSet(r2) {
      var m :| 0 <= m < |c1| && Core(c1[m]) == x;
      RankedElements(c1, c1[m]);
      var k :| 0 <= k < |Ranked(c1)| && Ranked(c1)[k] == c1[m];
      assert Kept(r1, Ranked(c1)[k]);
    }
  }

  /** Two selections from candidates with the same cores have the same cores, in the same order. */
  lemma SelectionUnique(r1: seq<CandidateSpan>, c1: seq<CandidateSpan>, r2: seq<CandidateSpan>, c2: seq<CandidateSpan>)
    requires AllNonEmpty(c1) && AllNonEmpty(c2) && CoreSet(c1) == CoreSet(c2)
    requires Selection(r1, c1) && Selection(r2, c2)
    ensures Cores(r1) == Cores(r2)
  {
    AgreeOnKept(r1, c1, r2, c2, |Ranked(c1)|);
    SubsetCores(r1, c1);
    SubsetCores(r2, c2);
    KeptCarriesOver(r1, c1, r2);
    KeptCarriesOver(r2, c1, r1);
    SelectedNonEmpty(r1, c1);
    SelectedNonEmpty(r2, c2);
    SortedSameCores(r1, r2);
  }

  lemma SelectedNonEmpty(r: seq<CandidateSpan>, candidates: seq<CandidateSpan>)
    requires Selection(r, candidates) && AllNonEmpty(candidates)
    ensures AllNonEmpty(r)
  {
    forall i | 0 <= i < |r| ensures r[i].start < r[i].end { assert r[i] in candidates; }
  }

  lemma PermutationSameCores(a: seq<CandidateSpan>, b: seq<CandidateSpan>)
    requires multiset(a) == multiset(b)
    ensures CoreSet(a) == CoreSet(b) && (AllNonEmpty(a) ==> AllNonEmpty(b))
  {
    forall i | 0 <= i < |a| ensures a[i] in b { assert a[i] in multiset(b); }
    forall i | 0 <= i < |b| ensures b[i] in a { assert b[i] in multiset(a); }
    SubsetCores(a, b);
    SubsetCores(b, a);
  }

  /** The order of the candidates does not matter, up to entity types. */
  lemma MergeIgnoresOrder(a: seq<CandidateSpan>, b: seq<CandidateSpan>)
    requires AllNonEmpty(a) && multiset(a) == multiset(b)
    ensures Cores(Merged(a)) == Cores(Merged(b))
  {
    PermutationSameCores(a, b);
    MergedIsSelection(a);
    MergedIsSelection(b);
    SelectionUnique(Merged(a), a, Merged(b), b);
  }

  /** Disjoint candidates all survive. */
  lemma DisjointIsSelection(r: seq<CandidateSpan>)
    requires AllNonEmpty(r) && Disjoint(r)
    ensures Selection(r, r)
  {
    forall c | c in r ensures Kept(r, c) && Unblocked(r, c) {
      KeptMember(r, c);
      var i :| 0 <= i < |r| && r[i] == c;
      forall j | 0 <= j < |r| && Before(r[j], c) ensures Apart(r[j], c) {
        assert j < i ==> r[j].end <= r[i].start;
      }
    }
  }

  /** Equal cores, and both lists taken from candidates where a core has one entity type, means equal lists. */
  lemma CoresDetermine(a: seq<CandidateSpan>, b: seq<CandidateSpan>)
    requires Cores(a) == Cores(b)
    requires forall i, j :: 0 <= i < |a| && 0 <= j < |b| && Core(a[i]) == Core(b[j]) ==> a[i] == b[j]
    ensures a == b
  {
    assert |a| == |Cores(a)| == |Cores(b)| == |b|;
    forall i | 0 <= i < |a| ensures a[i] == b[i] {
      assert Cores(a)[i] == Core(a[i]) && Cores(b)[i] == Core(b[i]);
    }
  }

  /** In a disjoint list a core determines the element. */
  lemma CoreIsUnique(r: seq<CandidateSpan>, a: CandidateSpan, b: CandidateSpan)
    requires AllNonEmpty(r) && Disjoint(r) && a in r && b in r && Core(a) == Core(b)
    ensures a == b
  {
    var i :| 0 <= i < |r| && r[i] == a;
    var j :| 0 <= j < |r| && r[j] == b;
  }

  /** Merging twice changes nothing. */
  lemma MergeIdempotent(candidates: seq<CandidateSpan>)
    requires AllNonEmpty(candidates)
    ensures Merged(Merged(candidates)) == Merged(candidates)
  {
    var r := Merged(candidates);
    MergedIsSelection(candidates);
    SelectedNonEmpty(r, candidates);
    DisjointIsSelection(r);
    MergedIsSelection(r);
    SelectionUnique(Merged(r), r, r, r);
    var r' := Merged(r);
    forall i, j | 0 <= i < |r'| && 0 <= j < |r| && Core(r'[i]) == Core(r[j]) ensures r'[i] == r[j] {
      CoreIsUnique(r, r'[i], r[j]);
    }
    CoresDetermine(r', r);
  }

  // ---- entity types: exactly when the order of the candidates is irrelevant ----

  /** No rejected candidate differs from a kept one in its entity type alone. */
  ghost predicate TypesSettled(candidates: seq<CandidateSpan>) {
    forall c, r :: c in candidates && r in Merged(candidates) && Core(c) == Core(r) ==> c == r
  }

  /** Two candidates differ only in entity type. A caller can check this beforehand. */
  predicate HasTwins(candidates: seq<CandidateSpan>) {
    exists c, d :: c in candidates && d in candidates && Core(c) == Core(d) && c != d
  }

  ghost predicate OrderIrrelevant(candidates: seq<CandidateSpan>) {
    forall p: seq<CandidateSpan> :: multiset(p) == multiset(candidates) ==> Merged(p) == Merged(candidates)
  }

  /** The candidates with every copy of `c` moved to the front. */
  function Fronted(s: seq<CandidateSpan>, c: CandidateSpan): seq<CandidateSpan> {
    if s == [] then [] else if s[0] == c then [c] + Fronted(s[1..], c) else Fronted(s[1..], c) + [s[0]]
  }

  lemma {:induction false} FrontedKeeps(s: seq<CandidateSpan>, c: CandidateSpan)
    ensures multiset(Fronted(s, c)) == multiset(s)
    ensures Pairwise(Fronted(s, c), (a, b) => b == c ==> a == c)
  {
    if s != [] {
      FrontedKeeps(s[1..], c);
      assert s == [s[0]] + s[1..];
    }
  }

  /** Among candidates with the same core, the first in the input is the one kept. */
  lemma FrontedIsKept(candidates: seq<CandidateSpan>, c: CandidateSpan, d: CandidateSpan)
    requires AllNonEmpty(candidates) && c in candidates
    requires Pairwise(candidates, (a, b) => b == c ==> a == c)
    requires d in Merged(candidates) && Core(d) == Core(c)
    ensures d == c
  {
    var ranked := Ranked(candidates);
    var n := |ranked|;
    RankedElements(candidates, c);
    var i: nat :| i < n && ranked[i] == c;
    ConsideredOverlaps(ranked, i);
    var l: nat :| l < |Chosen(ranked, i + 1)| && !Apart(c, Chosen(ranked, i + 1)[l]);
    var x := Chosen(ranked, i + 1)[l];
    ChosenGrows(ranked, i + 1, n);
    MergedElements(candidates, d);
    assert x == Chosen(ranked, n)[l];
    ChosenOverlap(ranked, n, x, d);
    ChosenFrom(ranked, i + 1, l);
    var m: nat :| m < i + 1 && ranked[m] == d;
    if m < i { RankedOrder(candidates, (a, b) => b == c ==> a == c, m, i); }
  }

  lemma ChosenOverlap(ranked: seq<CandidateSpan>, n: nat, a: CandidateSpan, b: CandidateSpan)
    requires n <= |ranked| && a in Chosen(ranked, n) && b in Chosen(ranked, n) && !Apart(a, b)
    ensures a == b
  {
    ChosenApart(ranked, n);
    var i :| 0 <= i < |Chosen(ranked, n)| && Chosen(ranked, n)[i] == a;
    var j :| 0 <= j < |Chosen(ranked, n)| && Chosen(ranked, n)[j] == b;
  }

  /** After considering a non-empty candidate something chosen overlaps it. */
  lemma ConsideredOverlaps(ranked: seq<CandidateSpan>, i: nat)
    requires i < |ranked| && ranked[i].start < ranked[i].end
    ensures !Clear(ranked[i], Chosen(ranked, i + 1))
  {
    if Clear(ranked[i], Chosen(ranked, i)) {
      assert Chosen(ranked, i + 1)[|Chosen(ranked, i)|] == ranked[i];
    }
  }

  /** The merged spans, entity types included, are the same for every order of the input exactly then. */
  lemma OrderIrrelevantExactly(candidates: seq<CandidateSpan>)
    requires AllNonEmpty(candidates)
    ensures OrderIrrelevant(candidates) <==> TypesSettled(candidates)
  {
    if TypesSettled(candidates) {
      forall p: seq<CandidateSpan> | multiset(p) == multiset(candidates) ensures Merged(p) == Merged(candidates) {
        MergeIgnoresOrder(candidates, p);
        forall i, j | 0 <= i < |Merged(p)| && 0 <= j < |Merged(candidates)|
                      && Core(Merged(p)[i]) == Core(Merged(candidates)[j])
          ensures Merged(p)[i] == Merged(candidates)[j]
        {
          MergedFromInput(p, Merged(p)[i]);
          assert Merged(p)[i] in multiset(candidates);
        }
        CoresDetermine(Merged(p), Merged(candidates));
      }
    } else {
      var c, r :| c in candidates && r in Merged(candidates) && Core(c) == Core(r) && c != r;
      var p := Fronted(candidates, c);
      FrontedKeeps(candidates, c);
      PermutationSameCores(candidates, p);
      assert c in multiset(p);
      if Merged(p) == Merged(candidates) { FrontedIsKept(p, c, r); }
    }
  }

  /** Without such twins the order of the input never matters. */
  lemma NoTwinsSettled(candidates: seq<CandidateSpan>)
    requires AllNonEmpty(candidates) && !HasTwins(candidates)
    ensures TypesSettled(candidates) && OrderIrrelevant(candidates)
  {
    forall c, r | c in candidates && r in Merged(candidates) && Core(c) == Core(r) ensures c == r {
      MergedFromInput(candidates, r);
    }
    OrderIrrelevantExactly(candidates);
  }
}
