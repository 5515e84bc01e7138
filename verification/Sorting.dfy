/** Python's stable `sorted`, for any total preorder given as "may come before". */
module Sorting {

  ghost predicate TotalPreorder<T(!new)>(leq: (T, T) -> bool) {
    && (forall x, y :: leq(x, y) || leq(y, x))
    && (forall x, y, z :: leq(x, y) && leq(y, z) ==> leq(x, z))
  }

  ghost predicate Sorted<T>(s: seq<T>, leq: (T, T) -> bool) {
    forall i, j :: 0 <= i < j < |s| ==> leq(s[i], s[j])
  }

  function Insert<T>(x: T, s: seq<T>, leq: (T, T) -> bool): seq<T> {
    if s == [] || leq(x, s[0]) then [x] + s else [s[0]] + Insert(x, s[1..], leq)
  }

  function Sort<T>(s: seq<T>, leq: (T, T) -> bool): seq<T> {
    if s == [] then [] else Insert(s[0], Sort(s[1..], leq), leq)
  }

  lemma {:induction false} InsertKeeps<T>(x: T, s: seq<T>, leq: (T, T) -> bool)
    ensures multiset(Insert(x, s, leq)) == multiset(s) + multiset{x}
    ensures |Insert(x, s, leq)| == |s| + 1
  {
    if s == [] || leq(x, s[0]) {
    } else {
      InsertKeeps(x, s[1..], leq);
      assert s == [s[0]] + s[1..];
    }
  }

  lemma {:induction false} SortKeeps<T>(s: seq<T>, leq: (T, T) -> bool)
    ensures multiset(Sort(s, leq)) == multiset(s)
    ensures |Sort(s, leq)| == |s|
  {
    if s != [] {
      SortKeeps(s[1..], leq);
      InsertKeeps(s[0], Sort(s[1..], leq), leq);
      assert s == [s[0]] + s[1..];
    }
  }

  lemma SortSameElements<T>(s: seq<T>, leq: (T, T) -> bool, x: T)
    ensures x in Sort(s, leq) <==> x in s
  {
    SortKeeps(s, leq);
    assert x in multiset(Sort(s, leq)) <==> x in multiset(s);
  }

  /** Sorting a sorted list returns it unchanged: ties keep their order. */
  lemma {:induction false} SortOfSorted<T>(s: seq<T>, leq: (T, T) -> bool)
    requires Sorted(s, leq)
    ensures Sort(s, leq) == s
  {
    if s != [] {
      assert Sorted(s[1..], leq);
      SortOfSorted(s[1..], leq);
      assert |s| > 1 ==> leq(s[0], s[1]) && s[1..][0] == s[1];
    }
  }

  /** Sorted, and elements that compare equal are related by `rel` in the order they appear. */
  ghost predicate SortedStably<T(!new)>(s: seq<T>, leq: (T, T) -> bool, rel: (T, T) -> bool) {
    forall i, j :: 0 <= i < j < |s| ==> leq(s[i], s[j]) && (leq(s[j], s[i]) ==> rel(s[i], s[j]))
  }

  ghost predicate StaysFirst<T(!new)>(x: T, s: seq<T>, leq: (T, T) -> bool, rel: (T, T) -> bool) {
    forall j :: 0 <= j < |s| ==> leq(x, s[j]) && (leq(s[j], x) ==> rel(x, s[j]))
  }

  lemma {:induction false} InsertStable<T(!new)>(x: T, s: seq<T>, leq: (T, T) -> bool, rel: (T, T) -> bool)
    requires TotalPreorder(leq) && SortedStably(s, leq, rel) && forall y :: y in s ==> rel(x, y)
    ensures SortedStably(Insert(x, s, leq), leq, rel)
  {
    if s == [] || leq(x, s[0]) {
      forall j | 0 <= j < |s| ensures leq(x, s[j]) && rel(x, s[j]) {
        assert s[j] in s;
        if j > 0 { assert leq(s[0], s[j]); }
      }
      StableCons(x, s, leq, rel);
    } else {
      InsertStable(x, s[1..], leq, rel);
      InsertedAfterHead(x, s, leq, rel);
      StableCons(s[0], Insert(x, s[1..], leq), leq, rel);
    }
  }

  lemma StableCons<T(!new)>(x: T, s: seq<T>, leq: (T, T) -> bool, rel: (T, T) -> bool)
    requires SortedStably(s, leq, rel)
    requires StaysFirst(x, s, leq, rel)
    ensures SortedStably([x] + s, leq, rel)
  {
  }

  lemma InsertedAfterHead<T(!new)>(x: T, s: seq<T>, leq: (T, T) -> bool, rel: (T, T) -> bool)
    requires TotalPreorder(leq) && SortedStably(s, leq, rel) && s != [] && !leq(x, s[0])
    ensures StaysFirst(s[0], Insert(x, s[1..], leq), leq, rel)
  {
    var t := Insert(x, s[1..], leq);
    InsertKeeps(x, s[1..], leq);
    forall j | 0 <= j < |t| ensures leq(s[0], t[j]) && (leq(t[j], s[0]) ==> rel(s[0], t[j])) {
      assert t[j] in multiset(t);
      if t[j] in s[1..] {
        var k :| 0 <= k < |s[1..]| && s[1..][k] == t[j];
        assert s[k + 1] == t[j];
      }
    }
  }

  /** Stability: a relation that holds between all earlier and later elements survives between equal ones. */
  lemma {:induction false} SortStable<T(!new)>(s: seq<T>, leq: (T, T) -> bool, rel: (T, T) -> bool)
    requires TotalPreorder(leq) && forall i, j :: 0 <= i < j < |s| ==> rel(s[i], s[j])
    ensures SortedStably(Sort(s, leq), leq, rel)
  {
    if s != [] {
      SortStable(s[1..], leq, rel);
      forall y | y in Sort(s[1..], leq) ensures rel(s[0], y) {
        SortSameElements(s[1..], leq, y);
        var k :| 0 <= k < |s[1..]| && s[1..][k] == y;
        assert s[k + 1] == y;
      }
      InsertStable(s[0], Sort(s[1..], leq), leq, rel);
    }
  }

  lemma SortSorted<T(!new)>(s: seq<T>, leq: (T, T) -> bool)
    requires TotalPreorder(leq)
    ensures Sorted(Sort(s, leq), leq)
  {
    SortStable(s, leq, (a, b) => true);
  }

  ghost predicate Pairwise<T>(s: seq<T>, rel: (T, T) -> bool) {
    forall i, j :: 0 <= i < j < |s| ==> rel(s[i], s[j])
  }

  lemma {:induction false} InsertPairwise<T>(x: T, s: seq<T>, leq: (T, T) -> bool, rel: (T, T) -> bool)
    requires Pairwise(s, rel) && forall y :: y in s ==> rel(x, y) && rel(y, x)
    ensures Pairwise(Insert(x, s, leq), rel)
  {
    if s == [] || leq(x, s[0]) {
    } else {
      var t := Insert(x, s[1..], leq);
      InsertPairwise(x, s[1..], leq, rel);
      InsertKeeps(x, s[1..], leq);
      forall j | 0 <= j < |t| ensures rel(s[0], t[j]) {
        assert t[j] in multiset(t);
        if t[j] in s[1..] {
          var k :| 0 <= k < |s[1..]| && s[1..][k] == t[j];
          assert s[k + 1] == t[j];
        }
      }
    }
  }

  /** A symmetric relation between all positions survives sorting. */
  lemma {:induction false} SortPairwise<T>(s: seq<T>, leq: (T, T) -> bool, rel: (T, T) -> bool)
    requires Pairwise(s, rel) && forall x, y :: x in s && y in s && rel(x, y) ==> rel(y, x)
    ensures Pairwise(Sort(s, leq), rel)
  {
    if s != [] {
      SortPairwise(s[1..], leq, rel);
      forall y | y in Sort(s[1..], leq) ensures rel(s[0], y) && rel(y, s[0]) {
        SortSameElements(s[1..], leq, y);
        var k :| 0 <= k < |s[1..]| && s[1..][k] == y;
        assert s[k + 1] == y && s[0] in s && y in s;
      }
      InsertPairwise(s[0], Sort(s[1..], leq), leq, rel);
    }
  }

  /** The head of a sorted list is the first of the elements that may come before all others. */
  lemma {:induction false} SortHead<T(!new)>(s: seq<T>, leq: (T, T) -> bool) returns (i: nat)
    requires TotalPreorder(leq) && s != []
    ensures i < |s| && Sort(s, leq) != [] && Sort(s, leq)[0] == s[i]
    ensures forall j :: 0 <= j < |s| ==> leq(s[i], s[j])
    ensures forall j :: 0 <= j < i ==> !leq(s[j], s[i])
  {
    if |s| == 1 {
      i := 0;
    } else {
      var k := SortHead(s[1..], leq);
      assert forall j :: 1 <= j < |s| ==> s[j] == s[1..][j - 1];
      i := if leq(s[0], s[k + 1]) then 0 else k + 1;
    }
  }

  function Filter<T>(s: seq<T>, p: T -> bool): seq<T> {
    if s == [] then [] else if p(s[0]) then [s[0]] + Filter(s[1..], p) else Filter(s[1..], p)
  }

  lemma {:induction false} FilterElements<T>(s: seq<T>, p: T -> bool, x: T)
    ensures x in Filter(s, p) <==> x in s && p(x)
  {
    if s != [] { FilterElements(s[1..], p, x); }
  }

  /** Where element `k` of the filtered list comes from; what was filtered in before it stays before it. */
  lemma {:induction false} FilterIndex<T>(s: seq<T>, p: T -> bool, k: nat) returns (i: nat)
    requires k < |Filter(s, p)|
    ensures i < |s| && s[i] == Filter(s, p)[k] && p(s[i])
    ensures forall j :: 0 <= j < i && p(s[j]) ==> s[j] in Filter(s, p)[..k]
  {
    var rest := Filter(s[1..], p);
    if p(s[0]) && k == 0 {
      i := 0;
    } else {
      var k' := if p(s[0]) then k - 1 else k;
      var i' := FilterIndex(s[1..], p, k');
      i := i' + 1;
      forall j | 0 <= j < i && p(s[j]) ensures s[j] in Filter(s, p)[..k] {
        if j > 0 {
          assert s[j] == s[1..][j - 1];
          assert s[j] in rest[..k'];
          if p(s[0]) { assert Filter(s, p)[..k] == [s[0]] + rest[..k']; }
        } else {
          assert Filter(s, p)[0] == s[0];
        }
      }
    }
  }
}
