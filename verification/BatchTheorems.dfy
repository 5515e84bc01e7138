/**
 `restore_text` rewrites one surrogate after the other, longest first. Here it is shown equal to one simultaneous
 pass from left to right that always takes the longest surrogate at hand, and independent of the order of the map
 as long as ties in length are harmless.
 */
module BatchTheorems {
  import opened Outcomes
  import opened Text
  import opened Sorting
  import opened Restore
  import opened StreamTheorems

  /** The longest surrogate that starts `text`. */
  function Pick(text: string, m: seq<Entry>): (p: Option<Entry>)
    ensures p.Some? ==> p.value.surrogate <= text
  {
    if m == [] then None
    else
      var rest := Pick(text, m[1..]);
      if m[0].surrogate <= text && (rest.None? || |m[0].surrogate| >= |rest.value.surrogate|) then Some(m[0]) else rest
  }

  /** The reference: one pass, leftmost-longest, everything at once. */
  function Simultaneous(text: string, m: seq<Entry>): string {
    if text == "" then ""
    else
      match Pick(text, m)
      case None => [text[0]] + Simultaneous(text[1..], m)
      case Some(e) =>
        if e.surrogate == "" then [text[0]] + Simultaneous(text[1..], m)
        else e.original + Simultaneous(text[|e.surrogate|..], m)
  }

  ghost predicate DistinctKeys(m: seq<Entry>) {
    forall i, j :: 0 <= i < j < |m| ==> m[i].surrogate != m[j].surrogate
  }

  /** Edge-inert, and the surrogate does not lie inside the original either. */
  ghost predicate Inert(o: string, s: string) {
    EdgeInert(o, s) && forall i :: !At(o, s, i)
  }

  ghost predicate OriginalsInert(order: seq<Entry>) {
    forall i, j :: 0 <= i < j < |order| ==> Inert(order[i].original, order[j].surrogate)
  }

  /** In `text` no surrogate starts strictly inside an occurrence of one that is rewritten later. */
  ghost predicate NoLateCrossing(text: string, order: seq<Entry>) {
    forall i, j, a, b ::
      0 <= i < j < |order| && At(text, order[i].surrogate, a) && At(text, order[j].surrogate, b)
      ==> !(b < a < b + |order[j].surrogate|)
  }

  // ---- picking ----

  lemma {:induction false} PickIsLongest(text: string, m: seq<Entry>)
    ensures Pick(text, m).None? ==> forall e :: e in m ==> !(e.surrogate <= text)
    ensures Pick(text, m).Some? ==>
              var e := Pick(text, m).value;
              e in m && e.surrogate <= text
              && forall f :: f in m && f.surrogate <= text ==> |f.surrogate| <= |e.surrogate|
  {
    if m != [] {
      PickIsLongest(text, m[1..]);
      assert forall e :: e in m ==> e == m[0] || e in m[1..];
    }
  }

  lemma SamePrefixLength(text: string, a: string, b: string)
    requires a <= text && b <= text && |a| == |b|
    ensures a == b
  {
  }

  lemma SameKeySameEntry(m: seq<Entry>, a: Entry, b: Entry)
    requires DistinctKeys(m) && a in m && b in m && a.surrogate == b.surrogate
    ensures a == b
  {
    var i :| 0 <= i < |m| && m[i] == a;
    var j :| 0 <= j < |m| && m[j] == b;
  }

  /** Adding an entry no longer than the others matters only where none of them starts. */
  lemma {:induction false} PickSnoc(text: string, m: seq<Entry>, e: Entry)
    requires forall i :: 0 <= i < |m| ==> |e.surrogate| <= |m[i].surrogate|
    ensures Pick(text, m + [e]) ==
            if Pick(text, m).Some? then Pick(text, m) else if e.surrogate <= text then Some(e) else None
  {
    if m == [] {
      assert (m + [e])[1..] == [];
    } else {
      PickSnoc(text, m[1..], e);
      PickIsLongest(text, m[1..]);
      assert (m + [e])[1..] == m[1..] + [e];
    }
  }

  /** The pick depends only on which entries there are. */
  lemma PickOrderFree(text: string, m: seq<Entry>, m': seq<Entry>)
    requires DistinctKeys(m) && forall e :: e in m <==> e in m'
    ensures Pick(text, m) == Pick(text, m')
  {
    PickIsLongest(text, m);
    PickIsLongest(text, m');
    if Pick(text, m).Some? {
      var e, e' := Pick(text, m).value, Pick(text, m').value;
      SamePrefixLength(text, e.surrogate, e'.surrogate);
      var i :| 0 <= i < |m| && m[i] == e;
      var j :| 0 <= j < |m| && m[j] == e';
    }
  }

  lemma {:induction false} SimultaneousOrderFree(text: string, m: seq<Entry>, m': seq<Entry>)
    requires DistinctKeys(m) && forall e :: e in m <==> e in m'
    ensures Simultaneous(text, m) == Simultaneous(text, m')
    decreases |text|
  {
    if text != "" {
      PickOrderFree(text, m, m');
      var p := Pick(text, m);
      if p.Some? { PickIsLongest(text, m); }
      SimultaneousOrderFree(if p.None? || p.value.surrogate == "" then text[1..] else text[|p.value.surrogate|..], m,
                            m');
    }
  }

  // ---- one more surrogate ----

  lemma NonePicked(text: string, m: seq<Entry>, a: nat)
    requires a < |text| && forall k :: 0 <= k < |m| ==> !At(text, m[k].surrogate, a)
    ensures Pick(text[a..], m).None?
  {
    PickIsLongest(text[a..], m);
    forall e | e in m ensures !(e.surrogate <= text[a..]) {
      PrefixIsAt(text[a..], e.surrogate);
      AtDrop(text, a, e.surrogate, 0);
    }
  }

  /** Text in which no surrogate starts is copied. */
  lemma {:induction false} CopiesWhereNoneStarts(text: string, m: seq<Entry>, from: nat, to: nat)
    requires from <= to <= |text|
    requires forall k, a :: 0 <= k < |m| && from <= a < to ==> !At(text, m[k].surrogate, a)
    ensures Simultaneous(text[from..], m) == text[from..to] + Simultaneous(text[to..], m)
    decreases |text| - from
  {
    if from < to {
      NonePicked(text, m, from);
      assert text[from..][1..] == text[from + 1..];
      CopiesWhereNoneStarts(text, m, from + 1, to);
      assert text[from..to] == [text[from]] + text[from + 1..to];
      Associative([text[from]], text[from + 1..to], Simultaneous(text[to..], m));
    }
  }

  /** If what is left of a surrogate starts the rewritten text, it started the raw text. */
  lemma {:induction false} PrefixSurvivesAll(s: string, p: string, v: string, m: seq<Entry>)
    requires NonEmpty(m) && (forall i :: 0 <= i < |m| ==> EdgeInert(m[i].original, s))
    requires 1 <= |p| < |s| && EndsWith(s, p) && p <= Simultaneous(v, m)
    ensures p <= v
    decreases |p|
  {
    if v != "" {
      PickIsLongest(v, m);
      if Pick(v, m).Some? {
        var e := Pick(v, m).value;
        RestNotInOriginal(s, p, e.original, Simultaneous(v[|e.surrogate|..], m));
        assert false;
      } else {
        ConsTail(p, v[0], Simultaneous(v[1..], m));
        if |p| > 1 {
          EndsWithTail(s, p);
          PrefixSurvivesAll(s, p[1..], v[1..], m);
        }
        HeadAndTail(p, v);
      }
    }
  }

  lemma SharesEdge(o: string, rest: string, s: string, i: nat)
    requires At(o + rest, s, i) && i < |o| < i + |s|
    ensures !EdgeInert(o, s)
  {
    var n := |o| - i;
    assert s == (o + rest)[i..i + |s|];
    if i == 0 {
      assert s[0..n] == o;
      assert At(s, o, 0);
    } else {
      assert o[|o| - n..] == s[..n];
    }
  }

  /** An inert original passes through the rewriting of a later surrogate. */
  lemma ReplaceAfterInert(o: string, rest: string, s: string, sub: string)
    requires s != "" && Inert(o, s)
    ensures Replace(o + rest, s, sub) == o + Replace(rest, s, sub)
  {
    forall i | 0 <= i < |o| < i + |s| ensures !At(o + rest, s, i) {
      if At(o + rest, s, i) { SharesEdge(o, rest, s, i); }
    }
    ReplaceSplit(o, rest, s, sub);
    ReplaceAbsent(o, s, sub);
  }

  ghost predicate NoneInside(text: string, m: seq<Entry>, s: string) {
    forall k, a, b :: 0 <= k < |m| && At(text, m[k].surrogate, a) && At(text, s, b) ==> !(b < a < b + |s|)
  }

  lemma NoneInsideDrop(text: string, n: nat, m: seq<Entry>, s: string)
    requires n <= |text| && NoneInside(text, m, s)
    ensures NoneInside(text[n..], m, s)
  {
    forall k, a, b | 0 <= k < |m| && At(text[n..], m[k].surrogate, a) && At(text[n..], s, b)
      ensures !(b < a < b + |s|)
    {
      AtDrop(text, n, m[k].surrogate, a);
      AtDrop(text, n, s, b);
    }
  }

  /** `e` may be rewritten after the entries of `m`. */
  ghost predicate Follows(m: seq<Entry>, e: Entry) {
    && NonEmpty(m) && e.surrogate != ""
    && forall i :: 0 <= i < |m| ==> |e.surrogate| <= |m[i].surrogate| && Inert(m[i].original, e.surrogate)
  }

  /** Where only the new surrogate starts. */
  lemma AbsorbHere(text: string, m: seq<Entry>, e: Entry)
    requires Follows(m, e) && NoneInside(text, m, e.surrogate)
    requires e.surrogate <= text && Pick(text, m).None?
    ensures var s := e.surrogate;
            Replace(Simultaneous(text, m), s, e.original)
              == e.original + Replace(Simultaneous(text[|s|..], m), s, e.original)
  {
    var s := e.surrogate;
    PrefixIsAt(text, s);
    PickIsLongest(text, m);
    forall k, i | 0 <= k < |m| && 0 <= i < |s| ensures !At(text, m[k].surrogate, i) {
      assert m[k] in m;
      PrefixIsAt(text, m[k].surrogate);
    }
    CopiesWhereNoneStarts(text, m, 0, |s|);
    assert text[0..] == text && text[0..|s|] == s;
    assert Simultaneous(text, m) == s + Simultaneous(text[|s|..], m);
    assert (s + Simultaneous(text[|s|..], m))[|s|..] == Simultaneous(text[|s|..], m);
  }

  /** A surrogate that starts the rewritten text where none is picked started the raw text. */
  lemma StartedRaw(text: string, m: seq<Entry>, s: string)
    requires NonEmpty(m) && s != "" && forall i :: 0 <= i < |m| ==> EdgeInert(m[i].original, s)
    requires text != "" && s <= [text[0]] + Simultaneous(text[1..], m)
    ensures s <= text
  {
    var rest := text[1..];
    ConsTail(s, text[0], Simultaneous(rest, m));
    if |s| > 1 {
      PrefixSurvivesAll(s, s[1..], rest, m);
    }
    HeadAndTail(s, text);
  }

  /** Where no surrogate starts. */
  lemma AbsorbRaw(text: string, m: seq<Entry>, e: Entry)
    requires Follows(m, e) && text != "" && !(e.surrogate <= text) && Pick(text, m).None?
    ensures Replace(Simultaneous(text, m), e.surrogate, e.original)
         == [text[0]] + Replace(Simultaneous(text[1..], m), e.surrogate, e.original)
  {
    if e.surrogate <= [text[0]] + Simultaneous(text[1..], m) {
      StartedRaw(text, m, e.surrogate);
    }
  }

  /** Rewriting one more surrogate after a simultaneous pass is a simultaneous pass with it. */
  lemma {:induction false} AbsorbNext(text: string, m: seq<Entry>, e: Entry)
    requires Follows(m, e) && NoneInside(text, m, e.surrogate)
    ensures Replace(Simultaneous(text, m), e.surrogate, e.original) == Simultaneous(text, m + [e])
    decreases |text|
  {
    if text != "" {
      var s := e.surrogate;
      PickSnoc(text, m, e);
      PickIsLongest(text, m);
      var p := Pick(text, m);
      if p.Some? {
        var f := p.value;
        NoneInsideDrop(text, |f.surrogate|, m, s);
        AbsorbNext(text[|f.surrogate|..], m, e);
        ReplaceAfterInert(f.original, Simultaneous(text[|f.surrogate|..], m), s, e.original);
      } else if s <= text {
        NoneInsideDrop(text, |s|, m, s);
        AbsorbNext(text[|s|..], m, e);
        AbsorbHere(text, m, e);
      } else {
        NoneInsideDrop(text, 1, m, s);
        AbsorbNext(text[1..], m, e);
        AbsorbRaw(text, m, e);
      }
    }
  }

  lemma {:induction false} RestoreSnoc(text: string, order: seq<Entry>, e: Entry)
    ensures RestoreAll(text, order + [e]) == Replace(RestoreAll(text, order), e.surrogate, e.original)
    decreases |order|
  {
    if order == [] {
      assert (order + [e])[1..] == [];
    } else {
      RestoreSnoc(Replace(text, order[0].surrogate, order[0].original), order[1..], e);
      assert (order + [e])[1..] == order[1..] + [e];
    }
  }

  lemma {:induction false} SimultaneousNone(text: string)
    ensures Simultaneous(text, []) == text
  {
    if text != "" { SimultaneousNone(text[1..]); }
  }

  lemma {:induction false} SequentialIsSimultaneous(text: string, order: seq<Entry>)
    requires NonEmpty(order) && OriginalsInert(order) && NoLateCrossing(text, order)
    requires forall i, j :: 0 <= i < j < |order| ==> LongerFirst(order[i], order[j])
    ensures RestoreAll(text, order) == Simultaneous(text, order)
    decreases |order|
  {
    if order == [] {
      SimultaneousNone(text);
    } else {
      var n := |order| - 1;
      var front, e := order[..n], order[n];
      assert order == front + [e];
      SequentialIsSimultaneous(text, front);
      RestoreSnoc(text, front, e);
      AbsorbNext(text, front, e);
    }
  }

  // ---- the theorems ----

  /** `restore_text` is the simultaneous leftmost-longest pass over the map. */
  lemma BatchIsSimultaneous(text: string, m: seq<Entry>)
    requires NonEmpty(m) && DistinctKeys(m) && OriginalsInert(Order(m)) && NoLateCrossing(text, Order(m))
    ensures Restored(text, m) == Simultaneous(text, m)
  {
    var order := Order(m);
    SortSorted(m, LongerFirst);
    forall e ensures e in order <==> e in m { SortSameElements(m, LongerFirst, e); }
    forall i | 0 <= i < |order| ensures order[i].surrogate != "" { assert order[i] in m; }
    SequentialIsSimultaneous(text, order);
    SimultaneousOrderFree(text, m, order);
  }

  ghost predicate AllInert(m: seq<Entry>) {
    forall i, j :: 0 <= i < |m| && 0 <= j < |m| && i != j ==> Inert(m[i].original, m[j].surrogate)
  }

  /** A map without crossings meets the condition on every text, in every order. */
  lemma UncrossedOrder(text: string, m: seq<Entry>)
    requires NonEmpty(m) && Uncrossed(m) && DistinctKeys(m) && AllInert(m)
    ensures OriginalsInert(Order(m)) && NoLateCrossing(text, Order(m))
  {
    var order := Order(m);
    SortSorted(m, LongerFirst);
    SortKeeps(m, LongerFirst);
    forall i, j | 0 <= i < j < |order|
      ensures Inert(order[i].original, order[j].surrogate)
      ensures !Crosses(order[j].surrogate, order[i].surrogate)
      ensures LongerFirst(order[i], order[j])
    {
      DistinctPositions(m, order, i, j);
      var k :| 0 <= k < |m| && m[k] == order[i];
      var l :| 0 <= l < |m| && m[l] == order[j];
    }
    forall i, j, a, b |
      0 <= i < j < |order| && At(text, order[i].surrogate, a) && At(text, order[j].surrogate, b)
      ensures !(b < a < b + |order[j].surrogate|)
    {
      if b < a < b + |order[j].surrogate| {
        CrossingOccurrences(text, order[j].surrogate, order[i].surrogate, b, a);
      }
    }
  }

  lemma DistinctPositions(m: seq<Entry>, order: seq<Entry>, i: nat, j: nat)
    requires DistinctKeys(m) && multiset(order) == multiset(m) && i < j < |order|
    ensures order[i] in m && order[j] in m && order[i] != order[j]
  {
    assert order[i] in multiset(m) && order[j] in multiset(m);
    if order[i] == order[j] {
      var e := order[i];
      assert order == order[..j] + [e] + order[j + 1..];
      assert e in order[..j];
      assert multiset(order)[e] >= 2;
      Once(m, e);
    }
  }

  lemma {:induction false} Once(m: seq<Entry>, e: Entry)
    requires DistinctKeys(m)
    ensures multiset(m)[e] <= 1
  {
    if m != [] {
      assert m == [m[0]] + m[1..];
      Once(m[1..], e);
      if m[0] == e {
        assert e !in m[1..] by {
          forall k | 0 <= k < |m[1..]| ensures m[1..][k] != e {
            assert m[1..][k] == m[k + 1];
          }
        }
      }
    }
  }

  // ---- the order of the map ----

  /** Rewriting `e` leaves equally long occurrences of `f` as they are. */
  ghost predicate Harmless(e: Entry, f: Entry) {
    !Crosses(e.surrogate, f.surrogate) && Inert(e.original, f.surrogate)
  }

  /** Rewriting `e` changes nothing. */
  predicate Idle(e: Entry) { e.original == e.surrogate }

  /**
   Equally long surrogates do not cross each other, and no original meets another surrogate as long as its own; entries
   that change nothing do not matter.
   */
  ghost predicate HarmlessTies(m: seq<Entry>) {
    forall e, f :: e in m && f in m && e != f && |e.surrogate| == |f.surrogate| && !Idle(e) && !Idle(f)
      ==> Harmless(e, f)
  }

  /** Equally long surrogates of which either may be rewritten first. */
  ghost predicate Ties(e: Entry, f: Entry) {
    && |e.surrogate| == |f.surrogate| && e.surrogate != f.surrogate
    && (Idle(e) || Idle(f) || (Harmless(e, f) && Harmless(f, e)))
  }

  /** Two equally long surrogates may be rewritten in either order. */
  lemma TiesCommute(text: string, e: Entry, f: Entry)
    requires Ties(e, f)
    ensures Replace(Replace(text, e.surrogate, e.original), f.surrogate, f.original)
         == Replace(Replace(text, f.surrogate, f.original), e.surrogate, e.original)
  {
    if Idle(e) || Idle(f) {
      IdleCommutes(text, e, f);
    } else {
      TwoAtOnce(text, e, f);
      TwoAtOnce(text, f, e);
      SimultaneousOrderFree(text, [e, f], [f, e]);
    }
  }

  lemma IdleCommutes(text: string, e: Entry, f: Entry)
    requires Idle(e) || Idle(f)
    ensures Replace(Replace(text, e.surrogate, e.original), f.surrogate, f.original)
         == Replace(Replace(text, f.surrogate, f.original), e.surrogate, e.original)
  {
    var idle, other := if Idle(e) then e else f, if Idle(e) then f else e;
    ReplaceSame(text, idle.surrogate);
    ReplaceSame(Replace(text, other.surrogate, other.original), idle.surrogate);
  }

  lemma TwoAtOnce(text: string, e: Entry, f: Entry)
    requires |e.surrogate| == |f.surrogate| && e.surrogate != f.surrogate && Harmless(e, f) && Harmless(f, e)
    ensures Replace(Replace(text, e.surrogate, e.original), f.surrogate, f.original) == Simultaneous(text, [e, f])
  {
    var order := [e, f];
    NoTieCrossing(text, e, f);
    SequentialIsSimultaneous(text, order);
    var once := Replace(text, e.surrogate, e.original);
    assert RestoreAll(text, order) == RestoreAll(once, [f]) by { assert order[1..] == [f]; }
    assert RestoreAll(once, [f]) == Replace(once, f.surrogate, f.original) by { assert [f][1..] == []; }
  }

  lemma NoTieCrossing(text: string, e: Entry, f: Entry)
    requires |e.surrogate| == |f.surrogate| && Harmless(f, e)
    ensures NoLateCrossing(text, [e, f])
  {
    forall a, b | At(text, e.surrogate, a) && At(text, f.surrogate, b)
      ensures !(b < a < b + |f.surrogate|)
    {
      if b < a < b + |f.surrogate| { CrossingOccurrences(text, f.surrogate, e.surrogate, b, a); }
    }
  }

  /** An entry moves to the front over entries that it ties with. */
  lemma {:induction false} MoveToFront(text: string, front: seq<Entry>, e: Entry, rest: seq<Entry>)
    requires forall f :: f in front ==> f == e || Ties(e, f)
    ensures RestoreAll(text, front + [e] + rest) == RestoreAll(text, [e] + (front + rest))
    decreases |front|
  {
    if front == [] {
      assert front + [e] + rest == [e] + (front + rest);
    } else {
      var f := front[0];
      var once := Replace(text, f.surrogate, f.original);
      assert f in front;
      assert (front + [e] + rest)[0] == f && (front + [e] + rest)[1..] == front[1..] + [e] + rest;
      assert (front + rest)[0] == f && (front + rest)[1..] == front[1..] + rest;
      MoveToFront(once, front[1..], e, rest);
      TwoFirst(text, e, f, front[1..] + rest);
      assert [f] + (front[1..] + rest) == front + rest;
    }
  }

  /** Rewriting `f` and then `e` first is rewriting `e` and then `f` first. */
  lemma TwoFirst(text: string, e: Entry, f: Entry, rest: seq<Entry>)
    requires f == e || Ties(e, f)
    ensures RestoreAll(Replace(text, f.surrogate, f.original), [e] + rest) == RestoreAll(text, [e] + ([f] + rest))
  {
    assert ([e] + rest)[1..] == rest && ([f] + rest)[1..] == rest && ([e] + ([f] + rest))[1..] == [f] + rest;
    if f != e { TiesCommute(text, e, f); }
  }

  /** Entries with a surrogate each, among which ties are harmless. */
  ghost predicate Tame(m: seq<Entry>) {
    HarmlessTies(m) && forall e, f :: e in m && f in m && e.surrogate == f.surrogate ==> e == f
  }

  /** Two longest-first orders of the same entries. */
  ghost predicate Reordered(a: seq<Entry>, b: seq<Entry>) {
    Sorted(a, LongerFirst) && Sorted(b, LongerFirst) && multiset(a) == multiset(b)
  }

  /** Two longest-first orders of the same entries restore alike when ties are harmless. */
  lemma {:induction false} TiesRestoreAlike(text: string, a: seq<Entry>, b: seq<Entry>)
    requires Reordered(a, b) && Tame(a)
    ensures RestoreAll(text, a) == RestoreAll(text, b)
    decreases |b|
  {
    if b == [] {
      assert |a| == |multiset(a)| == 0;
    } else {
      var e := b[0];
      var front, rest := PullOut(a, b);
      MoveToFront(text, front, e, rest);
      TiesRestoreAlike(Replace(text, e.surrogate, e.original), front + rest, b[1..]);
      assert ([e] + (front + rest))[1..] == front + rest;
    }
  }

  /** The first entry of `b` stands in `a` behind entries that it ties with. */
  lemma PullOut(a: seq<Entry>, b: seq<Entry>) returns (front: seq<Entry>, rest: seq<Entry>)
    requires Reordered(a, b) && Tame(a) && b != []
    ensures a == front + [b[0]] + rest && Reordered(front + rest, b[1..]) && Tame(front + rest)
    ensures forall f :: f in front ==> f == b[0] || Ties(b[0], f)
  {
    var p := FirstOf(a, b);
    front, rest := a[..p], a[p + 1..];
    BagWithout(a, p);
    ReorderedWithout(a, b, p);
    TameWithin(a, front + rest);
    forall f | f in front ensures f == b[0] || Ties(b[0], f) {
      assert f in front + rest;
      TiesWithin(a, b[0], f);
    }
  }

  lemma ReorderedWithout(a: seq<Entry>, b: seq<Entry>, p: nat)
    requires Reordered(a, b) && b != [] && p < |a| && a[p] == b[0]
    ensures Reordered(a[..p] + a[p + 1..], b[1..])
  {
    SortedWithout(a, p);
    BagWithout(a, p);
    SortedTail(b);
    BagTail(b);
  }

  lemma SortedTail(s: seq<Entry>)
    requires Sorted(s, LongerFirst) && s != []
    ensures Sorted(s[1..], LongerFirst)
  {
  }

  lemma BagTail(s: seq<Entry>)
    requires s != []
    ensures multiset(s[1..]) == multiset(s) - multiset{s[0]}
  {
    assert s == [s[0]] + s[1..];
  }

  lemma TameWithin(m: seq<Entry>, part: seq<Entry>)
    requires Tame(m) && forall e :: e in part ==> e in m
    ensures Tame(part)
  {
  }

  lemma TiesWithin(m: seq<Entry>, e: Entry, f: Entry)
    requires Tame(m) && e in m && f in m && |e.surrogate| == |f.surrogate|
    ensures f == e || Ties(e, f)
  {
  }

  lemma FirstOf(a: seq<Entry>, b: seq<Entry>) returns (p: nat)
    requires Reordered(a, b) && b != []
    ensures p < |a| && a[p] == b[0] && forall i :: 0 <= i < p ==> |a[i].surrogate| == |b[0].surrogate|
  {
    assert b[0] in multiset(a);
    p :| p < |a| && a[p] == b[0];
    forall i | 0 <= i < p ensures |a[i].surrogate| == |b[0].surrogate| {
      assert LongerFirst(a[i], a[p]);
      assert a[i] in multiset(b);
      var k :| 0 <= k < |b| && b[k] == a[i];
      assert k > 0 ==> LongerFirst(b[0], b[k]);
    }
  }

  lemma SortedWithout(s: seq<Entry>, p: nat)
    requires Sorted(s, LongerFirst) && p < |s|
    ensures Sorted(s[..p] + s[p + 1..], LongerFirst)
  {
    var rest := s[..p] + s[p + 1..];
    assert forall i :: 0 <= i < |rest| ==> rest[i] == s[if i < p then i else i + 1];
  }

  lemma BagWithout(s: seq<Entry>, p: nat)
    requires p < |s|
    ensures multiset(s[..p] + s[p + 1..]) == multiset(s) - multiset{s[p]}
    ensures s == s[..p] + [s[p]] + s[p + 1..]
    ensures forall e :: e in s[..p] + s[p + 1..] ==> e in s
  {
    assert s == s[..p] + [s[p]] + s[p + 1..];
  }

  /**
   The restored text does not depend on the order in which the map was filled, if equally long surrogates do not cross
   each other and no original meets another surrogate as long as its own: the order of the rest is fixed by length.
   */
  lemma OnlyTiesMatter(text: string, m: seq<Entry>, m': seq<Entry>)
    requires DistinctKeys(m) && multiset(m) == multiset(m') && HarmlessTies(m)
    ensures Restored(text, m) == Restored(text, m')
  {
    SortSorted(m, LongerFirst);
    SortSorted(m', LongerFirst);
    SortKeeps(m, LongerFirst);
    SortKeeps(m', LongerFirst);
    forall e ensures e in Order(m) <==> e in m { SortSameElements(m, LongerFirst, e); }
    forall e, f | e in Order(m) && f in Order(m) && e.surrogate == f.surrogate ensures e == f {
      SameKeySameEntry(m, e, f);
    }
    TiesRestoreAlike(text, Order(m), Order(m'));
  }

  /** So it is for a map without crossings and with inert originals. */
  lemma RestoreIgnoresMapOrder(text: string, m: seq<Entry>, m': seq<Entry>)
    requires Uncrossed(m) && DistinctKeys(m) && AllInert(m) && multiset(m) == multiset(m')
    ensures Restored(text, m) == Restored(text, m')
  {
    forall e, f | e in m && f in m && e != f ensures Harmless(e, f) {
      var i :| 0 <= i < |m| && m[i] == e;
      var j :| 0 <= j < |m| && m[j] == f;
    }
    OnlyTiesMatter(text, m, m');
  }

  /** With crossing surrogates of equal length the order of the map decides the result. */
  lemma MapOrderMatters()
    ensures var a, b := Entry("ab", "1"), Entry("bc", "2");
            Restored("abc", [a, b]) == "1c" && Restored("abc", [b, a]) == "a2"
  {
    var a, b := Entry("ab", "1"), Entry("bc", "2");
    RestoredTwo("abc", a, b);
    RestoredTwo("abc", b, a);
    assert "abc"[2..] == "c" && "abc"[1..] == "bc" && "bc"[2..] == "";
    assert "abc"[..2] == "ab" && "bc"[..2] == "bc";
    assert !("bc" <= "abc");
    NoLetter("c", "ab");
    ReplaceAbsent("c", "ab", "1");
    NoLetter("1c", "bc");
    ReplaceAbsent("1c", "bc", "2");
    assert Replace("abc", "bc", "2") == "a2" by { assert Replace("bc", "bc", "2") == "2" + Replace("", "bc", "2"); }
    forall i ensures !At("a2", "ab", i) {
      if i == 0 { assert "a2"[0..2] == "a2"; }
    }
    ReplaceAbsent("a2", "ab", "1");
  }

  /** So it does with an original that shows another surrogate of equal length. */
  lemma ActiveTieMatters()
    ensures var a, b := Entry("ab", "cd"), Entry("cd", "x");
            Restored("ab", [a, b]) == "x" && Restored("ab", [b, a]) == "cd"
  {
    var a, b := Entry("ab", "cd"), Entry("cd", "x");
    RestoredTwo("ab", a, b);
    RestoredTwo("ab", b, a);
    ReplaceExactly("ab", "cd");
    ReplaceExactly("cd", "x");
    NoLetter("ab", "cd");
    ReplaceAbsent("ab", "cd", "x");
  }
}
