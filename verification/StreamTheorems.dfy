/**
 Streaming is batch: for every text and every way of cutting it into chunks, a `StreamRestorer` produces what
 `restore_text` makes of the whole text.

 The hypotheses are conditions on the reverse map that a caller can check. They are weaker than
 "no surrogate overlaps another": a crossing is harmless when the surrogate that starts later is visited first,
 and originals only have to stay clear of surrogates that are rewritten after them.
 */
module StreamTheorems {
  import opened Text
  import opened Sorting
  import opened Restore

  /** Some occurrence of `t` can start strictly inside an occurrence of `s` and end beyond it. */
  ghost predicate Crosses(s: string, t: string) {
    exists n :: 1 <= n < |s| && n < |t| && s[|s| - n..] == t[..n]
  }

  /** No surrogate can be crossed by one that the pass over the map visits at the same time or later. */
  ghost predicate ForwardUncrossed(m: seq<Entry>) {
    forall i, j :: 0 <= i <= j < |m| ==> !Crosses(m[i].surrogate, m[j].surrogate)
  }

  ghost predicate Uncrossed(m: seq<Entry>) {
    forall i, j :: 0 <= i < |m| && 0 <= j < |m| ==> !Crosses(m[i].surrogate, m[j].surrogate)
  }

  /** `o` neither lies inside `s` nor can share only an end with it. */
  ghost predicate EdgeInert(o: string, s: string) {
    && (forall i :: !At(s, o, i))
    && (forall n :: 1 <= n < |s| && n <= |o| ==> o[..n] != s[|s| - n..])
    && (forall n :: 1 <= n < |s| && n <= |o| ==> o[|o| - n..] != s[..n])
  }

  /** Each original is inert for the surrogates rewritten after it. A one-entry map always qualifies. */
  ghost predicate OriginalsEdgeInert(order: seq<Entry>) {
    forall i, j :: 0 <= i < j < |order| ==> EdgeInert(order[i].original, order[j].surrogate)
  }

  ghost predicate NonEmpty(m: seq<Entry>) {
    forall i :: 0 <= i < |m| ==> m[i].surrogate != ""
  }

  /** No occurrence of `s` in `text` is split by `cut`. */
  ghost predicate Whole(text: string, s: string, cut: int) {
    forall i :: i < cut < i + |s| ==> !At(text, s, i)
  }

  ghost predicate AllWhole(text: string, m: seq<Entry>, cut: int) {
    forall k :: 0 <= k < |m| ==> Whole(text, m[k].surrogate, cut)
  }

  ghost predicate Streamable(m: seq<Entry>, cap: nat) {
    && NonEmpty(m) && ForwardUncrossed(m) && OriginalsEdgeInert(Order(m))
    && (forall i :: 0 <= i < |m| ==> 1 <= cap && |m[i].surrogate| <= cap + 1)
  }

  // ---- where the cut ends up ----

  lemma CrossingOccurrences(text: string, s: string, t: string, a: int, b: int)
    requires At(text, s, a) && At(text, t, b) && a < b < a + |s| < b + |t|
    ensures Crosses(s, t)
  {
    var n := a + |s| - b;
    assert s[|s| - n..] == text[a..a + |s|][b - a..] == text[b..a + |s|];
    assert t[..n] == text[b..b + |t|][..n] == text[b..b + n];
  }

  /** A cut at an occurrence splits no other occurrence. */
  lemma StartIsWhole(buffer: string, s: string, start: int)
    requires !Crosses(s, s) && At(buffer, s, start)
    ensures forall i :: i < start < i + |s| ==> !At(buffer, s, i)
  {
    forall i | i < start < i + |s| ensures !At(buffer, s, i) {
      if At(buffer, s, i) { CrossingOccurrences(buffer, s, s, i, start); }
    }
  }

  /** Once the cut is whole, later visits leave it. */
  lemma {:induction false} WholeStays(buffer: string, s: string, from: nat, cut: int)
    requires forall i :: i < cut < i + |s| ==> !At(buffer, s, i)
    ensures LowerBy(buffer, s, from, cut) == cut
    decreases |buffer| + 1 - from
  {
    var start := Find(buffer, s, from);
    if start >= 0 { WholeStays(buffer, s, start + 1, cut); }
  }

  /** One surrogate: the pass leaves its own occurrences whole and moves the cut at most once. */
  lemma {:induction false} LowerByWhole(buffer: string, s: string, from: nat, cut: int)
    requires !Crosses(s, s)
    requires forall i :: i < from && i < cut < i + |s| ==> !At(buffer, s, i)
    ensures var c := LowerBy(buffer, s, from, cut);
            && Whole(buffer, s, c)
            && (c == cut || (At(buffer, s, c) && c < cut < c + |s|))
    decreases |buffer| + 1 - from
  {
    var start := Find(buffer, s, from);
    if start >= 0 {
      if start < cut < start + |s| {
        LoweredOnce(buffer, s, start);
      } else {
        LowerByWhole(buffer, s, start + 1, cut);
      }
    }
  }

  lemma LoweredOnce(buffer: string, s: string, start: nat)
    requires !Crosses(s, s) && At(buffer, s, start)
    ensures LowerBy(buffer, s, start + 1, start) == start && Whole(buffer, s, start)
  {
    StartIsWhole(buffer, s, start);
    WholeStays(buffer, s, start + 1, start);
  }

  /** The whole pass: the final cut splits no occurrence of any surrogate in the buffer. */
  lemma {:induction false} LowerFromWhole(buffer: string, m: seq<Entry>, k: nat, cut: int)
    requires k <= |m| && ForwardUncrossed(m)
    requires forall j :: 0 <= j < k ==> Whole(buffer, m[j].surrogate, cut)
    ensures AllWhole(buffer, m, LowerFrom(buffer, m, k, cut))
    decreases |m| - k
  {
    if k < |m| {
      var s := m[k].surrogate;
      LowerByWhole(buffer, s, 0, cut);
      var c := LowerBy(buffer, s, 0, cut);
      forall j | 0 <= j < k + 1 ensures Whole(buffer, m[j].surrogate, c) {
        if j < k && c != cut {
          forall i | i < c < i + |m[j].surrogate| ensures !At(buffer, m[j].surrogate, i) {
            if At(buffer, m[j].surrogate, i) { CrossingOccurrences(buffer, m[j].surrogate, s, i, c); }
          }
        }
      }
      LowerFromWhole(buffer, m, k + 1, c);
    }
  }

  lemma {:induction false} MaxLengthBounds(m: seq<Entry>, i: nat)
    requires i < |m|
    ensures |m[i].surrogate| <= MaxLength(m)
  {
    if i > 0 { MaxLengthBounds(m[1..], i - 1); }
  }

  lemma {:induction false} MaxLengthReached(m: seq<Entry>)
    requires m != []
    ensures exists i :: 0 <= i < |m| && |m[i].surrogate| == MaxLength(m)
  {
    if |m| == 1 || |m[0].surrogate| > MaxLength(m[1..]) {
      assert |m[0].surrogate| == MaxLength(m);
    } else {
      MaxLengthReached(m[1..]);
      var i :| 0 <= i < |m[1..]| && |m[1..][i].surrogate| == MaxLength(m[1..]);
      assert m[i + 1] == m[1..][i];
    }
  }

  /** The tail is the length of the longest surrogate, or the cap if some surrogate is longer, or 0 without any. */
  lemma TailIsLongestCapped(m: seq<Entry>, cap: nat)
    ensures var tail := TailLength(m, cap);
            && (forall e :: e in m && |e.surrogate| <= cap ==> |e.surrogate| <= tail)
            && ((exists e :: e in m && |e.surrogate| > cap) ==> tail == cap)
            && ((forall e :: e in m ==> |e.surrogate| <= cap) ==>
                  if m == [] then tail == 0 else exists e :: e in m && |e.surrogate| == tail)
  {
    forall e | e in m ensures |e.surrogate| <= MaxLength(m) {
      var i :| 0 <= i < |m| && m[i] == e;
      MaxLengthBounds(m, i);
    }
    if m != [] {
      MaxLengthReached(m);
      var i :| 0 <= i < |m| && |m[i].surrogate| == MaxLength(m);
      assert m[i] in m;
    }
  }

  /** The held-back tail is long enough: the cut stays whole whatever text follows. */
  lemma CutStaysWhole(m: seq<Entry>, cap: nat, buffer: string, later: string)
    requires Streamable(m, cap) && m != []
    ensures AllWhole(buffer + later, m, EmitCount(m, TailLength(m, cap), buffer))
  {
    var tail := TailLength(m, cap);
    MaxLengthBounds(m, 0);
    var cut := EmitCount(m, tail, buffer);
    if cut > 0 {
      LowerFromWhole(buffer, m, 0, |buffer| - tail);
      LowerFromShrinks(buffer, m, 0, |buffer| - tail);
      forall k | 0 <= k < |m| ensures Whole(buffer + later, m[k].surrogate, cut) {
        MaxLengthBounds(m, k);
        var s := m[k].surrogate;
        forall i | i < cut < i + |s| ensures !At(buffer + later, s, i) {
          AtAppend(buffer, later, s, i);
        }
      }
    }
  }

  // ---- replacement cannot build a surrogate across a boundary ----

  /** The end of a surrogate cannot start inside an inert original. */
  lemma RestNotInOriginal(s: string, p: string, o: string, rest: string)
    requires 1 <= |p| < |s| && EndsWith(s, p) && p <= o + rest
    ensures !EdgeInert(o, s)
  {
    if |p| <= |o| {
      assert o[..|p|] == (o + rest)[..|p|] == s[|s| - |p|..];
    } else {
      var k := |s| - |p|;
      assert s[k..k + |o|] == p[..|o|] == (o + rest)[..|o|];
      assert At(s, o, k);
    }
  }

  lemma EndsWithTail(s: string, p: string)
    requires p != "" && EndsWith(s, p)
    ensures EndsWith(s, p[1..])
  {
    assert s[|s| - |p[1..]|..] == s[|s| - |p|..][1..];
  }

  /** If the end of a surrogate starts the rewritten text, it started the raw text. */
  lemma {:induction false} PrefixSurvives(s: string, p: string, v: string, t: string, o: string)
    requires t != "" && EdgeInert(o, s) && 1 <= |p| < |s| && EndsWith(s, p)
    requires p <= Replace(v, t, o)
    ensures p <= v
    decreases |p|
  {
    if v != "" {
      if t <= v {
        RestNotInOriginal(s, p, o, Replace(v[|t|..], t, o));
        assert false;
      } else {
        ConsTail(p, v[0], Replace(v[1..], t, o));
        if |p| > 1 {
          EndsWithTail(s, p);
          PrefixSurvives(s, p[1..], v[1..], t, o);
        }
        HeadAndTail(p, v);
      }
    }
  }

  /** If the whole rewritten text lies inside a surrogate, nothing was rewritten. */
  lemma {:induction false} InsideIsRaw(s: string, j: nat, v: string, t: string, o: string)
    requires t != "" && (forall i :: !At(s, o, i)) && At(s, Replace(v, t, o), j)
    ensures Replace(v, t, o) == v
    decreases |v|
  {
    if v != "" {
      if t <= v {
        AtConcat(s, o, Replace(v[|t|..], t, o), j);
        assert false;
      } else {
        AtConcat(s, [v[0]], Replace(v[1..], t, o), j);
        InsideIsRaw(s, j + 1, v[1..], t, o);
      }
    }
  }

  ghost predicate EndsWith(text: string, p: string) {
    |p| <= |text| && text[|text| - |p|..] == p
  }

  lemma EndsWithSplit(head: string, rest: string, p: string)
    requires EndsWith(head + rest, p)
    ensures |p| <= |rest| ==> EndsWith(rest, p)
    ensures |p| > |rest| ==> var n := |p| - |rest|; n <= |head| && p[..n] == head[|head| - n..] && p[n..] == rest
  {
    var x := head + rest;
    if |p| <= |rest| {
      assert x[|x| - |p|..] == rest[|rest| - |p|..];
    } else {
      assert x[|x| - |p|..] == head[|head| - (|p| - |rest|)..] + rest;
    }
  }

  lemma EndsWithDrop(text: string, n: nat, p: string)
    requires n <= |text| && EndsWith(text[n..], p)
    ensures EndsWith(text, p)
  {
    assert text[|text| - |p|..] == text[n..][|text[n..]| - |p|..];
  }

  /** How far the first step of a replacement goes. */
  function StepLength(v: string, t: string): (n: nat)
    requires v != "" && t != ""
    ensures 1 <= n <= |v|
  {
    if t <= v then |t| else 1
  }

  lemma ReplaceStep(v: string, t: string, o: string)
    requires v != "" && t != ""
    ensures Replace(v, t, o) == (if t <= v then o else [v[0]]) + Replace(v[StepLength(v, t)..], t, o)
  {
  }

  /** A short enough end of the rewritten text ends what the first step leaves. */
  lemma SuffixInRest(p: string, v: string, t: string, o: string)
    requires t != "" && v != "" && EndsWith(Replace(v, t, o), p) && |p| <= |Replace(v[StepLength(v, t)..], t, o)|
    ensures EndsWith(Replace(v[StepLength(v, t)..], t, o), p)
  {
    ReplaceStep(v, t, o);
    EndsWithSplit(if t <= v then o else [v[0]], Replace(v[StepLength(v, t)..], t, o), p);
  }

  /** A longer one that is the start of a surrogate is the raw text. */
  lemma SuffixIsRaw(s: string, p: string, v: string, t: string, o: string)
    requires t != "" && v != "" && EdgeInert(o, s) && 1 <= |p| < |s| && p == s[..|p|]
    requires EndsWith(Replace(v, t, o), p) && |p| > |Replace(v[StepLength(v, t)..], t, o)|
    ensures v == p
  {
    ReplaceStep(v, t, o);
    if t <= v {
      EndNotInOriginal(s, p, o, Replace(v[|t|..], t, o));
    } else {
      EndFromFirst(s, p, v[0], v[1..], t, o, Replace(v[1..], t, o));
    }
  }

  /** If what came before of a surrogate ends the rewritten text, it ended the raw text. */
  lemma {:induction false} SuffixSurvives(s: string, p: string, v: string, t: string, o: string)
    requires t != "" && EdgeInert(o, s) && 1 <= |p| < |s| && p == s[..|p|]
    requires EndsWith(Replace(v, t, o), p)
    ensures EndsWith(v, p)
    decreases |v|
  {
    if v != "" {
      var n := StepLength(v, t);
      if |p| <= |Replace(v[n..], t, o)| {
        SuffixInRest(p, v, t, o);
        SuffixSurvives(s, p, v[n..], t, o);
        EndsWithDrop(v, n, p);
      } else {
        SuffixIsRaw(s, p, v, t, o);
      }
    }
  }

  /** The start of a surrogate cannot end inside an inert original. */
  lemma EndNotInOriginal(s: string, p: string, o: string, rest: string)
    requires 1 <= |p| < |s| && p == s[..|p|] && |rest| < |p| && EndsWith(o + rest, p)
    ensures !EdgeInert(o, s)
  {
    EndsWithSplit(o, rest, p);
    var n := |p| - |rest|;
    assert s[..n] == p[..n] == o[|o| - n..];
  }

  /** A start of a surrogate that reaches back to the first, raw character of the rewritten text is the raw text. */
  lemma EndFromFirst(s: string, p: string, c: char, v: string, t: string, o: string, rest: string)
    requires t != "" && (forall i :: !At(s, o, i)) && 1 <= |p| < |s| && p == s[..|p|] && rest == Replace(v, t, o)
    requires |rest| < |p| && EndsWith([c] + rest, p)
    ensures p == [c] + v
  {
    ReachesFirst(s, p, c, rest);
    InsideIsRaw(s, 1, v, t, o);
  }

  lemma ReachesFirst(s: string, p: string, c: char, rest: string)
    requires |p| < |s| && p == s[..|p|] && |rest| < |p| && EndsWith([c] + rest, p)
    ensures p == [c] + rest && At(s, rest, 1)
  {
    EndsWithSplit([c], rest, p);
    assert |p| == 1 + |rest| && p == p[..1] + p[1..];
    assert s[1..|p|] == p[1..];
  }

  lemma OccursAcross(u: string, v: string, s: string, k: nat)
    requires k <= |s| && EndsWith(u, s[..k]) && s[k..] <= v
    ensures At(u + v, s, |u| - k)
  {
    var j := |u| - k;
    assert (u + v)[j..j + |s|] == u[j..] + v[..|s| - k];
    assert s == s[..k] + s[k..];
  }

  /** Rewriting both sides of a whole cut leaves it whole for a surrogate that is rewritten later. */
  lemma WholeSurvives(u: string, v: string, t: string, o: string, s: string)
    requires t != "" && EdgeInert(o, s) && Whole(u + v, s, |u|)
    ensures var u', v' := Replace(u, t, o), Replace(v, t, o); Whole(u' + v', s, |u'|)
  {
    var u', v' := Replace(u, t, o), Replace(v, t, o);
    forall i | i < |u'| < i + |s| ensures !At(u' + v', s, i) {
      if At(u' + v', s, i) {
        var k := |u'| - i;
        Straddles(u', v', s, i);
        SuffixSurvives(s, s[..k], u, t, o);
        PrefixSurvives(s, s[k..], v, t, o);
        OccursAcross(u, v, s, k);
      }
    }
  }

  lemma Straddles(u: string, v: string, s: string, i: int)
    requires i < |u| < i + |s| && At(u + v, s, i)
    ensures var k := |u| - i; EndsWith(u, s[..k]) && s[k..] <= v
  {
    var k := |u| - i;
    assert s == s[..k] + s[k..];
    AtConcat(u + v, s[..k], s[k..], i);
    assert (u + v)[i..i + k] == u[i..];
    assert (u + v)[i + k..i + |s|] == v[..|s| - k];
  }

  /** Batch restoration distributes over a cut that splits no surrogate. */
  lemma {:induction false} RestoreSplit(u: string, v: string, order: seq<Entry>)
    requires NonEmpty(order) && OriginalsEdgeInert(order) && AllWhole(u + v, order, |u|)
    ensures RestoreAll(u + v, order) == RestoreAll(u, order) + RestoreAll(v, order)
    decreases |order|
  {
    if order != [] {
      var t, o := order[0].surrogate, order[0].original;
      var u', v' := Replace(u, t, o), Replace(v, t, o);
      ReplaceSplit(u, v, t, o);
      forall k | 0 <= k < |order[1..]| ensures Whole(u' + v', order[1..][k].surrogate, |u'|) {
        WholeSurvives(u, v, t, o, order[k + 1].surrogate);
      }
      RestoreSplit(u', v', order[1..]);
    }
  }

  // ---- the theorem ----

  lemma OrderKeepsWhole(text: string, m: seq<Entry>, cut: int)
    requires NonEmpty(m) && AllWhole(text, m, cut)
    ensures NonEmpty(Order(m)) && AllWhole(text, Order(m), cut)
  {
    forall k | 0 <= k < |Order(m)|
      ensures Order(m)[k].surrogate != "" && Whole(text, Order(m)[k].surrogate, cut)
    {
      SortSameElements(m, LongerFirst, Order(m)[k]);
    }
  }

  /** One `feed`: what it emits and what it keeps restore, together with any later text, to the whole. */
  lemma FeedSplits(m: seq<Entry>, cap: nat, full: string, later: string)
    requires Streamable(m, cap)
    ensures var n := EmitCount(m, TailLength(m, cap), full);
            Restored(full + later, m) == EmitText(m, TailLength(m, cap), full) + Restored(full[n..] + later, m)
  {
    var tail := TailLength(m, cap);
    var n := EmitCount(m, tail, full);
    if m == [] {
    } else {
      MaxLengthBounds(m, 0);
      CutStaysWhole(m, cap, full, later);
      OrderKeepsWhole(full + later, m, n);
      assert full + later == full[..n] + (full[n..] + later);
      RestoreSplit(full[..n], full[n..] + later, Order(m));
      if n == 0 {
        assert full[n..] == full;
      }
    }
  }

  lemma {:induction false} StreamFromBuffer(m: seq<Entry>, cap: nat, buffer: string, chunks: seq<string>)
    requires Streamable(m, cap)
    ensures Streamed(m, TailLength(m, cap), buffer, chunks) == Restored(buffer + Join(chunks), m)
    decreases |chunks|
  {
    if chunks == [] {
      assert buffer + Join(chunks) == buffer;
    } else {
      var tail, full := TailLength(m, cap), buffer + chunks[0];
      FeedSplits(m, cap, full, Join(chunks[1..]));
      assert full + Join(chunks[1..]) == buffer + Join(chunks);
      StreamFromBuffer(m, cap, full[EmitCount(m, tail, full)..], chunks[1..]);
    }
  }

  /** Streamed output equals batch output, for every text and every chunking of it. */
  lemma StreamEqualsBatch(m: seq<Entry>, cap: nat, chunks: seq<string>)
    requires Streamable(m, cap)
    ensures Streamed(m, TailLength(m, cap), "", chunks) == Restored(Join(chunks), m)
  {
    StreamFromBuffer(m, cap, "", chunks);
    assert "" + Join(chunks) == Join(chunks);
  }

  // ---- how much is held back ----

  /** In a map without crossings the pass lowers the cut to the start of one surrogate around the first cut. */
  lemma {:induction false} LowerFromBounded(buffer: string, m: seq<Entry>, k: nat, first: int, cut: int, by': nat)
    requires k <= |m| && Uncrossed(m)
    requires cut == first
          || (by' < |m| && At(buffer, m[by'].surrogate, cut) && cut < first < cut + |m[by'].surrogate|)
    ensures first - MaxLength(m) < LowerFrom(buffer, m, k, cut) || LowerFrom(buffer, m, k, cut) == first
    decreases |m| - k
  {
    if k == |m| {
      if cut != first { MaxLengthBounds(m, by'); }
    } else {
      var s := m[k].surrogate;
      LowerByWhole(buffer, s, 0, cut);
      var c := LowerBy(buffer, s, 0, cut);
      if c != cut && cut != first && c + |s| <= first {
        CrossingOccurrences(buffer, s, m[by'].surrogate, c, cut);
      }
      LowerFromBounded(buffer, m, k + 1, first, c, if c == cut then by' else k);
    }
  }

  /** After any `feed` at most `2L - 1` raw characters are held back, where `L` is the longest surrogate. */
  lemma HeldBackBounded(m: seq<Entry>, cap: nat, full: string)
    requires NonEmpty(m) && Uncrossed(m) && MaxLength(m) <= cap
    ensures var kept := full[EmitCount(m, TailLength(m, cap), full)..];
            if m == [] then kept == "" else |kept| <= 2 * MaxLength(m) - 1
  {
    var tail := TailLength(m, cap);
    if m != [] {
      MaxLengthBounds(m, 0);
      if |full| > tail {
        LowerFromBounded(full, m, 0, |full| - tail, |full| - tail, 0);
      }
    }
  }

  /** The bound is reached: a surrogate followed by itself without its first character is held back entirely. */
  lemma HeldBackBoundReached(s: string, o: string)
    requires s != "" && !Crosses(s, s)
    ensures var m, full := [Entry(s, o)], s + s[1..];
            |full| == 2 * MaxLength(m) - 1 && EmitCount(m, MaxLength(m), full) == 0
  {
    var m, full := [Entry(s, o)], s + s[1..];
    assert MaxLength(m) == |s| by { assert m[1..] == []; }
    if |s| > 1 {
      assert At(full, s, 0) by { assert full[0..|s|] == s; }
      var cut := |full| - |s|;
      assert Find(full, s, 0) == 0;
      LowerByShrinks(full, s, 1, 0);
      assert LowerBy(full, s, 0, cut) == LowerBy(full, s, 1, 0) == 0;
      assert LowerFrom(full, m, 0, cut) == LowerFrom(full, m, 1, 0);
    }
  }

  // ---- originals that are not inert ----

  lemma RestoredTwo(text: string, a: Entry, b: Entry)
    requires LongerFirst(a, b)
    ensures Restored(text, [a, b]) == Replace(Replace(text, a.surrogate, a.original), b.surrogate, b.original)
  {
    OrderTwo(a, b);
    var once := Replace(text, a.surrogate, a.original);
    assert RestoreAll(text, [a, b]) == RestoreAll(once, [b]) by { assert [a, b][1..] == [b]; }
    assert RestoreAll(once, [b]) == Replace(once, b.surrogate, b.original) by { assert [b][1..] == []; }
  }

  /** No occurrence in a two-letter pattern without its first letter. */
  lemma NoLetter(text: string, pat: string)
    requires |pat| == 2 && pat[0] !in text
    ensures forall i :: !At(text, pat, i)
  {
    forall i ensures !At(text, pat, i) {
      if 0 <= i && i + 2 <= |text| { assert text[i..i + 2][0] == text[i]; }
    }
  }

  const EXAMPLE := [Entry("ab", "xc"), Entry("cd", "y")]

  lemma ExampleUncrossed()
    ensures NonEmpty(EXAMPLE) && ForwardUncrossed(EXAMPLE)
  {
    forall i, j | 0 <= i <= j < |EXAMPLE| ensures !Crosses(EXAMPLE[i].surrogate, EXAMPLE[j].surrogate) {
      var s, t := EXAMPLE[i].surrogate, EXAMPLE[j].surrogate;
      assert s[1..][0] != t[..1][0];
    }
  }

  lemma ExampleLength()
    ensures MaxLength(EXAMPLE) == 2
  {
    assert EXAMPLE[1..] == [Entry("cd", "y")] && MaxLength([Entry("cd", "y")]) == 2;
  }

  /**
   The hypothesis on originals is needed: here "ab" restores to "xc", whose last letter together with the next raw one
   spells the second surrogate. Batch restoration rewrites it; the stream has already emitted the first half.
   */
  lemma ActiveOriginalBreaksStream()
    ensures NonEmpty(EXAMPLE) && ForwardUncrossed(EXAMPLE) && MaxLength(EXAMPLE) <= LATENCY_CAP
    ensures Streamed(EXAMPLE, TailLength(EXAMPLE, LATENCY_CAP), "", ["abdq"]) == "xcdq"
    ensures Restored("abdq", EXAMPLE) == "xyq"
  {
    ExampleUncrossed();
    ExampleLength();
    BatchOfExample("abdq");
    RestoredTwo("abdq", EXAMPLE[0], EXAMPLE[1]);
    FirstCutOfExample(EXAMPLE, "abdq");
    StreamOfExample(EXAMPLE, "abdq");
  }

  lemma BatchOfExample(t: string)
    requires t == "abdq"
    ensures Replace(Replace(t, "ab", "xc"), "cd", "y") == "xyq"
  {
    assert Replace(t, "ab", "xc") == "xcdq" by {
      assert t[..2] == "ab" && t[2..] == "dq";
      NoLetter("dq", "ab");
      ReplaceAbsent("dq", "ab", "xc");
    }
    assert Replace("cdq", "cd", "y") == "yq" by {
      assert "cdq"[..2] == "cd" && "cdq"[2..] == "q";
      NoLetter("q", "cd");
      ReplaceAbsent("q", "cd", "y");
    }
    assert "xcdq"[1..] == "cdq";
    assert "cd"[0] != "xcdq"[0];
  }

  lemma FirstCutOfExample(m: seq<Entry>, t: string)
    requires m == [Entry("ab", "xc"), Entry("cd", "y")] && t == "abdq"
    ensures LowerFrom(t, m, 0, 2) == 2
  {
    NoLetter(t, "cd");
    NoLetter(t[1..], "ab");
    forall i | 1 <= i ensures !At(t, "ab", i) { AtDrop(t, 1, "ab", i - 1); }
    assert At(t, "ab", 0) by { assert t[0..2] == "ab"; }
    assert Find(t, "ab", 0) == 0 && Find(t, "ab", 1) < 0 && Find(t, "cd", 0) < 0;
    assert LowerBy(t, "ab", 0, 2) == LowerBy(t, "ab", 1, 2) == 2;
    assert LowerBy(t, "cd", 0, 2) == 2;
    assert LowerFrom(t, m, 0, 2) == LowerFrom(t, m, 1, 2) == LowerFrom(t, m, 2, 2);
  }

  lemma StreamOfExample(m: seq<Entry>, t: string)
    requires m == [Entry("ab", "xc"), Entry("cd", "y")] && t == "abdq" && MaxLength(m) == 2
    requires LowerFrom(t, m, 0, 2) == 2
    ensures Streamed(m, TailLength(m, LATENCY_CAP), "", [t]) == "xcdq"
  {
    assert "" + t == t && [t][1..] == [] && t[2..] == "dq" && t[..2] == "ab";
    HalvesOfExample(m);
    assert EmitCount(m, 2, t) == 2 && EmitText(m, 2, t) == "xc";
  }

  lemma HalvesOfExample(m: seq<Entry>)
    requires m == [Entry("ab", "xc"), Entry("cd", "y")]
    ensures Restored("ab", m) == "xc" && Restored("dq", m) == "dq"
  {
    RestoredTwo("ab", m[0], m[1]);
    RestoredTwo("dq", m[0], m[1]);
    assert Replace("ab", "ab", "xc") == "xc" by { assert "ab"[2..] == ""; }
    NoLetter("dq", "ab");
    ReplaceAbsent("dq", "ab", "xc");
    NoLetter("dq", "cd");
    ReplaceAbsent("dq", "cd", "y");
    forall i ensures !At("xc", "cd", i) {
      if i == 0 { assert "xc"[0..2] == "xc"; }
    }
    ReplaceAbsent("xc", "cd", "y");
  }
}
