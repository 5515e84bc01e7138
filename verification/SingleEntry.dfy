/**
 Exactly when streaming is correct for a map with one entry: for all texts and chunkings if and only if the entry
 changes nothing, or its surrogate is non-empty, cannot overlap itself, and exceeds the latency cap by at most one.
 The "only if" half builds a failing stream for every other entry.
 */
module SingleEntry {
  import opened Text
  import opened Restore
  import opened StreamTheorems

  ghost predicate AlwaysStreams(e: Entry, cap: nat) {
    forall chunks :: Streamed([e], TailLength([e], cap), "", chunks) == Restored(Join(chunks), [e])
  }

  /** The condition a caller can check before streaming. */
  ghost predicate SafeEntry(e: Entry, cap: nat) {
    || e.surrogate == e.original
    || (e.surrogate != "" && !Crosses(e.surrogate, e.surrogate) && 1 <= cap && |e.surrogate| <= cap + 1)
  }

  lemma RestoredOne(text: string, e: Entry)
    ensures Restored(text, [e]) == Replace(text, e.surrogate, e.original)
  {
    OrderOne(e);
    assert RestoreAll(text, [e]) == RestoreAll(Replace(text, e.surrogate, e.original), [e][1..]);
  }

  lemma OneEntryTail(e: Entry, cap: nat)
    ensures TailLength([e], cap) == if |e.surrogate| < cap then |e.surrogate| else cap
  {
    assert MaxLength([e][1..]) == 0;
  }

  // ---- if ----

  lemma {:induction false} IdentityStreams(e: Entry, tail: nat, buffer: string, chunks: seq<string>)
    requires e.surrogate == e.original
    ensures Streamed([e], tail, buffer, chunks) == buffer + Join(chunks)
    decreases |chunks|
  {
    if chunks == [] {
      RestoredOne(buffer, e);
      ReplaceSame(buffer, e.surrogate);
      assert buffer + Join(chunks) == buffer;
    } else {
      var full := buffer + chunks[0];
      var n := EmitCount([e], tail, full);
      RestoredOne(full[..n], e);
      ReplaceSame(full[..n], e.surrogate);
      IdentityStreams(e, tail, full[n..], chunks[1..]);
      assert EmitText([e], tail, full) == full[..n];
      assert full[..n] + (full[n..] + Join(chunks[1..])) == buffer + Join(chunks);
    }
  }

  lemma SafeStreams(e: Entry, cap: nat, chunks: seq<string>)
    requires SafeEntry(e, cap)
    ensures Streamed([e], TailLength([e], cap), "", chunks) == Restored(Join(chunks), [e])
  {
    if e.surrogate == e.original {
      IdentityStreams(e, TailLength([e], cap), "", chunks);
      RestoredOne(Join(chunks), e);
      ReplaceSame(Join(chunks), e.surrogate);
      assert "" + Join(chunks) == Join(chunks);
    } else {
      OrderOne(e);
      StreamEqualsBatch([e], cap, chunks);
    }
  }

  // ---- only if: surrogates longer than the cap, or empty ----

  lemma NoRoom(text: string, e: Entry, cut: int)
    requires |text| < |e.surrogate|
    ensures Restored(text, [e]) == text
    ensures LowerFrom(text, [e], 0, cut) == cut
  {
    RestoredOne(text, e);
    ReplaceAbsent(text, e.surrogate, e.original);
    assert LowerBy(text, e.surrogate, 0, cut) == cut;
    assert LowerFrom(text, [e], 0, cut) == LowerFrom(text, [e], 1, cut);
  }

  lemma StreamedOne(m: seq<Entry>, tail: nat, buffer: string, chunk: string)
    ensures var full := buffer + chunk;
            Streamed(m, tail, buffer, [chunk])
              == EmitText(m, tail, full) + Restored(full[EmitCount(m, tail, full)..], m)
  {
    assert [chunk][1..] == [];
  }

  /** A feed whose cut leaves no room for the surrogate before it emits raw text. */
  lemma FeedEmitsRaw(e: Entry, tail: nat, buffer: string, n: nat)
    requires 1 <= tail < |buffer| && n == LowerFrom(buffer, [e], 0, |buffer| - tail) && n < |e.surrogate|
    ensures EmitCount([e], tail, buffer) == n <= |buffer| && EmitText([e], tail, buffer) == buffer[..n]
  {
    var m := EmitCount([e], tail, buffer);
    NoRoom(buffer[..n], e, 0);
  }

  lemma StreamedTwo(e: Entry, tail: nat, a: string, b: string, n: nat)
    requires n <= |a| && EmitCount([e], tail, a) == n
    ensures Streamed([e], tail, "", [a, b])
         == EmitText([e], tail, a) + Streamed([e], tail, a[n..], [b])
  {
    assert "" + [a, b][0] == a && [a, b][1..] == [b];
  }

  lemma JoinOne(a: string)
    ensures Join([a]) == a
  {
    assert Join([a]) == a + Join([]);
  }

  lemma JoinTwo(a: string, b: string)
    ensures Join([a, b]) == a + b
  {
    JoinOne(b);
    assert [a, b][1..] == [b];
  }

  lemma WholeRestored(e: Entry)
    requires e.surrogate != ""
    ensures Restored(e.surrogate, [e]) == e.original
  {
    RestoredOne(e.surrogate, e);
    ReplaceExactly(e.surrogate, e.original);
  }

  /** A rest that is shorter than the surrogate comes out raw, in a feed and at the end. */
  lemma ShortRest(e: Entry, tail: nat, kept: string, last: string, rest: string)
    requires 1 <= tail && kept + last == rest && |rest| == tail + 1 && |rest| < |e.surrogate|
    ensures Streamed([e], tail, kept, [last]) == rest
  {
    NoRoom(rest, e, 1);
    FeedEmitsRaw(e, tail, rest, 1);
    StreamedOne([e], tail, kept, last);
    NoRoom(rest[1..], e, 0);
    assert rest[..1] + rest[1..] == rest;
  }

  /** A surrogate two or more over the cap, without its last character, keeps only the tail. */
  lemma FirstPiece(e: Entry, cap: nat, init: string, last: string)
    requires 1 <= cap && init + last == e.surrogate && |last| == 1 && |init| > cap
    ensures Streamed([e], cap, "", [init, last])
         == init[..|init| - cap] + Streamed([e], cap, init[|init| - cap..], [last])
  {
    NoRoom(init, e, |init| - cap);
    FeedEmitsRaw(e, cap, init, |init| - cap);
    StreamedTwo(e, cap, init, last, |init| - cap);
  }

  lemma TooLongPieces(e: Entry, cap: nat, init: string, last: string)
    requires 1 <= cap && init + last == e.surrogate && |last| == 1 && |init| > cap
    ensures Streamed([e], cap, "", [init, last]) == e.surrogate
  {
    var cut := |init| - cap;
    FirstPiece(e, cap, init, last);
    ShortRest(e, cap, init[cut..], last, init[cut..] + last);
    Recut(init, last, cut);
  }

  /** Fed in two pieces, a surrogate two or more characters over the cap comes out unrestored. */
  lemma TooLongFails(e: Entry, cap: nat)
    requires 1 <= cap && |e.surrogate| >= cap + 2
    ensures var s := e.surrogate; var chunks := [s[..|s| - 1], s[|s| - 1..]];
            && Streamed([e], TailLength([e], cap), "", chunks) == s
            && Restored(Join(chunks), [e]) == e.original
  {
    var init, last := e.surrogate[..|e.surrogate| - 1], e.surrogate[|e.surrogate| - 1..];
    OneEntryTail(e, cap);
    JoinTwo(init, last);
    WholeRestored(e);
    TooLongPieces(e, cap, init, last);
  }

  /** Without a tail everything passes through unrestored. */
  lemma NoTailFails(e: Entry, cap: nat)
    requires e.surrogate != e.original && (cap == 0 || e.surrogate == "")
    ensures var c := if e.surrogate == "" then "a" else e.surrogate;
            Streamed([e], TailLength([e], cap), "", [c]) != Restored(Join([c]), [e])
  {
    var c := if e.surrogate == "" then "a" else e.surrogate;
    OneEntryTail(e, cap);
    JoinOne(c);
    StreamedOne([e], 0, "", c);
    assert "" + c == c && c[|c|..] == "";
    RestoredOne(c, e);
    RestoredOne("", e);
    if e.surrogate == "" {
      assert Replace(c, "", e.original) == e.original + "a" + Interleave("", e.original) by { assert c[1..] == ""; }
    } else {
      assert c + "" == c;
      assert Replace(c, c, e.original) == e.original + Replace(c[|c|..], c, e.original);
    }
  }

  // ---- only if: surrogates that overlap themselves ----

  /** Shifting `s` by `p` overlaps it consistently. */
  predicate Period(s: string, p: nat) { 1 <= p < |s| && s[p..] == s[..|s| - p] }

  lemma OverlapIsPeriod(text: string, s: string, a: nat, b: nat)
    requires At(text, s, a) && At(text, s, b) && a < b < a + |s|
    ensures Period(s, b - a)
  {
    var p := b - a;
    forall k | 0 <= k < |s| - p ensures s[p + k] == s[k] {
      assert s[p + k] == text[a..a + |s|][p + k];
      assert s[k] == text[b..b + |s|][k];
    }
  }

  /** The smallest period of a surrogate that overlaps itself. */
  lemma LeastPeriod(s: string) returns (p: nat)
    requires Crosses(s, s)
    ensures Period(s, p) && forall r :: Period(s, r) ==> p <= r
  {
    var n :| 1 <= n < |s| && s[|s| - n..] == s[..n];
    assert Period(s, |s| - n);
    p := 1;
    while !Period(s, p)
      invariant 1 <= p <= |s| - n
      invariant forall r :: Period(s, r) ==> p <= r
      decreases |s| - p
    {
      p := p + 1;
    }
  }

  /** `t` repeats itself every `p` characters. */
  ghost predicate Repeats(t: string, p: nat) {
    forall i, j :: 0 <= i < j < |t| && j == i + p ==> t[j] == t[i]
  }

  /** `s` continued with period `p` up to length `n`. */
  lemma {:induction false} PeriodicExtension(s: string, p: nat, n: nat) returns (t: string)
    requires Period(s, p) && |s| <= n
    ensures |t| == n && s <= t && Repeats(t, p)
    decreases n
  {
    if n == |s| {
      t := s;
      forall i, j | 0 <= i < j < |t| && j == i + p ensures t[j] == t[i] {
        assert s[p..][i] == s[..|s| - p][i];
      }
    } else {
      var u := PeriodicExtension(s, p, n - 1);
      t := u + [u[n - 1 - p]];
    }
  }

  lemma {:induction false} ShiftByPeriods(t: string, p: nat, j: nat, i: nat, a: nat)
    requires 1 <= p && Repeats(t, p) && a == i + j * p && a < |t|
    ensures t[a] == t[i]
    decreases j
  {
    if j > 0 {
      assert (j - 1) * p + p == j * p;
      ShiftByPeriods(t, p, j - 1, i, a - p);
    }
  }

  lemma OccursAtMultiple(s: string, t: string, p: nat, j: nat, a: nat)
    requires 1 <= p && s <= t && Repeats(t, p) && a == j * p && a + |s| <= |t|
    ensures At(t, s, a)
  {
    forall k | 0 <= k < |s| ensures t[a..a + |s|][k] == s[k] {
      ShiftByPeriods(t, p, j, k, a + k);
    }
  }

  /** The pass skips the occurrence at 0 and stops at the next one. */
  lemma LowersToSecond(buffer: string, e: Entry, p: nat, cut: int)
    requires var s := e.surrogate;
             && At(buffer, s, 0) && At(buffer, s, p) && 1 <= p < cut < p + |s| && |s| <= cut
             && forall i :: 0 < i < p ==> !At(buffer, s, i)
    ensures LowerFrom(buffer, [e], 0, cut) == p
  {
    var s := e.surrogate;
    assert Find(buffer, s, 0) == 0 && Find(buffer, s, 1) == p;
    assert LowerBy(buffer, s, 0, cut) == LowerBy(buffer, s, 1, cut) == LowerBy(buffer, s, p + 1, p);
    PassedCutStays(buffer, s, p + 1, p);
    assert LowerFrom(buffer, [e], 0, cut) == LowerFrom(buffer, [e], 1, p);
  }

  lemma {:induction false} PassedCutStays(buffer: string, s: string, from: nat, cut: int)
    requires cut < from
    ensures LowerBy(buffer, s, from, cut) == cut
    decreases |buffer| + 1 - from
  {
    var start := Find(buffer, s, from);
    if start >= 0 { PassedCutStays(buffer, s, start + 1, cut); }
  }

  lemma LowersToZero(buffer: string, e: Entry, cut: int)
    requires At(buffer, e.surrogate, 0) && 0 < cut < |e.surrogate|
    ensures LowerFrom(buffer, [e], 0, cut) == 0
  {
    var s := e.surrogate;
    assert Find(buffer, s, 0) == 0;
    PassedCutStays(buffer, s, 1, 0);
    assert LowerFrom(buffer, [e], 0, cut) == LowerFrom(buffer, [e], 1, 0);
  }

  /** One surrogate at the start and no room for another. */
  lemma RestoreOneAtStart(text: string, e: Entry)
    requires e.surrogate != "" && e.surrogate <= text && |text| < 2 * |e.surrogate|
    ensures Restored(text, [e]) == e.original + text[|e.surrogate|..]
  {
    RestoredOne(text, e);
    NoRoom(text[|e.surrogate|..], e, 0);
    RestoredOne(text[|e.surrogate|..], e);
  }

  /** The counterexample text: `s` continued with its least period `p` until a second, disjoint `s` fits at `q`. */
  ghost predicate Witness(e: Entry, p: nat, q: nat, t: string) {
    var s := e.surrogate;
    && Period(s, p) && (forall r :: Period(s, r) ==> p <= r)
    && 2 * p <= q && |s| <= q < p + |s| && |t| == q + |s|
    && At(t, s, 0) && At(t, s, p) && At(t, s, 2 * p) && At(t, s, q)
    && Repeats(t, p)
  }

  lemma LeastMultiple(n: nat, p: nat) returns (j: nat)
    requires 1 <= p < n
    ensures 2 * p <= j * p && n <= j * p < p + n
  {
    j := 2;
    while j * p < n
      invariant 2 * p <= j * p < p + n
      decreases n - j * p
    {
      assert (j + 1) * p == j * p + p;
      j := j + 1;
    }
  }

  lemma MakeWitness(e: Entry) returns (p: nat, q: nat, t: string)
    requires Crosses(e.surrogate, e.surrogate)
    ensures Witness(e, p, q, t)
  {
    var s := e.surrogate;
    p := LeastPeriod(s);
    var j := LeastMultiple(|s|, p);
    q := j * p;
    t := PeriodicExtension(s, p, q + |s|);
    OccursAtMultiple(s, t, p, 0, 0);
    OccursAtMultiple(s, t, p, 1, p);
    OccursAtMultiple(s, t, p, 2, 2 * p);
    OccursAtMultiple(s, t, p, j, q);
  }

  lemma NoneBetween(e: Entry, p: nat, q: nat, t: string, a: nat, i: nat)
    requires Witness(e, p, q, t) && At(t, e.surrogate, a) && (a < i < a + p || (i < a && a - p < i))
    ensures !At(t, e.surrogate, i)
  {
    if At(t, e.surrogate, i) {
      OverlapIsPeriod(t, e.surrogate, if a < i then a else i, if a < i then i else a);
    }
  }

  /** Between the first and the last surrogate of the witness batch finds none. */
  lemma WitnessMiddle(e: Entry, p: nat, q: nat, t: string)
    requires Witness(e, p, q, t)
    ensures var u := t[|e.surrogate|..q];
            forall i :: 0 <= i < |u| < i + |e.surrogate| ==> !At(u + t[q..], e.surrogate, i)
  {
    var s := e.surrogate;
    var u := t[|s|..q];
    assert t[|s|..] == u + t[q..];
    forall i | 0 <= i < |u| < i + |s| ensures !At(u + t[q..], s, i) {
      AtDrop(t, |s|, s, i);
      NoneBetween(e, p, q, t, q, i + |s|);
    }
  }

  /** Batch restores the first and the last surrogate of the witness. */
  lemma WitnessBatch(e: Entry, p: nat, q: nat, t: string)
    requires Witness(e, p, q, t)
    ensures Restored(t, [e]) == e.original + t[|e.surrogate|..q] + e.original
  {
    var s, o := e.surrogate, e.original;
    RestoreOneAtStartFull(t, e);
    WitnessTail(e, p, q, t);
    Associative(o, t[|s|..q], o);
  }

  lemma RawThenSurrogate(u: string, e: Entry)
    requires |u| < |e.surrogate|
    requires forall i :: 0 <= i < |u| < i + |e.surrogate| ==> !At(u + e.surrogate, e.surrogate, i)
    ensures Replace(u + e.surrogate, e.surrogate, e.original) == u + e.original
  {
    ReplaceSplit(u, e.surrogate, e.surrogate, e.original);
    NoRoom(u, e, 0);
    RestoredOne(u, e);
    ReplaceExactly(e.surrogate, e.original);
  }

  lemma WitnessTail(e: Entry, p: nat, q: nat, t: string)
    requires Witness(e, p, q, t)
    ensures Replace(t[|e.surrogate|..], e.surrogate, e.original) == t[|e.surrogate|..q] + e.original
  {
    var u := t[|e.surrogate|..q];
    WitnessMiddle(e, p, q, t);
    EndsWithSurrogate(t, e.surrogate, q);
    RawThenSurrogate(u, e);
  }

  lemma EndsWithSurrogate(t: string, s: string, q: nat)
    requires At(t, s, q) && |t| == q + |s| && |s| <= q
    ensures t[q..] == s && t[|s|..] == t[|s|..q] + s
  {
    assert t[q..q + |s|] == t[q..];
  }

  lemma RestoreOneAtStartFull(t: string, e: Entry)
    requires e.surrogate != "" && At(t, e.surrogate, 0)
    ensures Restored(t, [e]) == e.original + Replace(t[|e.surrogate|..], e.surrogate, e.original)
  {
    RestoredOne(t, e);
    PrefixIsAt(t, e.surrogate);
  }

  /** What a stream produces when it restores only the surrogate at offset `d` of the witness. */
  lemma WitnessRest(e: Entry, p: nat, q: nat, t: string, d: nat)
    requires Witness(e, p, q, t) && p <= d <= q && At(t, e.surrogate, d)
    ensures Restored(t[d..], [e]) == e.original + t[d + |e.surrogate|..]
  {
    AtDrop(t, d, e.surrogate, 0);
    PrefixIsAt(t[d..], e.surrogate);
    RestoreOneAtStart(t[d..], e);
    assert t[d..][|e.surrogate|..] == t[d + |e.surrogate|..];
  }

  /** The batch output is the output of a stream that restores only the surrogate at `d`. */
  ghost predicate Agrees(e: Entry, q: nat, t: string, d: nat)
    requires |e.surrogate| <= q && d <= q && q + |e.surrogate| == |t|
  {
    e.original + t[|e.surrogate|..q] + e.original == t[..d] + (e.original + t[d + |e.surrogate|..])
  }

  /** What the agreement says about one character. */
  lemma AgreesAt(e: Entry, q: nat, t: string, d: nat, i: nat)
    requires |e.surrogate| <= q && d <= q && q + |e.surrogate| == |t| && Agrees(e, q, t, d)
    requires i < |e.original| == |e.surrogate|
    ensures e.original[i] == if i < d then t[i] else e.original[i - d]
  {
    var o, n := e.original, |e.surrogate|;
    assert (o + t[n..q] + o)[i] == o[i];
    assert (t[..d] + (o + t[d + n..]))[i] == if i < d then t[i] else o[i - d];
  }

  lemma WitnessStarts(e: Entry, p: nat, q: nat, t: string, i: nat)
    requires Witness(e, p, q, t) && i < |e.surrogate|
    ensures t[i] == e.surrogate[i]
  {
    assert t[0..|e.surrogate|][i] == t[i];
  }

  /** Characters one or two periods apart agree. */
  lemma WitnessRepeats(e: Entry, p: nat, q: nat, t: string, d: nat, i: nat)
    requires Witness(e, p, q, t) && (d == p || d == 2 * p) && d <= i < |t|
    ensures t[i] == t[i - d]
  {
    assert t[i] == t[i - p];
    if d == 2 * p { assert t[i - p] == t[i - d]; }
  }

  lemma {:induction false} SamePrefix(e: Entry, p: nat, q: nat, t: string, d: nat, i: nat)
    requires Witness(e, p, q, t) && (d == p || d == 2 * p) && |e.original| == |e.surrogate|
    requires Agrees(e, q, t, d) && i < |e.surrogate|
    ensures e.original[i] == e.surrogate[i]
    decreases i
  {
    AgreesAt(e, q, t, d, i);
    WitnessStarts(e, p, q, t, i);
    if d <= i {
      SamePrefix(e, p, q, t, d, i - d);
      WitnessStarts(e, p, q, t, i - d);
      WitnessRepeats(e, p, q, t, d, i);
    }
  }

  /** Batch and stream can agree on the witness only when the entry is the identity. */
  lemma AgreementForcesIdentity(e: Entry, p: nat, q: nat, t: string, d: nat)
    requires Witness(e, p, q, t) && (d == p || d == 2 * p) && Agrees(e, q, t, d)
    ensures e.original == e.surrogate
  {
    var o, s := e.original, e.surrogate;
    assert |o + t[|s|..q] + o| == 2 * |o| + q - |s|;
    assert |t[..d] + (o + t[d + |s|..])| == |o| + q;
    forall i: nat | i < |s| ensures o[i] == s[i] {
      SamePrefix(e, p, q, t, d, i);
    }
  }

  lemma Disagree(e: Entry, p: nat, q: nat, t: string, d: nat, streamed: string, batch: string)
    requires Witness(e, p, q, t) && (d == p || d == 2 * p) && e.surrogate != e.original
    requires streamed == t[..d] + (e.original + t[d + |e.surrogate|..])
    requires batch == e.original + t[|e.surrogate|..q] + e.original
    ensures streamed != batch
  {
    if streamed == batch {
      AgreementForcesIdentity(e, p, q, t, d);
    }
  }

  /** The first feed of the witness emits one period. */
  lemma WitnessFirstCut(e: Entry, p: nat, q: nat, t: string, buffer: string)
    requires Witness(e, p, q, t) && (buffer == t || buffer == t[..|t| - 1])
    ensures LowerFrom(buffer, [e], 0, q) == p
  {
    var s := e.surrogate;
    var n := |buffer|;
    assert t == buffer + t[n..];
    AtAppend(buffer, t[n..], s, 0);
    AtAppend(buffer, t[n..], s, p);
    forall i | 0 < i < p ensures !At(buffer, s, i) {
      NoneBetween(e, p, q, t, 0, i);
      AtAppend(buffer, t[n..], s, i);
    }
    LowersToSecond(buffer, e, p, q);
  }

  /** With a tail as long as the surrogate, the witness fails in one chunk. */
  lemma OverlapFailsFullTail(e: Entry, p: nat, q: nat, t: string, cap: nat)
    requires Witness(e, p, q, t) && |e.surrogate| <= cap && e.surrogate != e.original
    ensures Streamed([e], TailLength([e], cap), "", [t]) != Restored(Join([t]), [e])
  {
    var tail := TailLength([e], cap);
    OneEntryTail(e, cap);
    WitnessFirstCut(e, p, q, t, t);
    FeedEmitsRaw(e, tail, t, p);
    assert "" + t == t;
    StreamedOne([e], tail, "", t);
    WitnessRest(e, p, q, t, p);
    WitnessBatch(e, p, q, t);
    JoinOne(t);
    Disagree(e, p, q, t, p, Streamed([e], tail, "", [t]), Restored(t, [e]));
  }

  /** The second feed, one character later, emits nothing ... */
  lemma SecondFeedEmitsNothing(e: Entry, p: nat, q: nat, t: string, tail: nat)
    requires Witness(e, p, q, t) && tail == |e.surrogate| - 1 && q - p + 1 < |e.surrogate|
    ensures EmitText([e], tail, t[p..]) == "" && EmitCount([e], tail, t[p..]) == 0
  {
    AtDrop(t, p, e.surrogate, 0);
    LowersToZero(t[p..], e, q - p + 1);
    FeedEmitsRaw(e, tail, t[p..], 0);
  }

  /** ... or one more period. */
  lemma SecondFeedEmitsPeriod(e: Entry, p: nat, q: nat, t: string, tail: nat)
    requires Witness(e, p, q, t) && tail == |e.surrogate| - 1 && q - p + 1 >= |e.surrogate|
    ensures EmitText([e], tail, t[p..]) == t[p..2 * p] && EmitCount([e], tail, t[p..]) == p
  {
    var rest := t[p..];
    AfterFirstPeriod(e, p, q, t);
    LowersToSecond(rest, e, p, q - p + 1);
    FeedEmitsRaw(e, tail, rest, p);
    assert rest[..p] == t[p..2 * p];
  }

  lemma AfterFirstPeriod(e: Entry, p: nat, q: nat, t: string)
    requires Witness(e, p, q, t)
    ensures At(t[p..], e.surrogate, 0) && At(t[p..], e.surrogate, p)
    ensures forall i :: 0 < i < p ==> !At(t[p..], e.surrogate, i)
  {
    AtDrop(t, p, e.surrogate, 0);
    AtDrop(t, p, e.surrogate, p);
    forall i | 0 < i < p ensures !At(t[p..], e.surrogate, i) { NoneInSecond(e, p, q, t, i); }
  }

  lemma NoneInSecond(e: Entry, p: nat, q: nat, t: string, i: nat)
    requires Witness(e, p, q, t) && 0 < i < p
    ensures !At(t[p..], e.surrogate, i)
  {
    NoneBetween(e, p, q, t, p, i + p);
    AtDrop(t, p, e.surrogate, i);
  }

  lemma WitnessSecondFeed(e: Entry, p: nat, q: nat, t: string, tail: nat) returns (d: nat)
    requires Witness(e, p, q, t) && tail == |e.surrogate| - 1
    ensures (d == p || d == 2 * p) && At(t, e.surrogate, d)
    ensures EmitText([e], tail, t[p..]) == t[p..d] && EmitCount([e], tail, t[p..]) == d - p
  {
    if q - p + 1 < |e.surrogate| {
      d := p;
      SecondFeedEmitsNothing(e, p, q, t, tail);
    } else {
      d := 2 * p;
      SecondFeedEmitsPeriod(e, p, q, t, tail);
    }
  }

  lemma SecondFeedStream(e: Entry, p: nat, q: nat, t: string, tail: nat, kept: string, last: string) returns (d: nat)
    requires Witness(e, p, q, t) && tail == |e.surrogate| - 1 && kept + last == t[p..]
    ensures d == p || d == 2 * p
    ensures Streamed([e], tail, kept, [last]) == t[p..d] + (e.original + t[d + |e.surrogate|..])
  {
    d := WitnessSecondFeed(e, p, q, t, tail);
    WitnessRest(e, p, q, t, d);
    assert t[p..][d - p..] == t[d..];
    OneFeedThenRest([e], tail, kept, last, t[p..], t[p..d], t[d..]);
  }

  /** A last feed and the flush after it. */
  lemma OneFeedThenRest(
    m: seq<Entry>, tail: nat, kept: string, last: string, full: string, emitted: string, rest: string)
    requires kept + last == full && EmitText(m, tail, full) == emitted && full[EmitCount(m, tail, full)..] == rest
    ensures Streamed(m, tail, kept, [last]) == emitted + Restored(rest, m)
  {
    StreamedOne(m, tail, kept, last);
  }

  /** With a tail one shorter, the last character comes as a chunk of its own. */
  lemma ShortTailStream(e: Entry, p: nat, q: nat, t: string, cap: nat) returns (d: nat)
    requires Witness(e, p, q, t) && |e.surrogate| == cap + 1
    ensures d == p || d == 2 * p
    ensures Streamed([e], cap, "", [t[..|t| - 1], t[|t| - 1..]]) == t[..d] + (e.original + t[d + |e.surrogate|..])
  {
    var init, last := t[..|t| - 1], t[|t| - 1..];
    FirstFeedStream(e, p, q, t, cap, init, last);
    d := SecondFeedStream(e, p, q, t, cap, init[p..], last);
    JoinParts(t, p, d, e.original + t[d + |e.surrogate|..]);
  }

  lemma FirstFeedStream(e: Entry, p: nat, q: nat, t: string, cap: nat, init: string, last: string)
    requires Witness(e, p, q, t) && |e.surrogate| == cap + 1 && init == t[..|t| - 1] && last == t[|t| - 1..]
    ensures Streamed([e], cap, "", [init, last]) == t[..p] + Streamed([e], cap, init[p..], [last])
    ensures init[p..] + last == t[p..]
  {
    WitnessSizes(e, p, q, t);
    WitnessFirstCut(e, p, q, t, init);
    FirstFeedCuts(e, p, t, cap, init, last);
  }

  lemma FirstFeedCuts(e: Entry, p: nat, t: string, cap: nat, init: string, last: string)
    requires |t| > 0 && init == t[..|t| - 1] && last == t[|t| - 1..] && 1 <= cap < |init|
    requires p == LowerFrom(init, [e], 0, |init| - cap) && p < |e.surrogate| && p <= |init|
    ensures Streamed([e], cap, "", [init, last]) == t[..p] + Streamed([e], cap, init[p..], [last])
    ensures init[p..] + last == t[p..]
  {
    PrefixParts(t, |t| - 1, p);
    FirstFeedEmits(e, cap, init, last, p, t[..p]);
  }

  lemma WitnessSizes(e: Entry, p: nat, q: nat, t: string)
    requires Witness(e, p, q, t)
    ensures 1 <= p < |e.surrogate| <= q && |t| == q + |e.surrogate|
  {
  }

  lemma FirstFeedEmits(e: Entry, tail: nat, a: string, b: string, n: nat, emitted: string)
    requires 1 <= tail < |a| && n == LowerFrom(a, [e], 0, |a| - tail) && n < |e.surrogate| && n <= |a|
    requires emitted == a[..n]
    ensures Streamed([e], tail, "", [a, b]) == emitted + Streamed([e], tail, a[n..], [b])
  {
    FeedEmitsRaw(e, tail, a, n);
    StreamedTwo(e, tail, a, b, n);
  }

  lemma PrefixParts(t: string, n: nat, p: nat)
    requires p <= n <= |t|
    ensures t[..n][..p] == t[..p] && t[..n][p..] + t[n..] == t[p..]
  {
  }

  lemma JoinParts(t: string, p: nat, d: nat, out: string)
    requires p <= d <= |t|
    ensures t[..p] + (t[p..d] + out) == t[..d] + out
  {
    assert t[..p] + t[p..d] == t[..d];
    Associative(t[..p], t[p..d], out);
  }

  lemma OverlapFailsShortTail(e: Entry, p: nat, q: nat, t: string, cap: nat)
    requires Witness(e, p, q, t) && |e.surrogate| == cap + 1 && e.surrogate != e.original
    ensures var chunks := [t[..|t| - 1], t[|t| - 1..]];
            Streamed([e], TailLength([e], cap), "", chunks) != Restored(Join(chunks), [e])
  {
    var init, last := t[..|t| - 1], t[|t| - 1..];
    OneEntryTail(e, cap);
    JoinTwo(init, last);
    assert init + last == t;
    var d := ShortTailStream(e, p, q, t, cap);
    WitnessBatch(e, p, q, t);
    Disagree(e, p, q, t, d, Streamed([e], cap, "", [init, last]), Restored(t, [e]));
  }

  lemma FailingChunks(e: Entry, cap: nat) returns (chunks: seq<string>)
    requires !SafeEntry(e, cap)
    ensures Streamed([e], TailLength([e], cap), "", chunks) != Restored(Join(chunks), [e])
  {
    var s := e.surrogate;
    if s == "" || cap == 0 {
      NoTailFails(e, cap);
      chunks := [if s == "" then "a" else s];
    } else if |s| >= cap + 2 {
      TooLongFails(e, cap);
      chunks := [s[..|s| - 1], s[|s| - 1..]];
    } else {
      var p, q, t := MakeWitness(e);
      if |s| <= cap {
        OverlapFailsFullTail(e, p, q, t, cap);
        chunks := [t];
      } else {
        OverlapFailsShortTail(e, p, q, t, cap);
        chunks := [t[..|t| - 1], t[|t| - 1..]];
      }
    }
  }

  /** The exact condition. */
  lemma StreamsExactlyWhenSafe(e: Entry, cap: nat)
    ensures AlwaysStreams(e, cap) <==> SafeEntry(e, cap)
  {
    if SafeEntry(e, cap) {
      forall chunks ensures Streamed([e], TailLength([e], cap), "", chunks) == Restored(Join(chunks), [e]) {
        SafeStreams(e, cap, chunks);
      }
    } else {
      var chunks := FailingChunks(e, cap);
    }
  }
}
