/**
 Streaming a masked text. If surrogates occur in it only inside the tokens that were put there, no cut of
 `StreamRestorer` splits a token, so every chunking restores what batch restoration does. The conditions are about this
 one text: surrogates of the map may cross each other, and originals need not be inert.
 */
module PieceStream {
  import opened Outcomes
  import opened Text
  import opened Sorting
  import opened Restore
  import opened StreamTheorems
  import opened BatchTheorems
  import opened Pieces

  // ---- the cut and one token ----

  /** The cut does not split the span from `b` to `end`. */
  predicate Spares(cut: int, b: int, end: int) { cut <= b || end <= cut }

  /** What starts strictly inside the span ends in it. */
  ghost predicate Contained(buffer: string, s: string, b: int, end: int) {
    forall i :: b < i < end && At(buffer, s, i) ==> i + |s| <= end
  }

  lemma {:induction false} LowerByKeeps(buffer: string, s: string, from: nat, cut: int, b: int, end: int)
    requires Spares(cut, b, end) && Contained(buffer, s, b, end)
    ensures Spares(LowerBy(buffer, s, from, cut), b, end)
    decreases |buffer| + 1 - from
  {
    var start := Find(buffer, s, from);
    if 0 <= start {
      LowerByKeeps(buffer, s, start + 1, if start < cut < start + |s| then start else cut, b, end);
    }
  }

  /** Visiting the surrogate that fills the span moves the cut out of it. */
  lemma {:induction false} LowerByClears(buffer: string, s: string, from: nat, cut: int, b: int)
    requires s != "" && from <= b && At(buffer, s, b) && Contained(buffer, s, b, b + |s|)
    ensures Spares(LowerBy(buffer, s, from, cut), b, b + |s|)
    decreases |buffer| + 1 - from
  {
    var start := Find(buffer, s, from);
    var lowered := if start < cut < start + |s| then start else cut;
    if start < b {
      LowerByClears(buffer, s, start + 1, lowered, b);
    } else {
      LowerByKeeps(buffer, s, start + 1, lowered, b, b + |s|);
    }
  }

  lemma {:induction false} LowerFromKeeps(buffer: string, m: seq<Entry>, k: nat, cut: int, b: int, end: int)
    requires Spares(cut, b, end) && forall e :: e in m ==> Contained(buffer, e.surrogate, b, end)
    ensures Spares(LowerFrom(buffer, m, k, cut), b, end)
    decreases |m| - k
  {
    if k < |m| {
      LowerByKeeps(buffer, m[k].surrogate, 0, cut, b, end);
      LowerFromKeeps(buffer, m, k + 1, LowerBy(buffer, m[k].surrogate, 0, cut), b, end);
    }
  }

  /** One pass over the map in any order: the cut ends outside the span of a listed surrogate. */
  lemma {:induction false} LowerFromClears(buffer: string, m: seq<Entry>, k: nat, cut: int, b: nat, j: nat)
    requires k <= j < |m| && m[j].surrogate != "" && At(buffer, m[j].surrogate, b)
    requires forall e :: e in m ==> Contained(buffer, e.surrogate, b, b + |m[j].surrogate|)
    ensures Spares(LowerFrom(buffer, m, k, cut), b, b + |m[j].surrogate|)
    decreases |m| - k
  {
    var next := LowerBy(buffer, m[k].surrogate, 0, cut);
    if k == j {
      LowerByClears(buffer, m[k].surrogate, 0, cut, b);
      LowerFromKeeps(buffer, m, k + 1, next, b, b + |m[j].surrogate|);
    } else {
      LowerFromClears(buffer, m, k + 1, next, b, j);
    }
  }

  // ---- the cut and all tokens ----

  lemma {:induction false} OffsetNext(ps: seq<Piece>, j: nat)
    requires j < |ps|
    ensures Offset(ps, j + 1) == Offset(ps, j) + |Shown(ps[j])|
    decreases j
  {
    if j > 0 { OffsetNext(ps[1..], j - 1); }
  }

  lemma {:induction false} TokenAt(ps: seq<Piece>, j: nat)
    requires j < |ps|
    ensures At(Flat(ps), Shown(ps[j]), Offset(ps, j))
    decreases j
  {
    if j > 0 {
      TokenAt(ps[1..], j - 1);
      AtAfter(Shown(ps[0]), Flat(ps[1..]), Shown(ps[j]), Offset(ps[1..], j - 1));
    } else {
      PrefixIsAt(Flat(ps), Shown(ps[0]));
    }
  }

  ghost predicate FitsCap(m: seq<Entry>, cap: nat) {
    forall e :: e in m ==> 1 <= cap && |e.surrogate| <= cap + 1
  }

  /** Occurrences in a buffer that start strictly inside a token end in it. */
  lemma TokenContains(ps: seq<Piece>, full: string, later: string, s: string, j: nat)
    requires full + later == Flat(ps) && Enclosed(ps, s) && j < |ps|
    ensures Contained(full, s, Offset(ps, j), Offset(ps, j + 1))
  {
    OffsetNext(ps, j);
    forall i | Offset(ps, j) < i < Offset(ps, j + 1) && At(full, s, i) ensures i + |s| <= Offset(ps, j + 1) {
      AtAppend(full, later, s, i);
      EndsInToken(ps, j, i, |s|);
    }
  }

  lemma TailFits(m: seq<Entry>, cap: nat, j: nat)
    requires j < |m| && FitsCap(m, cap) && m[j].surrogate != ""
    ensures 1 <= TailLength(m, cap) && |m[j].surrogate| <= TailLength(m, cap) + 1
  {
    MaxLengthBounds(m, j);
    assert m[j] in m;
  }

  /** Lowering any cut clears a token that has arrived in full. */
  lemma LoweredSparesToken(ps: seq<Piece>, m: seq<Entry>, full: string, later: string, cut: int, j: nat, k: nat)
    requires AllEnclosed(ps, m) && full + later == Flat(ps) && j < |ps| && k < |m|
    requires Shown(ps[j]) == m[k].surrogate && Offset(ps, j + 1) <= |full|
    ensures Spares(LowerFrom(full, m, 0, cut), Offset(ps, j), Offset(ps, j + 1))
  {
    var s, b := m[k].surrogate, Offset(ps, j);
    assert m[k] in m;
    TokenAt(ps, j);
    OffsetNext(ps, j);
    AtAppend(full, later, s, b);
    forall e | e in m ensures Contained(full, e.surrogate, b, b + |s|) {
      TokenContains(ps, full, later, e.surrogate, j);
    }
    LowerFromClears(full, m, 0, cut, b, k);
  }

  /** A feed splits no token, whether it has arrived in full or not. */
  lemma CutSparesToken(ps: seq<Piece>, m: seq<Entry>, cap: nat, full: string, later: string, j: nat)
    requires AllEnclosed(ps, m) && TokensListed(ps, m) && FitsCap(m, cap) && full + later == Flat(ps)
    requires j < |ps| && ps[j].Token?
    ensures Spares(EmitCount(m, TailLength(m, cap), full), Offset(ps, j), Offset(ps, j + 1))
  {
    var tail := TailLength(m, cap);
    var k := TokenEntry(ps, m, j);
    TailFits(m, cap, k);
    OffsetNext(ps, j);
    if |full| > tail {
      var cut := |full| - tail;
      LowerFromShrinks(full, m, 0, cut);
      if Offset(ps, j) < cut { LoweredSparesToken(ps, m, full, later, cut, j, k); }
    }
  }

  lemma TokenEntry(ps: seq<Piece>, m: seq<Entry>, j: nat) returns (k: nat)
    requires AllEnclosed(ps, m) && TokensListed(ps, m) && j < |ps| && ps[j].Token?
    ensures k < |m| && m[k].surrogate == Shown(ps[j]) != ""
  {
    assert ps[j] in ps;
    k :| 0 <= k < |m| && m[k] == Entry(ps[j].surrogate, ps[j].original);
    assert m[k] in m && Enclosed(ps, m[k].surrogate);
  }

  // ---- the stream ----

  /** Every piece but a token is a single character, so a cut outside the tokens is between pieces. */
  ghost predicate Fine(ps: seq<Piece>) {
    forall p :: p in ps ==> p.Token? || (p.Raw? && |p.text| == 1)
  }

  lemma {:induction false} CutBetween(ps: seq<Piece>, n: nat) returns (i: nat)
    requires Fine(ps) && n <= Size(ps)
    requires forall j :: 0 <= j < |ps| && ps[j].Token? ==> Spares(n, Offset(ps, j), Offset(ps, j + 1))
    ensures i <= |ps| && Size(ps[..i]) == n
    decreases |ps|
  {
    i := 0;
    if n > 0 {
      var h := |Shown(ps[0])|;
      assert ps[0] in ps && Offset(ps, 1) == h;
      forall j | 0 <= j < |ps[1..]| && ps[1..][j].Token?
        ensures Spares(n - h, Offset(ps[1..], j), Offset(ps[1..], j + 1))
      {
        assert ps[1..][j] == ps[j + 1] && Spares(n, Offset(ps, j + 1), Offset(ps, j + 2));
      }
      var k := CutBetween(ps[1..], n - h);
      i := k + 1;
      assert ps[..i][1..] == ps[1..][..k];
    }
  }

  /** A masked text that restoration and streaming handle. */
  ghost predicate Streams(ps: seq<Piece>, m: seq<Entry>) {
    Fine(ps) && TokensListed(ps, m) && AllEnclosed(ps, m) && Settles(ps, Order(m))
  }

  lemma StreamsParts(ps: seq<Piece>, m: seq<Entry>, i: nat)
    requires Streams(ps, m) && i <= |ps|
    ensures Streams(ps[..i], m) && Streams(ps[i..], m)
    ensures Flat(ps) == Flat(ps[..i]) + Flat(ps[i..]) && Intended(ps) == Intended(ps[..i]) + Intended(ps[i..])
  {
    assert ps == ps[..i] + ps[i..];
    FlatAppend(ps[..i], ps[i..]);
    IntendedAppend(ps[..i], ps[i..]);
    SettlesParts(ps[..i], ps[i..], Order(m));
    FlatSize(ps[..i]);
    forall e | e in m ensures Enclosed(ps[..i], e.surrogate) && Enclosed(ps[i..], e.surrogate) {
      EnclosedParts(Flat(ps[..i]), Flat(ps[i..]), ps[..i], ps[i..], e.surrogate);
    }
  }

  /** A feed cuts between pieces. */
  lemma FeedCutsBetween(ps: seq<Piece>, m: seq<Entry>, cap: nat, full: string, later: string) returns (i: nat)
    requires Streams(ps, m) && FitsCap(m, cap) && full + later == Flat(ps)
    ensures i <= |ps| && Size(ps[..i]) == EmitCount(m, TailLength(m, cap), full)
  {
    var n := EmitCount(m, TailLength(m, cap), full);
    forall j | 0 <= j < |ps| && ps[j].Token? ensures Spares(n, Offset(ps, j), Offset(ps, j + 1)) {
      CutSparesToken(ps, m, cap, full, later, j);
    }
    FlatSize(ps);
    i := CutBetween(ps, n);
  }

  /** One feed emits what the tokens before the cut stand for and keeps the others. */
  lemma FeedSettles(ps: seq<Piece>, m: seq<Entry>, cap: nat, full: string, later: string) returns (i: nat)
    requires Streams(ps, m) && DistinctKeys(m) && FitsCap(m, cap) && full + later == Flat(ps)
    ensures i <= |ps| && EmitText(m, TailLength(m, cap), full) == Intended(ps[..i])
    ensures full[EmitCount(m, TailLength(m, cap), full)..] + later == Flat(ps[i..])
  {
    var n := EmitCount(m, TailLength(m, cap), full);
    i := FeedCutsBetween(ps, m, cap, full, later);
    StreamsParts(ps, m, i);
    FlatSize(ps[..i]);
    Recut(full, later, n);
    SameParts(Flat(ps[..i]), Flat(ps[i..]), full[..n], full[n..] + later);
    EmitsIntended(ps[..i], m, cap, full);
  }

  lemma SameParts(a: string, b: string, u: string, v: string)
    requires a + b == u + v && |a| == |u|
    ensures a == u && b == v
  {
    assert a == (a + b)[..|a|] && u == (u + v)[..|u|];
    assert b == (a + b)[|a|..] && v == (u + v)[|u|..];
  }

  lemma EmitsIntended(ps: seq<Piece>, m: seq<Entry>, cap: nat, full: string)
    requires Streams(ps, m) && DistinctKeys(m) && FitsCap(m, cap)
    requires Flat(ps) == full[..EmitCount(m, TailLength(m, cap), full)]
    ensures EmitText(m, TailLength(m, cap), full) == Intended(ps)
  {
    PiecesComeBack(ps, m);
    if TailLength(m, cap) == 0 {
      EmptyMap(m, cap, ps);
    } else if Flat(ps) == "" {
      EmptyRestored(m);
    }
  }

  /** Without a tail there is nothing to restore. */
  lemma EmptyMap(m: seq<Entry>, cap: nat, ps: seq<Piece>)
    requires FitsCap(m, cap) && AllEnclosed(ps, m) && TailLength(m, cap) == 0
    ensures m == [] && forall text :: Restored(text, m) == text
  {
    if m != [] {
      assert m[0] in m;
      TailFits(m, cap, 0);
    }
  }

  lemma EmptyRestored(m: seq<Entry>)
    requires forall e :: e in m ==> e.surrogate != ""
    ensures Restored("", m) == ""
  {
    forall e | e in Order(m) ensures e.surrogate != "" { SortSameElements(m, LongerFirst, e); }
    NothingRestored(Order(m));
  }

  lemma {:induction false} NothingRestored(order: seq<Entry>)
    requires forall e :: e in order ==> e.surrogate != ""
    ensures RestoreAll("", order) == ""
    decreases |order|
  {
    if order != [] {
      assert order[0] in order;
      NothingRestored(order[1..]);
    }
  }

  /** Every chunking of a masked text streams to what its tokens stand for. */
  lemma {:induction false} PiecesStream(ps: seq<Piece>, m: seq<Entry>, cap: nat, buffer: string, chunks: seq<string>)
    requires Streams(ps, m) && DistinctKeys(m) && FitsCap(m, cap) && buffer + Join(chunks) == Flat(ps)
    ensures Streamed(m, TailLength(m, cap), buffer, chunks) == Intended(ps)
    decreases |chunks|
  {
    if chunks == [] {
      assert buffer + Join(chunks) == buffer;
      PiecesComeBack(ps, m);
    } else {
      var full, later := buffer + chunks[0], Join(chunks[1..]);
      assert full + later == buffer + Join(chunks);
      var i := FeedSettles(ps, m, cap, full, later);
      StreamsParts(ps, m, i);
      PiecesStream(ps[i..], m, cap, full[EmitCount(m, TailLength(m, cap), full)..], chunks[1..]);
    }
  }

  // ---- one simultaneous pass ----

  /** At a token the pass picks the token's own entry, at a raw character nothing. */
  lemma PickedPiece(ps: seq<Piece>, m: seq<Entry>)
    requires ps != [] && Fine(ps) && TokensListed(ps, m) && AllEnclosed(ps, m) && DistinctKeys(m)
    ensures Pick(Flat(ps), m) == if ps[0].Token? then Some(Entry(ps[0].surrogate, ps[0].original)) else None
  {
    var h, rest := Shown(ps[0]), Flat(ps[1..]);
    assert ps[0] in ps;
    if ps[0].Token? { assert Enclosed(ps, Entry(h, ps[0].original).surrogate); }
    PickIsLongest(h + rest, m);
    forall e | e in m && e.surrogate <= h + rest ensures ps[0].Token? && |e.surrogate| <= |h| {
      StartsInHead(ps, e.surrogate);
    }
    if ps[0].Token? {
      var e, p := Entry(h, ps[0].original), Pick(h + rest, m).value;
      assert h <= h + rest;
      SamePrefixLength(h + rest, e.surrogate, p.surrogate);
      SameKeySameEntry(m, e, p);
    }
  }

  lemma StartsInHead(ps: seq<Piece>, s: string)
    requires ps != [] && Enclosed(ps, s) && s <= Flat(ps) && Shown(ps[0]) != ""
    ensures ps[0].Token? && |s| <= |Shown(ps[0])|
  {
    StartEnclosed(Flat(ps), ps, s);
    EnclosedAtHead(ps, |s|);
  }

  lemma EnclosedAtHead(ps: seq<Piece>, n: nat)
    requires ps != [] && Encloses(ps, 0, n) && Shown(ps[0]) != ""
    ensures ps[0].Token? && n <= |Shown(ps[0])|
  {
    if Encloses(ps[1..], 0 - |Shown(ps[0])|, n) { EnclosesInRange(ps[1..], 0 - |Shown(ps[0])|, n); }
  }

  lemma StartEnclosed(text: string, ps: seq<Piece>, s: string)
    requires EnclosedIn(text, ps, s) && s <= text
    ensures Encloses(ps, 0, |s|)
  {
    PrefixIsAt(text, s);
  }

  lemma {:induction false} SimultaneousIntended(ps: seq<Piece>, m: seq<Entry>)
    requires Fine(ps) && TokensListed(ps, m) && AllEnclosed(ps, m) && DistinctKeys(m)
    ensures Simultaneous(Flat(ps), m) == Intended(ps)
    decreases |ps|
  {
    if ps != [] {
      var h, rest := Shown(ps[0]), Flat(ps[1..]);
      PickedPiece(ps, m);
      TailEnclosed(ps, m);
      SimultaneousIntended(ps[1..], m);
      assert ps[0] in ps && (h + rest)[|h|..] == rest;
      if ps[0].Token? {
        assert Entry(h, ps[0].original) in m;
        assert Enclosed(ps, Entry(h, ps[0].original).surrogate);
      }
    }
  }

  lemma TailEnclosed(ps: seq<Piece>, m: seq<Entry>)
    requires ps != [] && AllEnclosed(ps, m)
    ensures AllEnclosed(ps[1..], m)
  {
    assert ps == [ps[0]] + ps[1..] && [ps[0]][1..] == [];
    FlatHead(ps[0], ps[1..]);
    forall e | e in m ensures Enclosed(ps[1..], e.surrogate) {
      EnclosedParts(Shown(ps[0]), Flat(ps[1..]), [ps[0]], ps[1..], e.surrogate);
    }
  }
}
