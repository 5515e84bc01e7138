/**
 Masked texts as pieces, and restoring them. `Restorable` is the condition under which `restore_text` gives the text
 back: at every stage the next surrogate occurs only where a token still shows it. It follows when originals are inert,
 and streaming needs in addition that surrogates occur only inside tokens of the masked text.
 */
module RoundTrip {
  import opened Text
  import opened Sorting
  import opened Restore
  import opened StreamTheorems
  import opened BatchTheorems
  import opened Pieces
  import opened PieceStream
  import opened Detection
  import opened Masking
  import opened MaskTheorems

  // ---- stretches and their pieces ----

  /** A gap of the text and the replacement after it. */
  datatype Stretch = Stretch(gap: string, rep: string, original: string, isToken: bool)

  /** Raw text, one piece a character. */
  function Characters(text: string): seq<Piece> {
    if text == "" then [] else [Raw([text[0]])] + Characters(text[1..])
  }

  /** A pseudonymized replacement is a token, any other one is raw text. */
  function PieceOf(s: Stretch): seq<Piece> { if s.isToken then [Token(s.rep, s.original)] else Characters(s.rep) }

  function WithStretch(ps: seq<Piece>, s: Stretch): seq<Piece> { ps + Characters(s.gap) + PieceOf(s) }

  /** The pieces of the first `k` stretches. */
  function PiecesTo(stretches: seq<Stretch>, k: nat): seq<Piece>
    requires k <= |stretches|
  {
    if k == 0 then [] else WithStretch(PiecesTo(stretches, k - 1), stretches[k - 1])
  }

  function ShownTo(stretches: seq<Stretch>, k: nat): string
    requires k <= |stretches|
  {
    if k == 0 then "" else ShownTo(stretches, k - 1) + stretches[k - 1].gap + stretches[k - 1].rep
  }

  function MeantTo(stretches: seq<Stretch>, k: nat): string
    requires k <= |stretches|
  {
    if k == 0 then "" else MeantTo(stretches, k - 1) + stretches[k - 1].gap + stretches[k - 1].original
  }

  /** Tokens are listed in the map, and other replacements are the original. */
  ghost predicate StretchUndone(s: Stretch, m: seq<Entry>) {
    if s.isToken then Entry(s.rep, s.original) in m else s.rep == s.original
  }

  lemma {:induction false} CharactersShow(text: string)
    ensures Flat(Characters(text)) == text && Intended(Characters(text)) == text
    ensures Fine(Characters(text)) && TokensListed(Characters(text), [])
  {
    if text != "" {
      CharactersShow(text[1..]);
      FlatHead(Raw([text[0]]), Characters(text[1..]));
      assert text == [text[0]] + text[1..];
    }
  }

  lemma PieceShows(s: Stretch)
    ensures Flat(PieceOf(s)) == s.rep && Fine(PieceOf(s))
    ensures Intended(PieceOf(s)) == if s.isToken then s.original else s.rep
  {
    CharactersShow(s.rep);
    FlatOne(Token(s.rep, s.original));
  }

  lemma FlatParts(a: seq<Piece>, b: seq<Piece>, c: seq<Piece>)
    ensures Flat(a + b + c) == Flat(a) + Flat(b) + Flat(c)
    ensures Intended(a + b + c) == Intended(a) + Intended(b) + Intended(c)
  {
    FlatAppend(a + b, c);
    FlatAppend(a, b);
    IntendedAppend(a + b, c);
    IntendedAppend(a, b);
  }

  lemma StretchShows(ps: seq<Piece>, s: Stretch)
    requires Fine(ps)
    ensures Flat(WithStretch(ps, s)) == Flat(ps) + s.gap + s.rep && Fine(WithStretch(ps, s))
  {
    PieceShows(s);
    CharactersShow(s.gap);
    FlatParts(ps, Characters(s.gap), PieceOf(s));
  }

  /** The pieces show the masked text ... */
  lemma {:induction false} PiecesShow(stretches: seq<Stretch>, k: nat)
    requires k <= |stretches|
    ensures Flat(PiecesTo(stretches, k)) == ShownTo(stretches, k) && Fine(PiecesTo(stretches, k))
  {
    if k > 0 {
      PiecesShow(stretches, k - 1);
      StretchShows(PiecesTo(stretches, k - 1), stretches[k - 1]);
    }
  }

  lemma StretchMeans(ps: seq<Piece>, s: Stretch, m: seq<Entry>)
    requires StretchUndone(s, m) && TokensListed(ps, m)
    ensures Intended(WithStretch(ps, s)) == Intended(ps) + s.gap + s.original && TokensListed(WithStretch(ps, s), m)
  {
    PieceShows(s);
    CharactersShow(s.rep);
    CharactersShow(s.gap);
    FlatParts(ps, Characters(s.gap), PieceOf(s));
  }

  /** ... and stand for the text that was masked. */
  lemma {:induction false} PiecesMean(stretches: seq<Stretch>, m: seq<Entry>, k: nat)
    requires k <= |stretches| && forall i :: 0 <= i < |stretches| ==> StretchUndone(stretches[i], m)
    ensures Intended(PiecesTo(stretches, k)) == MeantTo(stretches, k) && TokensListed(PiecesTo(stretches, k), m)
  {
    if k > 0 {
      var s := stretches[k - 1];
      PiecesMean(stretches, m, k - 1);
      StretchMeans(PiecesTo(stretches, k - 1), s, m);
      assert MeantTo(stretches, k) == MeantTo(stretches, k - 1) + s.gap + s.original;
    }
  }

  // ---- the pieces of a masked text ----

  function StretchOf(text: string, findings: seq<Finding>, modes: Modes, reps: seq<string>, k: nat): Stretch
    requires k < |findings| == |reps| && Placed(findings, |text|)
  {
    var f := findings[k];
    Stretch(text[EndOf(findings, k)..f.start], reps[k], text[f.start..f.end], ModeOf(modes, f).Pseudonymize?)
  }

  function StretchesOf(text: string, findings: seq<Finding>, modes: Modes, reps: seq<string>): (s: seq<Stretch>)
    requires |reps| == |findings| && Placed(findings, |text|)
    ensures |s| == |findings|
  {
    seq(|findings|, k requires 0 <= k < |findings| => StretchOf(text, findings, modes, reps, k))
  }

  function PiecesOf(text: string, findings: seq<Finding>, modes: Modes, reps: seq<string>): seq<Piece>
    requires |reps| == |findings| && Placed(findings, |text|)
  {
    PiecesTo(StretchesOf(text, findings, modes, reps), |findings|) + Characters(text[EndOf(findings, |findings|)..])
  }

  lemma {:induction false} StretchesShow(text: string, findings: seq<Finding>, modes: Modes, reps: seq<string>, k: nat)
    requires k <= |findings| == |reps| && Placed(findings, |text|)
    ensures ShownTo(StretchesOf(text, findings, modes, reps), k) == WovenTo(text, findings, reps, k)
  {
    if k > 0 {
      StretchesShow(text, findings, modes, reps, k - 1);
      ShowsNext(text, findings, modes, reps, k);
    }
  }

  lemma ShowsNext(text: string, findings: seq<Finding>, modes: Modes, reps: seq<string>, k: nat)
    requires 0 < k <= |findings| == |reps| && Placed(findings, |text|)
    requires ShownTo(StretchesOf(text, findings, modes, reps), k - 1) == WovenTo(text, findings, reps, k - 1)
    ensures ShownTo(StretchesOf(text, findings, modes, reps), k) == WovenTo(text, findings, reps, k)
  {
    var s := StretchesOf(text, findings, modes, reps)[k - 1];
    assert s.gap == text[EndOf(findings, k - 1)..findings[k - 1].start] && s.rep == reps[k - 1];
    var shown, woven := ShownTo(StretchesOf(text, findings, modes, reps), k - 1), WovenTo(text, findings, reps, k - 1);
    assert shown + s.gap + s.rep == woven + s.gap + s.rep;
  }

  lemma ThreeParts(x: string, y: string, z: string, text: string, a: int, b: int, c: int)
    requires 0 <= a <= b <= c <= |text| && x == text[..a] && y == text[a..b] && z == text[b..c]
    ensures x + y + z == text[..c]
  {
  }

  lemma {:induction false} StretchesMean(text: string, findings: seq<Finding>, modes: Modes, reps: seq<string>, k: nat)
    requires k <= |findings| == |reps| && Placed(findings, |text|)
    ensures MeantTo(StretchesOf(text, findings, modes, reps), k) == text[..EndOf(findings, k)]
  {
    if k > 0 {
      var stretches, f := StretchesOf(text, findings, modes, reps), findings[k - 1];
      StretchesMean(text, findings, modes, reps, k - 1);
      ThreeParts(MeantTo(stretches, k - 1), stretches[k - 1].gap, stretches[k - 1].original, text,
                 EndOf(findings, k - 1), f.start, f.end);
    }
  }

  lemma AllPiecesShow(text: string, findings: seq<Finding>, modes: Modes, reps: seq<string>)
    requires |reps| == |findings| && Placed(findings, |text|)
    ensures Flat(PiecesOf(text, findings, modes, reps)) == Woven(text, findings, reps)
    ensures Fine(PiecesOf(text, findings, modes, reps))
  {
    var stretches, tail := StretchesOf(text, findings, modes, reps), text[EndOf(findings, |findings|)..];
    StretchesShow(text, findings, modes, reps, |findings|);
    PiecesShow(stretches, |findings|);
    CharactersShow(tail);
    FlatAppend(PiecesTo(stretches, |findings|), Characters(tail));
  }

  /** Every replacement is the untouched original or a surrogate the map sends back to it. */
  ghost predicate Undone(text: string, findings: seq<Finding>, modes: Modes, reps: seq<string>, m: seq<Entry>)
    requires |reps| == |findings| && Placed(findings, |text|)
  {
    forall k :: 0 <= k < |findings| ==>
      var original := text[findings[k].start..findings[k].end];
      match ModeOf(modes, findings[k])
      case Allow => reps[k] == original
      case Pseudonymize => Entry(reps[k], original) in m
      case _ => false
  }

  lemma AllPiecesMean(text: string, findings: seq<Finding>, modes: Modes, reps: seq<string>, m: seq<Entry>)
    requires |reps| == |findings| && Placed(findings, |text|) && Undone(text, findings, modes, reps, m)
    ensures Intended(PiecesOf(text, findings, modes, reps)) == text
    ensures TokensListed(PiecesOf(text, findings, modes, reps), m)
  {
    var stretches := StretchesOf(text, findings, modes, reps);
    StretchesMean(text, findings, modes, reps, |findings|);
    forall i | 0 <= i < |stretches| ensures StretchUndone(stretches[i], m) {
      assert stretches[i] == StretchOf(text, findings, modes, reps, i);
    }
    PiecesMean(stretches, m, |findings|);
    WithTail(PiecesTo(stretches, |findings|), text, EndOf(findings, |findings|), m);
  }

  lemma WithTail(ps: seq<Piece>, text: string, end: int, m: seq<Entry>)
    requires 0 <= end <= |text| && Intended(ps) == text[..end] && TokensListed(ps, m)
    ensures Intended(ps + Characters(text[end..])) == text && TokensListed(ps + Characters(text[end..]), m)
  {
    CharactersShow(text[end..]);
    IntendedAppend(ps, Characters(text[end..]));
    assert text[..end] + text[end..] == text;
  }

  // ---- restoring ----

  /** At every stage the next surrogate of the map occurs only where a token still shows it. */
  ghost predicate Restorable(text: string, findings: seq<Finding>, modes: Modes, reps: seq<string>, m: seq<Entry>)
    requires |reps| == |findings| && Placed(findings, |text|)
  {
    Settles(PiecesOf(text, findings, modes, reps), Order(m))
  }

  /** Restoring a masked text whose replacements the map undoes gives the text back. */
  lemma RestoresMasked(text: string, findings: seq<Finding>, modes: Modes, reps: seq<string>, m: seq<Entry>)
    requires |reps| == |findings| && Placed(findings, |text|) && DistinctKeys(m)
    requires Undone(text, findings, modes, reps, m) && Restorable(text, findings, modes, reps, m)
    ensures Restored(Woven(text, findings, reps), m) == text
  {
    AllPiecesShow(text, findings, modes, reps);
    AllPiecesMean(text, findings, modes, reps, m);
    PiecesComeBack(PiecesOf(text, findings, modes, reps), m);
  }

  // ---- surrogates that occur only where they were put ----

  /** An occurrence of length `n` at `a` lies inside one pseudonymized replacement. */
  ghost predicate InsideReplacement(findings: seq<Finding>, modes: Modes, reps: seq<string>, a: int, n: nat)
    requires |reps| == |findings|
  {
    exists k :: 0 <= k < |findings| && ModeOf(modes, findings[k]).Pseudonymize?
      && SpanStart(findings, reps, k) <= a && a + n <= SpanStart(findings, reps, k) + |reps[k]|
  }

  /** Surrogates of the map are not empty and occur in the masked text only inside replaced spans. */
  ghost predicate OnlyInside(masked: string, findings: seq<Finding>, modes: Modes, reps: seq<string>, m: seq<Entry>)
    requires |reps| == |findings|
  {
    && NonEmpty(m)
    && forall i, a :: 0 <= i < |m| && At(masked, m[i].surrogate, a)
         ==> InsideReplacement(findings, modes, reps, a, |m[i].surrogate|)
  }

  /** Where the replacement of stretch `k` starts. */
  function RepStart(stretches: seq<Stretch>, k: nat): nat
    requires k < |stretches|
  {
    |ShownTo(stretches, k)| + |stretches[k].gap|
  }

  lemma SizeBefore(ps: seq<Piece>, gap: string)
    ensures Size(ps + Characters(gap)) == |Flat(ps)| + |gap|
  {
    CharactersShow(gap);
    FlatAppend(ps, Characters(gap));
    FlatSize(ps + Characters(gap));
  }

  /** More stretches add pieces at the end. */
  lemma {:induction false} PiecesGrow(stretches: seq<Stretch>, j: nat, k: nat) returns (added: seq<Piece>)
    requires j <= k <= |stretches|
    ensures PiecesTo(stretches, k) == PiecesTo(stretches, j) + added
    decreases k
  {
    added := [];
    if j < k {
      var before := PiecesGrow(stretches, j, k - 1);
      var gap, last := Characters(stretches[k - 1].gap), PieceOf(stretches[k - 1]);
      added := before + gap + last;
      JoinFour(PiecesTo(stretches, j), before, gap, last);
    }
  }

  lemma JoinFour(a: seq<Piece>, b: seq<Piece>, c: seq<Piece>, d: seq<Piece>)
    ensures a + b + c + d == a + (b + c + d)
  {
  }

  /** What lies in the replacement of a token lies in one token. */
  lemma RepIsToken(stretches: seq<Stretch>, k: nat, a: int, n: nat)
    requires k < |stretches| && stretches[k].isToken
    requires RepStart(stretches, k) <= a && a + n <= RepStart(stretches, k) + |stretches[k].rep|
    ensures Encloses(PiecesTo(stretches, k + 1), a, n)
  {
    PiecesShow(stretches, k);
    LastIsToken(PiecesTo(stretches, k), stretches[k], a, n);
  }

  lemma LastIsToken(ps: seq<Piece>, s: Stretch, a: int, n: nat)
    requires s.isToken && |Flat(ps)| + |s.gap| <= a && a + n <= |Flat(ps)| + |s.gap| + |s.rep|
    ensures Encloses(WithStretch(ps, s), a, n)
  {
    SizeBefore(ps, s.gap);
    EnclosesAppend(ps + Characters(s.gap), PieceOf(s), a, n);
  }

  lemma InsideIsEnclosed(text: string, findings: seq<Finding>, modes: Modes, reps: seq<string>, m: seq<Entry>)
    requires |reps| == |findings| && Placed(findings, |text|)
    requires OnlyInside(Woven(text, findings, reps), findings, modes, reps, m)
    ensures AllEnclosed(PiecesOf(text, findings, modes, reps), m)
  {
    var ps := PiecesOf(text, findings, modes, reps);
    AllPiecesShow(text, findings, modes, reps);
    forall e | e in m ensures Enclosed(ps, e.surrogate) {
      var i :| 0 <= i < |m| && m[i] == e;
      forall a | At(Woven(text, findings, reps), e.surrogate, a) ensures Encloses(ps, a, |e.surrogate|) {
        InsideIsEncloses(text, findings, modes, reps, a, |e.surrogate|);
      }
    }
  }

  lemma InsideIsEncloses(text: string, findings: seq<Finding>, modes: Modes, reps: seq<string>, a: int, n: nat)
    requires |reps| == |findings| && Placed(findings, |text|) && InsideReplacement(findings, modes, reps, a, n)
    ensures Encloses(PiecesOf(text, findings, modes, reps), a, n)
  {
    var k :| 0 <= k < |findings| && ModeOf(modes, findings[k]).Pseudonymize?
      && SpanStart(findings, reps, k) <= a && a + n <= SpanStart(findings, reps, k) + |reps[k]|;
    SpanIsRep(text, findings, modes, reps, k);
    RepStays(StretchesOf(text, findings, modes, reps), k, a, n, Characters(text[EndOf(findings, |findings|)..]));
  }

  lemma RepStays(stretches: seq<Stretch>, k: nat, a: int, n: nat, tail: seq<Piece>)
    requires k < |stretches| && stretches[k].isToken
    requires RepStart(stretches, k) <= a && a + n <= RepStart(stretches, k) + |stretches[k].rep|
    ensures Encloses(PiecesTo(stretches, |stretches|) + tail, a, n)
  {
    RepIsToken(stretches, k, a, n);
    var added := PiecesGrow(stretches, k + 1, |stretches|);
    EnclosesAppend(PiecesTo(stretches, k + 1), added, a, n);
    EnclosesAppend(PiecesTo(stretches, |stretches|), tail, a, n);
  }

  lemma SpanIsRep(text: string, findings: seq<Finding>, modes: Modes, reps: seq<string>, k: nat)
    requires |reps| == |findings| && k < |findings| && Placed(findings, |text|)
    ensures RepStart(StretchesOf(text, findings, modes, reps), k) == SpanStart(findings, reps, k)
  {
    StretchesShow(text, findings, modes, reps, k);
    SpanLength(text, findings, reps, k);
  }

  ghost predicate Undoable(text: string, findings: seq<Finding>, modes: Modes, reps: seq<string>, m: seq<Entry>)
    requires |reps| == |findings| && Placed(findings, |text|)
  {
    && DistinctKeys(m) && Undone(text, findings, modes, reps, m)
    && OnlyInside(Woven(text, findings, reps), findings, modes, reps, m)
  }

  /** With inert originals that is enough. */
  lemma InertIsRestorable(text: string, findings: seq<Finding>, modes: Modes, reps: seq<string>, m: seq<Entry>)
    requires |reps| == |findings| && Placed(findings, |text|) && Undoable(text, findings, modes, reps, m)
    requires OriginalsInert(Order(m))
    ensures Restorable(text, findings, modes, reps, m)
  {
    var ps := PiecesOf(text, findings, modes, reps);
    AllPiecesMean(text, findings, modes, reps, m);
    InsideIsEnclosed(text, findings, modes, reps, m);
    OrderKeeps(m);
    OrderLongestFirst(m);
    InertSettles(ps, Order(m));
  }

  lemma OrderLongestFirst(m: seq<Entry>)
    ensures LongestFirst(Order(m))
  {
    assert TotalPreorder(LongerFirst);
    SortSorted(m, LongerFirst);
  }

  lemma RestoresWoven(text: string, findings: seq<Finding>, modes: Modes, reps: seq<string>, m: seq<Entry>)
    requires |reps| == |findings| && Placed(findings, |text|) && Undoable(text, findings, modes, reps, m)
    requires OriginalsInert(Order(m))
    ensures Restored(Woven(text, findings, reps), m) == text
  {
    InertIsRestorable(text, findings, modes, reps, m);
    RestoresMasked(text, findings, modes, reps, m);
  }

  /** One simultaneous pass needs no condition on the originals at all. */
  lemma SimultaneousRestores(text: string, findings: seq<Finding>, modes: Modes, reps: seq<string>, m: seq<Entry>)
    requires |reps| == |findings| && Placed(findings, |text|) && Undoable(text, findings, modes, reps, m)
    ensures Simultaneous(Woven(text, findings, reps), m) == text
  {
    AllPiecesShow(text, findings, modes, reps);
    AllPiecesMean(text, findings, modes, reps, m);
    InsideIsEnclosed(text, findings, modes, reps, m);
    SimultaneousIntended(PiecesOf(text, findings, modes, reps), m);
  }

  // ---- streaming ----

  /** The masked text, streamed in any chunks, gives the text back. */
  lemma StreamsMasked(text: string, findings: seq<Finding>, modes: Modes, reps: seq<string>, m: seq<Entry>, cap: nat,
                      chunks: seq<string>)
    requires |reps| == |findings| && Placed(findings, |text|) && Undoable(text, findings, modes, reps, m)
    requires Restorable(text, findings, modes, reps, m) && FitsCap(m, cap)
    requires Join(chunks) == Woven(text, findings, reps)
    ensures Streamed(m, TailLength(m, cap), "", chunks) == text
  {
    AllPiecesShow(text, findings, modes, reps);
    AllPiecesMean(text, findings, modes, reps, m);
    InsideIsEnclosed(text, findings, modes, reps, m);
    assert "" + Join(chunks) == Join(chunks);
    PiecesStream(PiecesOf(text, findings, modes, reps), m, cap, "", chunks);
  }
}
