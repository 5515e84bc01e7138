/**
 A masked text as a sequence of pieces: raw text, tokens that still show their surrogate, and tokens already restored.
 Restoration is exact when each replacement finds its surrogate at the tokens that show it and nowhere else. The
 conditions are about one text, not about everything the map could meet.
 */
module Pieces {
  import opened Text
  import opened Sorting
  import opened Restore
  import opened StreamTheorems
  import opened BatchTheorems

  datatype Piece = Raw(text: string) | Token(surrogate: string, original: string) | Done(original: string)

  /** What a piece shows now. */
  function Shown(p: Piece): string {
    match p case Raw(text) => text case Token(surrogate, _) => surrogate case Done(original) => original
  }

  /** What it stands for. */
  function Meant(p: Piece): string {
    match p case Raw(text) => text case Token(_, original) => original case Done(original) => original
  }

  function Flat(ps: seq<Piece>): string { if ps == [] then "" else Shown(ps[0]) + Flat(ps[1..]) }

  /** How many characters the pieces show. */
  function Size(ps: seq<Piece>): nat { if ps == [] then 0 else |Shown(ps[0])| + Size(ps[1..]) }

  function Intended(ps: seq<Piece>): string { if ps == [] then "" else Meant(ps[0]) + Intended(ps[1..]) }

  function SettleOne(p: Piece, s: string, o: string): Piece { if p.Token? && p.surrogate == s then Done(o) else p }

  /** Every token that shows `s` restored to `o`. */
  function Settle(ps: seq<Piece>, s: string, o: string): seq<Piece> {
    if ps == [] then [] else [SettleOne(ps[0], s, o)] + Settle(ps[1..], s, o)
  }

  /** Offset `a` lies in a token that shows `s`. */
  ghost predicate InToken(ps: seq<Piece>, s: string, a: int) {
    ps != [] &&
    if a < |Shown(ps[0])| then 0 <= a && ps[0].Token? && ps[0].surrogate == s
    else InToken(ps[1..], s, a - |Shown(ps[0])|)
  }

  /** Wherever `s` occurs in the text of the pieces, it starts in a token that shows it. */
  ghost predicate CleanIn(text: string, ps: seq<Piece>, s: string) {
    forall a :: At(text, s, a) ==> InToken(ps, s, a)
  }

  ghost predicate Clean(ps: seq<Piece>, s: string) { s != "" && CleanIn(Flat(ps), ps, s) }

  /** At each stage the next surrogate is clean in the partly restored text, or its replacement changes nothing. */
  ghost predicate Settles(ps: seq<Piece>, order: seq<Entry>)
    decreases |order|
  {
    order == [] ||
    ((order[0].surrogate == order[0].original || Clean(ps, order[0].surrogate))
     && Settles(Settle(ps, order[0].surrogate, order[0].original), order[1..]))
  }

  /** Every token is listed. */
  ghost predicate TokensListed(ps: seq<Piece>, m: seq<Entry>) {
    forall p :: p in ps && p.Token? ==> Entry(p.surrogate, p.original) in m
  }

  // ---- one replacement ----

  lemma FlatHead(p: Piece, rest: seq<Piece>)
    ensures Flat([p] + rest) == Shown(p) + Flat(rest) && Intended([p] + rest) == Meant(p) + Intended(rest)
  {
    assert ([p] + rest)[1..] == rest;
  }

  lemma {:induction false} FlatSize(ps: seq<Piece>)
    ensures |Flat(ps)| == Size(ps)
  {
    if ps != [] { FlatSize(ps[1..]); }
  }

  lemma CleanTail(h: string, rest: string, ps: seq<Piece>, s: string)
    requires ps != [] && Shown(ps[0]) == h && CleanIn(h + rest, ps, s)
    ensures CleanIn(rest, ps[1..], s)
  {
    forall a | At(rest, s, a) ensures InToken(ps[1..], s, a) {
      AtAfter(h, rest, s, a);
      assert InToken(ps, s, |h| + a);
    }
  }

  /** A head in which no occurrence starts is copied. */
  lemma ReplaceAfterHead(h: string, rest: string, s: string, o: string)
    requires s != "" && forall a :: 0 <= a < |h| ==> !At(h + rest, s, a)
    ensures Replace(h + rest, s, o) == h + Replace(rest, s, o)
  {
    forall a ensures !At(h, s, a) {
      if 0 <= a && a + |s| <= |h| { AtAppend(h, rest, s, a); }
    }
    ReplaceAbsent(h, s, o);
    ReplaceSplit(h, rest, s, o);
  }

  lemma ReplaceAtHead(s: string, rest: string, o: string)
    requires s != ""
    ensures Replace(s + rest, s, o) == o + Replace(rest, s, o)
  {
    assert (s + rest)[|s|..] == rest && s <= s + rest;
  }

  /** Replacing a clean surrogate restores exactly the tokens that show it, whatever it is replaced by. */
  lemma {:induction false} CleanReplace(ps: seq<Piece>, s: string, o: string)
    requires Clean(ps, s)
    ensures Replace(Flat(ps), s, o) == Flat(Settle(ps, s, o))
    decreases |ps|
  {
    if ps != [] {
      var h, rest := Shown(ps[0]), Flat(ps[1..]);
      CleanTail(h, rest, ps, s);
      CleanReplace(ps[1..], s, o);
      FlatHead(SettleOne(ps[0], s, o), Settle(ps[1..], s, o));
      if ps[0].Token? && ps[0].surrogate == s {
        ReplaceAtHead(s, rest, o);
      } else {
        forall a | 0 <= a < |h| ensures !At(h + rest, s, a) {
          assert !InToken(ps, s, a);
        }
        ReplaceAfterHead(h, rest, s, o);
      }
    }
  }

  // ---- the condition is exact for one replacement ----

  /** The first occurrence that starts in the head is replaced there. */
  lemma ReplacedInHead(h: string, rest: string, s: string, o: string, a: nat)
    requires s != "" && a < |h| && At(h + rest, s, a) && forall b :: 0 <= b < a ==> !At(h + rest, s, b)
    ensures h[..a] + o <= Replace(h + rest, s, o)
  {
    var x, y := h[..a], h[a..] + rest;
    Recut(h, rest, a);
    assert h + rest == x + y;
    ReplaceAfterHead(x, y, s, o);
    AtAfter(x, y, s, 0);
    StartsWithSub(y, s, o);
  }

  lemma StartsWithSub(y: string, s: string, o: string)
    requires s != "" && At(y, s, 0)
    ensures o <= Replace(y, s, o)
  {
    PrefixIsAt(y, s);
    assert y == s + y[|s|..];
    ReplaceAtHead(s, y[|s|..], o);
  }

  /** If an occurrence starts in a head that is kept, some replacement shows. */
  lemma HeadIsKept(h: string, rest: string, s: string, a: nat, x: string, y: string)
    requires s != "" && a < |h| && At(h + rest, s, a)
    requires Replace(h + rest, s, "a") == h + x
    ensures Replace(h + rest, s, "b") != h + y
  {
    var first := Find(h + rest, s, 0);
    ReplacedInHead(h, rest, s, "a", first);
    ReplacedInHead(h, rest, s, "b", first);
    var u, v := h[..first] + "a", h[..first] + "b";
    assert u[first] == 'a' && v[first] == 'b';
    assert (h + x)[first] == h[first] && (h + y)[first] == h[first];
  }

  lemma {:induction false} CleanFromReplace(ps: seq<Piece>, s: string)
    requires s != ""
    requires Replace(Flat(ps), s, "a") == Flat(Settle(ps, s, "a"))
    requires Replace(Flat(ps), s, "b") == Flat(Settle(ps, s, "b"))
    ensures Clean(ps, s)
    decreases |ps|
  {
    if ps != [] {
      var h, rest := Shown(ps[0]), Flat(ps[1..]);
      var x, y := Flat(Settle(ps[1..], s, "a")), Flat(Settle(ps[1..], s, "b"));
      FlatHead(SettleOne(ps[0], s, "a"), Settle(ps[1..], s, "a"));
      FlatHead(SettleOne(ps[0], s, "b"), Settle(ps[1..], s, "b"));
      if ps[0].Token? && ps[0].surrogate == s {
        ReplaceAtHead(s, rest, "a");
        ReplaceAtHead(s, rest, "b");
        SameTail("a", Replace(rest, s, "a"), x);
        SameTail("b", Replace(rest, s, "b"), y);
      } else {
        forall a | 0 <= a < |h| ensures !At(h + rest, s, a) {
          if At(h + rest, s, a) { HeadIsKept(h, rest, s, a, x, y); }
        }
        ReplaceAfterHead(h, rest, s, "a");
        ReplaceAfterHead(h, rest, s, "b");
        SameTail(h, Replace(rest, s, "a"), x);
        SameTail(h, Replace(rest, s, "b"), y);
      }
      CleanFromReplace(ps[1..], s);
      CleanCons(h, rest, ps, s);
    }
  }

  lemma SameTail(h: string, x: string, y: string)
    requires h + x == h + y
    ensures x == y
  {
    assert x == (h + x)[|h|..] && y == (h + y)[|h|..];
  }

  lemma CleanCons(h: string, rest: string, ps: seq<Piece>, s: string)
    requires ps != [] && Shown(ps[0]) == h && CleanIn(rest, ps[1..], s)
    requires (ps[0].Token? && ps[0].surrogate == s) || forall a :: 0 <= a < |h| ==> !At(h + rest, s, a)
    ensures CleanIn(h + rest, ps, s)
  {
    forall a | At(h + rest, s, a) ensures InToken(ps, s, a) {
      if |h| <= a {
        AtAfter(h, rest, s, a - |h|);
        assert InToken(ps[1..], s, a - |h|);
      }
    }
  }

  /** Whatever `s` is replaced by, its tokens are restored and nothing else changes. */
  ghost predicate ReplacesTokens(ps: seq<Piece>, s: string) {
    forall o :: Replace(Flat(ps), s, o) == Flat(Settle(ps, s, o))
  }

  /** A surrogate is clean exactly when replacing it restores the tokens that show it and changes nothing else. */
  lemma CleanExactly(ps: seq<Piece>, s: string)
    requires s != ""
    ensures Clean(ps, s) <==> ReplacesTokens(ps, s)
  {
    if Clean(ps, s) {
      forall o ensures Replace(Flat(ps), s, o) == Flat(Settle(ps, s, o)) { CleanReplace(ps, s, o); }
    } else if ReplacesTokens(ps, s) {
      CleanFromReplace(ps, s);
    }
  }

  // ---- the whole restoration ----

  lemma {:induction false} SettleKeeps(ps: seq<Piece>, e: Entry, m: seq<Entry>)
    requires TokensListed(ps, m) && DistinctKeys(m) && e in m
    ensures Intended(Settle(ps, e.surrogate, e.original)) == Intended(ps)
    ensures forall p :: p in Settle(ps, e.surrogate, e.original) && p.Token? ==> p in ps && p.surrogate != e.surrogate
    ensures e.surrogate == e.original ==> Flat(Settle(ps, e.surrogate, e.original)) == Flat(ps)
    decreases |ps|
  {
    if ps != [] {
      SettleKeeps(ps[1..], e, m);
      assert ps[0] in ps;
      if ps[0].Token? && ps[0].surrogate == e.surrogate {
        SameKeySameEntry(m, e, Entry(ps[0].surrogate, ps[0].original));
      }
      FlatHead(SettleOne(ps[0], e.surrogate, e.original), Settle(ps[1..], e.surrogate, e.original));
    }
  }

  lemma {:induction false} NoTokens(ps: seq<Piece>)
    requires TokensListed(ps, [])
    ensures Flat(ps) == Intended(ps)
    decreases |ps|
  {
    if ps != [] {
      assert ps[0] in ps;
      NoTokens(ps[1..]);
    }
  }

  /** One stage leaves the tokens of the remaining entries. */
  lemma SettledListed(ps: seq<Piece>, order: seq<Entry>)
    requires order != [] && TokensListed(ps, order) && DistinctKeys(order)
    ensures TokensListed(Settle(ps, order[0].surrogate, order[0].original), order[1..]) && DistinctKeys(order[1..])
  {
    var e, qs := order[0], Settle(ps, order[0].surrogate, order[0].original);
    SettleKeeps(ps, e, order);
    forall p | p in qs && p.Token? ensures Entry(p.surrogate, p.original) in order[1..] {
      assert Entry(p.surrogate, p.original) in order && Entry(p.surrogate, p.original) != e;
    }
    forall i, j | 0 <= i < j < |order[1..]| ensures order[1..][i].surrogate != order[1..][j].surrogate {
      assert order[1..][i] == order[i + 1] && order[1..][j] == order[j + 1];
    }
  }

  /** If every stage is clean, restoration gives every token its original and changes nothing else. */
  lemma {:induction false} SettlesRestores(ps: seq<Piece>, order: seq<Entry>)
    requires Settles(ps, order) && TokensListed(ps, order) && DistinctKeys(order)
    ensures RestoreAll(Flat(ps), order) == Intended(ps)
    decreases |order|
  {
    if order == [] {
      NoTokens(ps);
    } else {
      var e := order[0];
      SettleKeeps(ps, e, order);
      SettledListed(ps, order);
      if e.surrogate == e.original {
        ReplaceSame(Flat(ps), e.surrogate);
      } else {
        CleanReplace(ps, e.surrogate, e.original);
      }
      SettlesRestores(Settle(ps, e.surrogate, e.original), order[1..]);
    }
  }

  /** `restore_text` on a text of pieces. */
  lemma PiecesComeBack(ps: seq<Piece>, m: seq<Entry>)
    requires Settles(ps, Order(m)) && TokensListed(ps, m) && DistinctKeys(m)
    ensures Restored(Flat(ps), m) == Intended(ps)
  {
    OrderKeeps(m);
    SettlesRestores(ps, Order(m));
  }

  /** The processing order has the entries of the map, each once. */
  lemma OrderKeeps(m: seq<Entry>)
    requires DistinctKeys(m)
    ensures DistinctKeys(Order(m)) && forall e :: e in m <==> e in Order(m)
  {
    SortPairwise(m, LongerFirst, (a: Entry, b: Entry) => a.surrogate != b.surrogate);
    forall e ensures e in m <==> e in Order(m) { SortSameElements(m, LongerFirst, e); }
  }

  // ---- joining and cutting ----

  lemma {:induction false} FlatAppend(a: seq<Piece>, b: seq<Piece>)
    ensures Flat(a + b) == Flat(a) + Flat(b)
    decreases |a|
  {
    if a == [] {
      assert a + b == b;
    } else {
      FlatAppend(a[1..], b);
      assert (a + b)[1..] == a[1..] + b;
      Associative(Shown(a[0]), Flat(a[1..]), Flat(b));
    }
  }

  lemma {:induction false} IntendedAppend(a: seq<Piece>, b: seq<Piece>)
    ensures Intended(a + b) == Intended(a) + Intended(b)
    decreases |a|
  {
    if a == [] {
      assert a + b == b;
    } else {
      IntendedAppend(a[1..], b);
      assert (a + b)[1..] == a[1..] + b;
      Associative(Meant(a[0]), Intended(a[1..]), Intended(b));
    }
  }

  lemma {:induction false} SettleAppend(a: seq<Piece>, b: seq<Piece>, s: string, o: string)
    ensures Settle(a + b, s, o) == Settle(a, s, o) + Settle(b, s, o)
    decreases |a|
  {
    if a == [] {
      assert a + b == b;
    } else {
      SettleAppend(a[1..], b, s, o);
      assert (a + b)[1..] == a[1..] + b && (a + b)[0] == a[0];
      var p := SettleOne(a[0], s, o);
      assert [p] + (Settle(a[1..], s, o) + Settle(b, s, o)) == [p] + Settle(a[1..], s, o) + Settle(b, s, o);
    }
  }

  lemma {:induction false} InTokenAppend(a: seq<Piece>, b: seq<Piece>, s: string, i: nat)
    ensures InToken(a + b, s, i) <==> if i < Size(a) then InToken(a, s, i) else InToken(b, s, i - Size(a))
    decreases |a|
  {
    if a == [] {
      assert a + b == b;
    } else {
      assert (a + b)[1..] == a[1..] + b && (a + b)[0] == a[0];
      if |Shown(a[0])| <= i { InTokenAppend(a[1..], b, s, i - |Shown(a[0])|); }
    }
  }

  lemma CleanParts(u: string, v: string, a: seq<Piece>, b: seq<Piece>, s: string)
    requires CleanIn(u + v, a + b, s) && |u| == Size(a) && s != ""
    ensures CleanIn(u, a, s) && CleanIn(v, b, s)
  {
    forall i | At(u, s, i) ensures InToken(a, s, i) {
      AtAppend(u, v, s, i);
      InTokenAppend(a, b, s, i);
    }
    forall i | At(v, s, i) ensures InToken(b, s, i) {
      AtAfter(u, v, s, i);
      InTokenAppend(a, b, s, |u| + i);
    }
  }

  /** Both parts of a restorable text are restorable. */
  lemma {:induction false} SettlesParts(a: seq<Piece>, b: seq<Piece>, order: seq<Entry>)
    requires Settles(a + b, order)
    ensures Settles(a, order) && Settles(b, order)
    decreases |order|
  {
    if order != [] {
      var s, o := order[0].surrogate, order[0].original;
      FlatAppend(a, b);
      FlatSize(a);
      if s != o { CleanParts(Flat(a), Flat(b), a, b, s); }
      SettleAppend(a, b, s, o);
      SettlesParts(Settle(a, s, o), Settle(b, s, o), order[1..]);
    }
  }

  // ---- occurrences inside tokens ----

  /** The `n` characters at offset `a` lie in one token. */
  ghost predicate Encloses(ps: seq<Piece>, a: int, n: nat) {
    ps != [] &&
    ((ps[0].Token? && 0 <= a && a + n <= |Shown(ps[0])|) || Encloses(ps[1..], a - |Shown(ps[0])|, n))
  }

  /** Every occurrence of `s` in the text of the pieces lies in one token. */
  ghost predicate EnclosedIn(text: string, ps: seq<Piece>, s: string) {
    forall a :: At(text, s, a) ==> Encloses(ps, a, |s|)
  }

  ghost predicate Enclosed(ps: seq<Piece>, s: string) { s != "" && EnclosedIn(Flat(ps), ps, s) }

  ghost predicate AllEnclosed(ps: seq<Piece>, m: seq<Entry>) {
    forall e :: e in m ==> Enclosed(ps, e.surrogate)
  }

  lemma {:induction false} EnclosesInRange(ps: seq<Piece>, a: int, n: nat)
    requires Encloses(ps, a, n)
    ensures 0 <= a && a + n <= Size(ps)
    decreases |ps|
  {
    if !(ps[0].Token? && 0 <= a && a + n <= |Shown(ps[0])|) { EnclosesInRange(ps[1..], a - |Shown(ps[0])|, n); }
  }

  lemma {:induction false} EnclosesAppend(a: seq<Piece>, b: seq<Piece>, i: int, n: nat)
    ensures Encloses(a + b, i, n) <==> Encloses(a, i, n) || Encloses(b, i - Size(a), n)
    decreases |a|
  {
    if a == [] {
      assert a + b == b;
    } else {
      assert (a + b)[1..] == a[1..] + b && (a + b)[0] == a[0];
      EnclosesAppend(a[1..], b, i - |Shown(a[0])|, n);
    }
  }

  lemma EnclosedParts(u: string, v: string, a: seq<Piece>, b: seq<Piece>, s: string)
    requires EnclosedIn(u + v, a + b, s) && |u| == Size(a) && s != ""
    ensures EnclosedIn(u, a, s) && EnclosedIn(v, b, s)
  {
    forall i | At(u, s, i) ensures Encloses(a, i, |s|) {
      AtAppend(u, v, s, i);
      EnclosesAppend(a, b, i, |s|);
      if Encloses(b, i - |u|, |s|) { EnclosesInRange(b, i - |u|, |s|); }
    }
    forall i | At(v, s, i) ensures Encloses(b, i, |s|) {
      AtAfter(u, v, s, i);
      EnclosesAppend(a, b, |u| + i, |s|);
      if Encloses(a, |u| + i, |s|) { EnclosesInRange(a, |u| + i, |s|); }
    }
  }

  /** Where piece `j` starts. */
  function Offset(ps: seq<Piece>, j: nat): nat
    requires j <= |ps|
  {
    if j == 0 then 0 else |Shown(ps[0])| + Offset(ps[1..], j - 1)
  }

  /** What lies in one token and starts in piece `j` ends in it. */
  lemma {:induction false} EndsInToken(ps: seq<Piece>, j: nat, i: int, n: nat)
    requires j < |ps| && n > 0 && Encloses(ps, i, n)
    requires Offset(ps, j) <= i < Offset(ps, j) + |Shown(ps[j])|
    ensures i + n <= Offset(ps, j) + |Shown(ps[j])|
    decreases j
  {
    var h := Shown(ps[0]);
    if Encloses(ps[1..], i - |h|, n) { EnclosesInRange(ps[1..], i - |h|, n); }
    if j > 0 { EndsInToken(ps[1..], j - 1, i - |h|, n); }
  }

  // ---- inert originals keep every stage clean ----

  /** Among tokens that are no longer than `s`, an enclosed occurrence is a token that shows `s`. */
  lemma {:induction false} EnclosedInToken(ps: seq<Piece>, s: string, a: nat)
    requires s != "" && At(Flat(ps), s, a) && Encloses(ps, a, |s|)
    requires forall p :: p in ps && p.Token? ==> |p.surrogate| <= |s|
    ensures InToken(ps, s, a)
    decreases |ps|
  {
    assert ps[0] in ps;
    var n := |Shown(ps[0])|;
    if ps[0].Token? && a + |s| <= n {
      FillsHead(Shown(ps[0]), Flat(ps[1..]), s, a);
    } else {
      EnclosesInRange(ps[1..], a - n, |s|);
      OccursLater(ps, s, a - n);
      EnclosedInToken(ps[1..], s, a - n);
    }
  }

  lemma OccursLater(ps: seq<Piece>, s: string, i: nat)
    requires ps != [] && At(Flat(ps), s, |Shown(ps[0])| + i)
    ensures At(Flat(ps[1..]), s, i)
  {
    AtAfter(Shown(ps[0]), Flat(ps[1..]), s, i);
  }

  /** An occurrence in a head that is no longer than itself is the head. */
  lemma FillsHead(h: string, rest: string, s: string, a: nat)
    requires At(h + rest, s, a) && a + |s| <= |h| <= |s|
    ensures a == 0 && h == s
  {
    AtAppend(h, rest, s, a);
    assert h[0..|s|] == h;
  }

  /** An inert original shares no character with an occurrence. */
  lemma InertApart(u: string, o: string, v: string, t: string, i: nat)
    requires At(u + o + v, t, i)
    ensures Inert(o, t) ==> i + |t| <= |u| || |u| + |o| <= i
  {
    if |u| < i + |t| && i < |u| + |o| {
      if |u| <= i && i + |t| <= |u| + |o| {
        AtSlice(u + o + v, t, i, 0, |t|);
        MiddleSlice(u, o, v, i - |u|, i - |u| + |t|);
        assert At(o, t, i - |u|);
      } else if i <= |u| && |u| + |o| <= i + |t| {
        AtSlice(u + o + v, t, i, |u| - i, |u| - i + |o|);
        MiddleSlice(u, o, v, 0, |o|);
        assert At(t, o, |u| - i);
      } else {
        SharedEdge(u, o, v, t, i);
      }
    }
  }

  lemma SharedEdge(u: string, o: string, v: string, t: string, i: nat)
    requires At(u + o + v, t, i)
    requires (i < |u| < i + |t| < |u| + |o|) || (|u| < i < |u| + |o| < i + |t|)
    ensures !EdgeInert(o, t)
  {
    if i < |u| {
      var n := i + |t| - |u|;
      AtSlice(u + o + v, t, i, |t| - n, |t|);
      MiddleSlice(u, o, v, 0, n);
      assert o[..n] == t[|t| - n..];
    } else {
      var n := |u| + |o| - i;
      AtSlice(u + o + v, t, i, 0, n);
      MiddleSlice(u, o, v, |o| - n, |o|);
      assert o[|o| - n..] == t[..n];
    }
  }

  /** Restoring one token to an inert original adds no occurrence. */
  lemma EnclosedSwap(u: string, x: string, o: string, v: string, a: seq<Piece>, p: Piece, b: seq<Piece>, t: string)
    requires t != "" && EnclosedIn(u + x + v, a + [p] + b, t) && Inert(o, t)
    requires |u| == Size(a) && Shown(p) == x
    ensures EnclosedIn(u + o + v, a + [Done(o)] + b, t)
  {
    forall i | At(u + o + v, t, i) ensures Encloses(a + [Done(o)] + b, i, |t|) {
      InertApart(u, o, v, t, i);
      if i + |t| <= |u| {
        AtInFirst(u, o, x, v, t, i);
        EnclosedBefore(a, p, Done(o), b, i, |t|);
      } else {
        AtInLast(u, o, x, v, t, i - |u| - |o|);
        EnclosedAfter(a, p, Done(o), b, i - |u| - |o|, |t|);
      }
    }
  }

  /** Changing the middle of three texts keeps the occurrences in the first ... */
  lemma AtInFirst(u: string, x: string, y: string, v: string, t: string, i: nat)
    requires At(u + x + v, t, i) && i + |t| <= |u|
    ensures At(u + y + v, t, i)
  {
    Associative(u, x, v);
    Associative(u, y, v);
    AtBefore(u, x + v, y + v, t, i);
  }

  /** ... and moves those in the last. */
  lemma AtInLast(u: string, x: string, y: string, v: string, t: string, j: nat)
    requires At(u + x + v, t, |u| + |x| + j)
    ensures At(u + y + v, t, |u| + |y| + j)
  {
    AtAfter(u + x, v, t, j);
    AtAfter(u + y, v, t, j);
  }

  lemma FlatThree(a: seq<Piece>, p: Piece, b: seq<Piece>)
    ensures Flat(a + [p] + b) == Flat(a) + Shown(p) + Flat(b)
  {
    FlatAppend(a + [p], b);
    FlatAppend(a, [p]);
    FlatOne(p);
  }

  lemma FlatOne(p: Piece)
    ensures Flat([p]) == Shown(p) && Intended([p]) == Meant(p)
  {
    assert [p][1..] == [];
  }

  lemma SizeThree(a: seq<Piece>, p: Piece, b: seq<Piece>)
    ensures Size(a + [p] + b) == Size(a) + |Shown(p)| + Size(b) && Size(a + [p]) == Size(a) + |Shown(p)|
  {
    FlatThree(a, p, b);
    FlatThree(a, p, []);
    assert a + [p] + [] == a + [p];
    FlatSize(a);
    FlatSize(b);
    FlatSize(a + [p]);
    FlatSize(a + [p] + b);
  }

  lemma EnclosesThree(a: seq<Piece>, p: Piece, b: seq<Piece>, i: int, n: nat)
    ensures Encloses(a + [p] + b, i, n)
            <==> || Encloses(a, i, n) || (p.Token? && Size(a) <= i && i + n <= Size(a) + |Shown(p)|)
                 || Encloses(b, i - Size(a) - |Shown(p)|, n)
  {
    EnclosesAppend(a + [p], b, i, n);
    EnclosesAppend(a, [p], i, n);
    SizeThree(a, p, b);
    assert [p][1..] == [];
  }

  lemma EnclosedBefore(a: seq<Piece>, p: Piece, q: Piece, b: seq<Piece>, i: nat, n: nat)
    requires Encloses(a + [p] + b, i, n) && i + n <= Size(a) && n > 0
    ensures Encloses(a + [q] + b, i, n)
  {
    EnclosesThree(a, p, b, i, n);
    EnclosesThree(a, q, b, i, n);
    var j := i - Size(a) - |Shown(p)|;
    if Encloses(b, j, n) { EnclosesInRange(b, j, n); }
  }

  lemma EnclosedAfter(a: seq<Piece>, p: Piece, q: Piece, b: seq<Piece>, j: nat, n: nat)
    requires Encloses(a + [p] + b, Size(a) + |Shown(p)| + j, n) && n > 0
    ensures Encloses(a + [q] + b, Size(a) + |Shown(q)| + j, n)
  {
    var i := Size(a) + |Shown(p)| + j;
    EnclosesThree(a, p, b, i, n);
    EnclosesThree(a, q, b, Size(a) + |Shown(q)| + j, n);
    if Encloses(a, i, n) { EnclosesInRange(a, i, n); }
  }

  /** Restoring the first piece, if it shows `s`. */
  lemma EnclosedSettleOne(a: seq<Piece>, p: Piece, b: seq<Piece>, s: string, o: string, t: string)
    requires Enclosed(a + [p] + b, t) && Inert(o, t)
    ensures Enclosed(a + [SettleOne(p, s, o)] + b, t)
  {
    if p.Token? && p.surrogate == s {
      FlatThree(a, p, b);
      FlatThree(a, Done(o), b);
      FlatSize(a);
      EnclosedSwap(Flat(a), s, o, Flat(b), a, p, b, t);
    }
  }

  lemma {:induction false} EnclosedSettle(a: seq<Piece>, b: seq<Piece>, s: string, o: string, t: string)
    requires Enclosed(a + b, t) && Inert(o, t)
    ensures Enclosed(a + Settle(b, s, o), t)
    decreases |b|
  {
    if b != [] {
      var q := SettleOne(b[0], s, o);
      assert a + b == a + [b[0]] + b[1..];
      EnclosedSettleOne(a, b[0], b[1..], s, o, t);
      EnclosedSettle(a + [q], b[1..], s, o, t);
      assert a + Settle(b, s, o) == a + [q] + Settle(b[1..], s, o);
    }
  }

  ghost predicate LongestFirst(order: seq<Entry>) {
    forall i, j :: 0 <= i < j < |order| ==> LongerFirst(order[i], order[j])
  }

  lemma TokensFit(ps: seq<Piece>, order: seq<Entry>)
    requires order != [] && TokensListed(ps, order) && LongestFirst(order)
    ensures forall p :: p in ps && p.Token? ==> |p.surrogate| <= |order[0].surrogate|
  {
    forall p | p in ps && p.Token? ensures |p.surrogate| <= |order[0].surrogate| {
      var j :| 0 <= j < |order| && order[j] == Entry(p.surrogate, p.original);
      assert j > 0 ==> LongerFirst(order[0], order[j]);
    }
  }

  /** With inert originals it is enough that surrogates occur only in tokens of the masked text. */
  lemma {:induction false} InertSettles(ps: seq<Piece>, order: seq<Entry>)
    requires AllEnclosed(ps, order) && TokensListed(ps, order) && DistinctKeys(order)
    requires OriginalsInert(order) && LongestFirst(order)
    ensures Settles(ps, order)
    decreases |order|
  {
    if order != [] {
      var s, o, rest := order[0].surrogate, order[0].original, order[1..];
      assert order[0] in order;
      TokensFit(ps, order);
      forall a | At(Flat(ps), s, a) ensures InToken(ps, s, a) { EnclosedInToken(ps, s, a); }
      forall e | e in rest ensures Enclosed(Settle(ps, s, o), e.surrogate) {
        var j :| 0 <= j < |rest| && rest[j] == e;
        assert e == order[j + 1];
        assert e in order && [] + ps == ps && [] + Settle(ps, s, o) == Settle(ps, s, o);
        EnclosedSettle([], ps, s, o, e.surrogate);
      }
      SettledListed(ps, order);
      forall i, j | 0 <= i < j < |rest|
        ensures Inert(rest[i].original, rest[j].surrogate) && LongerFirst(rest[i], rest[j])
      {
        assert rest[i] == order[i + 1] && rest[j] == order[j + 1];
      }
      InertSettles(Settle(ps, s, o), rest);
    }
  }

  // ---- originals need not be inert ----

  lemma FirstLetters(text: string, s: string, a: nat)
    ensures At(text, s, a) && |s| >= 1 ==> text[a] == s[0]
    ensures At(text, s, a) && |s| >= 2 ==> text[a + 1] == s[1]
  {
    if At(text, s, a) {
      assert text[a..a + |s|] == s;
    }
  }

  /** A head that no occurrence starts in, by its letters. */
  lemma CleanHead(h: string, rest: string, ps: seq<Piece>, s: string)
    requires ps != [] && Shown(ps[0]) == h && CleanIn(rest, ps[1..], s) && |s| >= 2
    requires forall a :: 0 <= a < |h| ==> h[a] != s[0] || (a + 1 < |h + rest| && (h + rest)[a + 1] != s[1])
    ensures CleanIn(h + rest, ps, s)
  {
    forall a | 0 <= a < |h| ensures !At(h + rest, s, a) { FirstLetters(h + rest, s, a); }
    CleanCons(h, rest, ps, s);
  }

  lemma CleanLast(s: string)
    requires s == "bbb" || s == "mx"
    ensures CleanIn("-mx", [Raw("-"), Token("mx", "q")], s)
  {
    var last := [Token("mx", "q")];
    assert last[1..] == [] && [Raw("-"), Token("mx", "q")][1..] == last && "-mx" == "-" + "mx" && "mx" == "mx" + "";
    if s == "mx" { CleanCons("mx", "", last, s); } else { CleanHead("mx", "", last, s); }
    CleanHead("-", "mx", [Raw("-"), Token("mx", "q")], s);
  }

  lemma FirstStage(ps: seq<Piece>)
    requires ps == [Token("bbb", "zm"), Raw("-"), Token("mx", "q")]
    ensures Clean(ps, "bbb") && Settle(ps, "bbb", "zm") == [Done("zm"), Raw("-"), Token("mx", "q")]
  {
    var rest := [Raw("-"), Token("mx", "q")];
    assert ps[1..] == rest && rest[1..] == [Token("mx", "q")] && [Token("mx", "q")][1..] == [];
    assert Flat(rest) == "-mx";
    CleanLast("bbb");
    CleanCons("bbb", "-mx", ps, "bbb");
  }

  lemma SecondStage(qs: seq<Piece>)
    requires qs == [Done("zm"), Raw("-"), Token("mx", "q")]
    ensures Clean(qs, "mx")
  {
    var rest := [Raw("-"), Token("mx", "q")];
    assert qs[1..] == rest && rest[1..] == [Token("mx", "q")] && [Token("mx", "q")][1..] == [];
    assert Flat(rest) == "-mx";
    CleanLast("mx");
    CleanHead("zm", "-mx", qs, "mx");
  }

  /**
   "zm" ends in the letter that starts "mx", so the originals are not inert; yet here the two never meet, and every
   stage is clean.
   */
  lemma EdgeSharingSettles()
    ensures var m := [Entry("bbb", "zm"), Entry("mx", "q")];
            !OriginalsInert(m) && Settles([Token("bbb", "zm"), Raw("-"), Token("mx", "q")], m)
  {
    var ps, m := [Token("bbb", "zm"), Raw("-"), Token("mx", "q")], [Entry("bbb", "zm"), Entry("mx", "q")];
    var qs := [Done("zm"), Raw("-"), Token("mx", "q")];
    var o, s := "zm", "mx";
    assert o[|o| - 1..] == "m" == s[..1];
    assert !Inert(m[0].original, m[1].surrogate);
    FirstStage(ps);
    SecondStage(qs);
    assert m[1..] == [Entry("mx", "q")] && m[1..][1..] == [];
    assert Settles(qs, m[1..]);
  }
}
