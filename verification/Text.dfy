/** Python string operations used throughout the gateway: `str.find`, `str.replace` and slicing facts. */
module Text {

  /** `pat` occurs in `text` at offset `i`. */
  predicate At(text: string, pat: string, i: int) {
    0 <= i && i + |pat| <= |text| && text[i..i + |pat|] == pat
  }

  /** `text.find(pat, from)`. */
  function Find(text: string, pat: string, from: nat): (r: int)
    ensures r < 0 ==> forall i :: from <= i ==> !At(text, pat, i)
    ensures 0 <= r ==> from <= r && At(text, pat, r) && forall i :: from <= i < r ==> !At(text, pat, i)
    decreases |text| - from
  {
    if |text| < from + |pat| then -1
    else if At(text, pat, from) then from
    else if from == |text| then -1
    else Find(text, pat, from + 1)
  }

  /** `text.replace(pat, sub)`: leftmost, non-overlapping; an empty pattern matches between all characters. */
  function Replace(text: string, pat: string, sub: string): string {
    if pat == "" then Interleave(text, sub)
    else if text == "" then ""
    else if pat <= text then sub + Replace(text[|pat|..], pat, sub)
    else [text[0]] + Replace(text[1..], pat, sub)
  }

  function Interleave(text: string, sub: string): string {
    if text == "" then sub else sub + [text[0]] + Interleave(text[1..], sub)
  }

  /** `"".join(parts)`. */
  function Join(parts: seq<string>): string {
    if parts == [] then "" else parts[0] + Join(parts[1..])
  }

  lemma Associative(a: string, b: string, c: string)
    ensures a + (b + c) == a + b + c
  {
  }

  lemma {:induction false} JoinAppend(a: seq<string>, b: seq<string>)
    ensures Join(a + b) == Join(a) + Join(b)
  {
    if a == [] {
      assert a + b == b;
    } else {
      JoinAppend(a[1..], b);
      assert (a + b)[1..] == a[1..] + b;
      Associative(a[0], Join(a[1..]), Join(b));
    }
  }

  /** Cutting at `n` and putting the end back. */
  lemma Recut(u: string, v: string, n: nat)
    requires n <= |u|
    ensures u[..n] + (u[n..] + v) == u + v
  {
  }

  lemma JoinSnoc(a: seq<string>, x: string)
    ensures Join(a + [x]) == Join(a) + x
  {
    JoinAppend(a, [x]);
    assert Join([x]) == x + Join([]);
  }

  /** An occurrence survives dropping a prefix that ends before it. */
  lemma AtDrop(text: string, n: nat, pat: string, i: nat)
    requires n <= |text|
    ensures At(text[n..], pat, i) <==> At(text, pat, i + n)
  {
    if i + n + |pat| <= |text| {
      assert text[n..][i..i + |pat|] == text[i + n..i + n + |pat|];
    }
  }

  /** Text appended after an occurrence does not matter to it. */
  lemma AtAppend(u: string, v: string, pat: string, i: int)
    requires i + |pat| <= |u|
    ensures At(u + v, pat, i) <==> At(u, pat, i)
  {
    if 0 <= i { assert (u + v)[i..i + |pat|] == u[i..i + |pat|]; }
  }

  /** An occurrence of a concatenation is an occurrence of both parts. */
  lemma AtConcat(text: string, a: string, b: string, i: int)
    requires At(text, a + b, i)
    ensures At(text, a, i) && At(text, b, i + |a|)
  {
    assert text[i..i + |a|] == text[i..i + |a + b|][..|a|];
    assert text[i + |a|..i + |a| + |b|] == text[i..i + |a + b|][|a|..];
  }

  lemma ConsTail(s: string, c: char, rest: string)
    requires s != "" && s <= [c] + rest
    ensures s[0] == c && s[1..] <= rest
  {
    assert ([c] + rest)[1..|s|] == rest[..|s| - 1];
  }

  lemma ConsPrefix(s: string, c: char, rest: string)
    requires s != "" && s[0] == c && s[1..] <= rest
    ensures s <= [c] + rest
  {
    assert s == [c] + s[1..];
  }

  /** A prefix, by its first letter and the rest. */
  lemma HeadAndTail(s: string, text: string)
    requires s != "" && text != "" && s[0] == text[0] && s[1..] <= text[1..]
    ensures s <= text
  {
    ConsPrefix(s, text[0], text[1..]);
    assert text == [text[0]] + text[1..];
  }

  /** Part of an occurrence is part of the text. */
  lemma AtSlice(text: string, pat: string, i: int, k: nat, l: nat)
    requires At(text, pat, i) && k <= l <= |pat|
    ensures pat[k..l] == text[i + k..i + l]
  {
    SubSlice(text, i, i + |pat|, k, l);
  }

  lemma SubSlice(text: string, a: nat, b: nat, k: nat, l: nat)
    requires a <= b <= |text| && k <= l <= b - a
    ensures text[a..b][k..l] == text[a + k..a + l]
  {
    forall j | 0 <= j < l - k ensures text[a..b][k..l][j] == text[a + k..a + l][j] {
    }
  }

  /** Part of the middle of three texts. */
  lemma MiddleSlice(u: string, o: string, v: string, k: nat, l: nat)
    requires k <= l <= |o|
    ensures (u + o + v)[|u| + k..|u| + l] == o[k..l]
  {
  }

  /** What follows an occurrence does not matter to it, and what precedes it only moves it. */
  lemma AtBefore(u: string, v: string, w: string, s: string, i: int)
    requires i + |s| <= |u|
    ensures At(u + v, s, i) <==> At(u + w, s, i)
  {
    AtAppend(u, v, s, i);
    AtAppend(u, w, s, i);
  }

  lemma AtAfter(u: string, v: string, s: string, i: nat)
    ensures At(v, s, i) <==> At(u + v, s, |u| + i)
  {
    AtDrop(u + v, |u|, s, i);
    assert (u + v)[|u|..] == v;
  }

  lemma PrefixIsAt(text: string, pat: string)
    ensures pat <= text <==> At(text, pat, 0)
  {
    if |pat| <= |text| { assert text[0..|pat|] == text[..|pat|]; }
  }

  lemma {:induction false} InterleaveNothing(text: string)
    ensures Interleave(text, "") == text
  {
    if text != "" {
      InterleaveNothing(text[1..]);
      assert text == [text[0]] + text[1..];
    }
  }

  /** Replacing a pattern by itself changes nothing. */
  lemma {:induction false} ReplaceSame(text: string, s: string)
    ensures Replace(text, s, s) == text
    decreases |text|
  {
    if s == "" {
      InterleaveNothing(text);
    } else if text != "" {
      var rest := text[if s <= text then |s| else 1..];
      ReplaceSame(rest, s);
      if s <= text { SameAtStart(text, s, rest); } else { SameElsewhere(text, s, rest); }
    }
  }

  lemma SameAtStart(text: string, s: string, rest: string)
    requires s != "" && s <= text && rest == text[|s|..] && Replace(rest, s, s) == rest
    ensures Replace(text, s, s) == text
  {
    assert text == s + rest;
  }

  lemma SameElsewhere(text: string, s: string, rest: string)
    requires s != "" && text != "" && !(s <= text) && rest == text[1..] && Replace(rest, s, s) == rest
    ensures Replace(text, s, s) == text
  {
    assert text == [text[0]] + rest;
  }

  lemma ReplaceExactly(s: string, o: string)
    requires s != ""
    ensures Replace(s, s, o) == o
  {
    assert s[|s|..] == "";
    assert Replace("", s, o) == "";
  }

  /** Replacing a pattern that never occurs changes nothing. */
  lemma {:induction false} ReplaceAbsent(text: string, pat: string, sub: string)
    requires pat != "" && forall i :: !At(text, pat, i)
    ensures Replace(text, pat, sub) == text
  {
    if text != "" {
      PrefixIsAt(text, pat);
      forall i ensures !At(text[1..], pat, i) {
        if 0 <= i { AtDrop(text, 1, pat, i); }
      }
      ReplaceAbsent(text[1..], pat, sub);
    }
  }

  /** Replacement distributes over a boundary that no occurrence straddles. */
  lemma {:induction false} ReplaceSplit(u: string, v: string, pat: string, sub: string)
    requires pat != ""
    requires forall i :: 0 <= i < |u| < i + |pat| ==> !At(u + v, pat, i)
    ensures Replace(u + v, pat, sub) == Replace(u, pat, sub) + Replace(v, pat, sub)
    decreases |u|
  {
    if u == "" {
      assert u + v == v;
    } else {
      StartsInLeft(u, v, pat);
      var n := if pat <= u then |pat| else 1;
      WholeAfter(u, v, pat, n);
      ReplaceSplit(u[n..], v, pat, sub);
      var head := if pat <= u then sub else [u[0]];
      assert Replace(u, pat, sub) == head + Replace(u[n..], pat, sub);
      assert Replace(u + v, pat, sub) == head + Replace(u[n..] + v, pat, sub);
      Associative(head, Replace(u[n..], pat, sub), Replace(v, pat, sub));
    }
  }

  lemma StartsInLeft(u: string, v: string, pat: string)
    requires u != "" && forall i :: 0 <= i < |u| < i + |pat| ==> !At(u + v, pat, i)
    ensures pat <= u + v <==> pat <= u
  {
    PrefixIsAt(u + v, pat);
    PrefixIsAt(u, pat);
    assert |pat| <= |u| ==> (u + v)[0..|pat|] == u[0..|pat|];
  }

  lemma WholeAfter(u: string, v: string, pat: string, n: nat)
    requires n <= |u| && forall i :: 0 <= i < |u| < i + |pat| ==> !At(u + v, pat, i)
    ensures (u + v)[n..] == u[n..] + v
    ensures forall i :: 0 <= i < |u[n..]| < i + |pat| ==> !At(u[n..] + v, pat, i)
  {
    assert (u + v)[n..] == u[n..] + v;
    forall i | 0 <= i < |u[n..]| < i + |pat| ensures !At(u[n..] + v, pat, i) {
      AtDrop(u + v, n, pat, i);
    }
  }

  /** An index of a Python slice, counted from the end when negative and clipped to the string. */
  function SliceIndex(i: int, length: nat): (j: nat)
    ensures j <= length
  {
    if i < 0 then (if i + length < 0 then 0 else i + length) else if i > length then length else i
  }

  /** `text[a:b]` for arbitrary integers. */
  function Slice(text: string, a: int, b: int): string {
    var lo, hi := SliceIndex(a, |text|), SliceIndex(b, |text|);
    if lo <= hi then text[lo..hi] else ""
  }

  /** `str(n)`. */
  function Decimal(n: nat): (s: string)
    ensures s != "" && forall i :: 0 <= i < |s| ==> '0' <= s[i] <= '9'
  {
    if n < 10 then [('0' as int + n) as char] else Decimal(n / 10) + [('0' as int + n % 10) as char]
  }

  /** Different numbers are written differently. */
  lemma {:induction false} DecimalInjective(m: nat, n: nat)
    requires Decimal(m) == Decimal(n)
    ensures m == n
    decreases m
  {
    if m >= 10 && n >= 10 {
      assert Decimal(m)[..|Decimal(m)| - 1] == Decimal(m / 10) && Decimal(n)[..|Decimal(n)| - 1] == Decimal(n / 10);
      DecimalInjective(m / 10, n / 10);
    }
  }

  /** `text.removesuffix(suffix)`. */
  function RemoveSuffix(text: string, suffix: string): string {
    if |suffix| <= |text| && text[|text| - |suffix|..] == suffix then text[..|text| - |suffix|] else text
  }

  /** Python's order on strings, by code point. */
  predicate StrLeq(a: string, b: string) {
    a == "" || (b != "" && (a[0] < b[0] || (a[0] == b[0] && StrLeq(a[1..], b[1..]))))
  }

  /** The first difference is at `k`, and there `a` has the smaller code point. */
  predicate LessAt(a: string, b: string, k: nat) {
    k < |a| && k < |b| && a[k] < b[k] && forall l :: 0 <= l < k ==> a[l] == b[l]
  }

  /** One is a prefix of the other, or the first difference decides. */
  lemma {:induction false} StrLeqExactly(a: string, b: string)
    ensures StrLeq(a, b) <==> a <= b || exists k :: LessAt(a, b, k)
  {
    if a != "" && b != "" {
      assert a[0] < b[0] ==> LessAt(a, b, 0);
      StrLeqExactly(a[1..], b[1..]);
      assert a[0] == b[0] ==> (a <= b <==> a[1..] <= b[1..]) by {
        assert a == [a[0]] + a[1..] && b == [b[0]] + b[1..];
      }
      if a[0] == b[0] { LessLater(a, b); }
      if k: nat :| LessAt(a, b, k) && k > 0 { assert LessAt(a[1..], b[1..], k - 1); }
    }
  }

  lemma LessLater(a: string, b: string)
    requires a != "" && b != "" && a[0] == b[0]
    ensures (exists k :: LessAt(a[1..], b[1..], k)) ==> exists k :: LessAt(a, b, k)
  {
    if k: nat :| LessAt(a[1..], b[1..], k) {
      forall l | 0 <= l < k + 1 ensures a[l] == b[l] { if l > 0 { assert a[1..][l - 1] == b[1..][l - 1]; } }
      assert LessAt(a, b, k + 1);
    }
  }

  lemma {:induction false} StrLeqTotal(a: string, b: string)
    ensures StrLeq(a, b) || StrLeq(b, a)
    ensures StrLeq(a, b) && StrLeq(b, a) ==> a == b
  {
    if a != "" && b != "" && a[0] == b[0] {
      StrLeqTotal(a[1..], b[1..]);
      assert a == [a[0]] + a[1..] && b == [b[0]] + b[1..];
    }
  }

  lemma {:induction false} StrLeqTransitive(a: string, b: string, c: string)
    requires StrLeq(a, b) && StrLeq(b, c)
    ensures StrLeq(a, c)
  {
    if a != "" && a[0] == b[0] == c[0] {
      StrLeqTransitive(a[1..], b[1..], c[1..]);
    }
  }
}
