/**
 Restoring vault surrogates in complete and in streamed provider responses (`frostglass/masking/restore.py`).

 `RestoreText` rewrites surrogates one at a time, longest first. `StreamRestorer` does the same on a stream:
 it holds back a raw tail and lowers its cut past any complete surrogate the cut would split, in one pass over
 the map. The methods are the code; the functions beside them say what one call computes, and the theorems
 about them are in `StreamTheorems`, `SingleEntry` and `BatchTheorems`.
 */
module Restore {
  import opened Text
  import opened Sorting

  datatype Entry = Entry(surrogate: string, original: string)

  predicate LongerFirst(a: Entry, b: Entry) { |a.surrogate| >= |b.surrogate| }

  /** The order in which `restore_text` processes a reverse map given in dictionary order. */
  function Order(m: seq<Entry>): seq<Entry> { Sort(m, LongerFirst) }

  lemma OrderOne(e: Entry)
    ensures Order([e]) == [e]
  {
    SortOfSorted([e], LongerFirst);
  }

  lemma OrderTwo(a: Entry, b: Entry)
    requires LongerFirst(a, b)
    ensures Order([a, b]) == [a, b]
  {
    SortOfSorted([a, b], LongerFirst);
  }

  /** Rewrite the surrogates of `order`, one after the other. */
  function RestoreAll(text: string, order: seq<Entry>): string
    decreases |order|
  {
    if order == [] then text
    else RestoreAll(Replace(text, order[0].surrogate, order[0].original), order[1..])
  }

  function Restored(text: string, m: seq<Entry>): string { RestoreAll(text, Order(m)) }

  method RestoreText(text: string, m: seq<Entry>) returns (restored: string)
    ensures restored == Restored(text, m)
  {
    restored := text;
    var order := Order(m);
    for i := 0 to |order|
      invariant RestoreAll(restored, order[i..]) == Restored(text, m)
    {
      restored := Replace(restored, order[i].surrogate, order[i].original);
      assert order[i..][1..] == order[i + 1..];
    }
  }

  /** How long a tail `StreamRestorer` holds back at most, unless its caller says otherwise. */
  const LATENCY_CAP: nat := 256

  function MaxLength(m: seq<Entry>): nat {
    if m == [] then 0
    else if |m[0].surrogate| > MaxLength(m[1..]) then |m[0].surrogate| else MaxLength(m[1..])
  }

  function TailLength(m: seq<Entry>, cap: nat): nat {
    if MaxLength(m) < cap then MaxLength(m) else cap
  }

  /** The inner loop of `feed`: visit the occurrences of one surrogate left to right, lowering the cut. */
  function LowerBy(buffer: string, s: string, from: nat, cut: int): int
    decreases |buffer| + 1 - from
  {
    var start := Find(buffer, s, from);
    if start < 0 then cut
    else LowerBy(buffer, s, start + 1, if start < cut < start + |s| then start else cut)
  }

  /** The outer loop of `feed`, from entry `k` of the map on. */
  function LowerFrom(buffer: string, m: seq<Entry>, k: nat, cut: int): int
    decreases |m| - k
  {
    if k >= |m| then cut else LowerFrom(buffer, m, k + 1, LowerBy(buffer, m[k].surrogate, 0, cut))
  }

  lemma {:induction false} LowerByShrinks(buffer: string, s: string, from: nat, cut: int)
    ensures LowerBy(buffer, s, from, cut) <= cut
    ensures 0 <= cut ==> 0 <= LowerBy(buffer, s, from, cut)
    decreases |buffer| + 1 - from
  {
    var start := Find(buffer, s, from);
    if 0 <= start {
      LowerByShrinks(buffer, s, start + 1, if start < cut < start + |s| then start else cut);
    }
  }

  lemma {:induction false} LowerFromShrinks(buffer: string, m: seq<Entry>, k: nat, cut: int)
    ensures LowerFrom(buffer, m, k, cut) <= cut
    ensures 0 <= cut ==> 0 <= LowerFrom(buffer, m, k, cut)
    decreases |m| - k
  {
    if k < |m| {
      LowerByShrinks(buffer, m[k].surrogate, 0, cut);
      LowerFromShrinks(buffer, m, k + 1, LowerBy(buffer, m[k].surrogate, 0, cut));
    }
  }

  /** How much of a full buffer one `feed` emits. */
  function EmitCount(m: seq<Entry>, tail: nat, buffer: string): (n: nat)
    ensures n <= |buffer|
  {
    if tail == 0 then |buffer|
    else if |buffer| <= tail then 0
    else
      LowerFromShrinks(buffer, m, 0, |buffer| - tail);
      LowerFrom(buffer, m, 0, |buffer| - tail)
  }

  /** What one `feed` emits; a map without a tail passes text through untouched. */
  function EmitText(m: seq<Entry>, tail: nat, buffer: string): string {
    var n := EmitCount(m, tail, buffer);
    if tail == 0 then buffer else if n == 0 then "" else Restored(buffer[..n], m)
  }

  /** The inner `while` loop of `feed`, for one surrogate of the map. */
  method LowerCut(buffer: string, s: string, initial: int) returns (cut: int)
    ensures cut == LowerBy(buffer, s, 0, initial)
  {
    cut := initial;
    var start := Find(buffer, s, 0);
    ghost var from := 0;
    while start >= 0
      invariant 0 <= from <= |buffer| + 1 && start == Find(buffer, s, from)
      invariant LowerBy(buffer, s, from, cut) == LowerBy(buffer, s, 0, initial)
      decreases |buffer| + 1 - from
    {
      var end := start + |s|;
      if start < cut < end {
        cut := start;
      }
      from := start + 1;
      start := Find(buffer, s, start + 1);
    }
  }

  class StreamRestorer {
    const reverseMap: seq<Entry>
    const tailLength: nat
    var buffer: string

    constructor (m: seq<Entry>, latencyCap: nat)
      ensures reverseMap == m && tailLength == TailLength(m, latencyCap) && buffer == ""
    {
      reverseMap := m;
      tailLength := TailLength(m, latencyCap);
      buffer := "";
    }

    method Feed(chunk: string) returns (emitted: string)
      modifies this`buffer
      ensures var full := old(buffer) + chunk;
              && emitted == EmitText(reverseMap, tailLength, full)
              && buffer == full[EmitCount(reverseMap, tailLength, full)..]
    {
      buffer := buffer + chunk;
      if tailLength == 0 {
        emitted, buffer := buffer, "";
        return;
      }
      var cut: int := |buffer| - tailLength;
      if cut <= 0 { return ""; }
      ghost var first, full := cut, buffer;
      LowerFromShrinks(buffer, reverseMap, 0, first);
      for k := 0 to |reverseMap|
        invariant buffer == full && 0 <= cut <= first
        invariant LowerFrom(buffer, reverseMap, k, cut) == LowerFrom(buffer, reverseMap, 0, first)
      {
        LowerByShrinks(buffer, reverseMap[k].surrogate, 0, cut);
        cut := LowerCut(buffer, reverseMap[k].surrogate, cut);
      }
      assert cut == EmitCount(reverseMap, tailLength, buffer);
      if cut <= 0 { return ""; }
      emitted := RestoreText(buffer[..cut], reverseMap);
      buffer := buffer[cut..];
    }

    method Finish() returns (remaining: string)
      modifies this`buffer
      ensures remaining == Restored(old(buffer), reverseMap) && buffer == ""
    {
      remaining, buffer := buffer, "";
      remaining := RestoreText(remaining, reverseMap);
    }
  }

  /** Everything a stream of chunks produces from a given buffer on, up to and including `finish`. */
  function Streamed(m: seq<Entry>, tail: nat, buffer: string, chunks: seq<string>): string
    decreases |chunks|
  {
    if chunks == [] then Restored(buffer, m)
    else
      var full := buffer + chunks[0];
      EmitText(m, tail, full) + Streamed(m, tail, full[EmitCount(m, tail, full)..], chunks[1..])
  }

  lemma StreamedStep(m: seq<Entry>, tail: nat, buffer: string, chunks: seq<string>, i: nat, done: string)
    requires i < |chunks|
    ensures var full := buffer + chunks[i];
            done + Streamed(m, tail, buffer, chunks[i..])
            == done + EmitText(m, tail, full) + Streamed(m, tail, full[EmitCount(m, tail, full)..], chunks[i + 1..])
  {
    assert chunks[i..][1..] == chunks[i + 1..];
    var full := buffer + chunks[i];
    assert full == buffer + chunks[i..][0];
    Associative(done, EmitText(m, tail, full), Streamed(m, tail, full[EmitCount(m, tail, full)..], chunks[i + 1..]));
  }

  /** `restore_stream` yields only non-empty pieces; joined they are the streamed text. */
  method RestoreStream(chunks: seq<string>, m: seq<Entry>) returns (pieces: seq<string>)
    ensures Join(pieces) == Streamed(m, TailLength(m, 256), "", chunks)
    ensures forall i :: 0 <= i < |pieces| ==> pieces[i] != ""
  {
    var restorer := new StreamRestorer(m, LATENCY_CAP);
    pieces := [];
    for i := 0 to |chunks|
      invariant fresh(restorer) && restorer.reverseMap == m && restorer.tailLength == TailLength(m, LATENCY_CAP)
      invariant forall i :: 0 <= i < |pieces| ==> pieces[i] != ""
      invariant Join(pieces) + Streamed(m, restorer.tailLength, restorer.buffer, chunks[i..])
             == Streamed(m, TailLength(m, LATENCY_CAP), "", chunks)
    {
      StreamedStep(m, restorer.tailLength, restorer.buffer, chunks, i, Join(pieces));
      var emitted := restorer.Feed(chunks[i]);
      if emitted == "" {
        assert Join(pieces) + emitted == Join(pieces);
      } else {
        JoinSnoc(pieces, emitted);
        pieces := pieces + [emitted];
      }
    }
    var last := restorer.Finish();
    if last == "" {
      assert Join(pieces) + last == Join(pieces);
    } else {
      JoinSnoc(pieces, last);
      pieces := pieces + [last];
    }
  }
}
