/**
 Running the detectors on one text (`frostglass/detection/engine.py`). Detectors and hashing are arbitrary functions.
 */
module Detection {
  import opened Merge

  datatype Finding = Finding(
    entityType: string, start: int, end: int, confidence: real, detector: string, valueHash: string)

  type Detector = string -> seq<CandidateSpan>

  predicate ValidSpan(span: CandidateSpan, n: nat) {
    0 <= span.start < span.end <= n && 0.0 <= span.confidence <= 1.0
  }

  function ValidSpans(candidates: seq<CandidateSpan>, n: nat): seq<CandidateSpan> {
    if candidates == [] then []
    else if ValidSpan(candidates[0], n) then [candidates[0]] + ValidSpans(candidates[1..], n)
    else ValidSpans(candidates[1..], n)
  }

  function Candidates(detectors: seq<Detector>, text: string): seq<CandidateSpan> {
    if detectors == [] then [] else detectors[0](text) + Candidates(detectors[1..], text)
  }

  function ToFinding(span: CandidateSpan, hash: string -> string, text: string): Finding
    requires 0 <= span.start <= span.end <= |text|
  {
    Finding(span.entityType, span.start, span.end, span.confidence, span.detector, hash(text[span.start..span.end]))
  }

  /** The spans the engine keeps. */
  function KeptSpans(detectors: seq<Detector>, text: string): seq<CandidateSpan> {
    Merged(ValidSpans(Candidates(detectors, text), |text|))
  }

  lemma {:induction false} ValidSpansValid(candidates: seq<CandidateSpan>, n: nat, c: CandidateSpan)
    ensures c in ValidSpans(candidates, n) <==> c in candidates && ValidSpan(c, n)
  {
    if candidates != [] { ValidSpansValid(candidates[1..], n, c); }
  }

  lemma KeptSpansValid(detectors: seq<Detector>, text: string)
    ensures forall i :: 0 <= i < |KeptSpans(detectors, text)| ==> ValidSpan(KeptSpans(detectors, text)[i], |text|)
    ensures Disjoint(KeptSpans(detectors, text))
  {
    var valid := ValidSpans(Candidates(detectors, text), |text|);
    var kept := KeptSpans(detectors, text);
    forall i | 0 <= i < |kept| ensures ValidSpan(kept[i], |text|) {
      MergedFromInput(valid, kept[i]);
      ValidSpansValid(Candidates(detectors, text), |text|, kept[i]);
    }
    forall i | 0 <= i < |valid| ensures valid[i].start < valid[i].end {
      ValidSpansValid(Candidates(detectors, text), |text|, valid[i]);
    }
    MergedDisjoint(valid);
  }

  function ToFindings(spans: seq<CandidateSpan>, hash: string -> string, text: string): seq<Finding>
    requires forall i :: 0 <= i < |spans| ==> ValidSpan(spans[i], |text|)
  {
    seq(|spans|, i requires 0 <= i < |spans| && ValidSpan(spans[i], |text|) => ToFinding(spans[i], hash, text))
  }

  function Detected(detectors: seq<Detector>, hash: string -> string, text: string): seq<Finding> {
    KeptSpansValid(detectors, text);
    ToFindings(KeptSpans(detectors, text), hash, text)
  }

  /** What masking demands of its findings: sorted, disjoint and in range. */
  predicate Placed(findings: seq<Finding>, n: nat) {
    && (forall i :: 0 <= i < |findings| ==> 0 <= findings[i].start <= findings[i].end <= n)
    && (forall i, j :: 0 <= i < j < |findings| ==> findings[i].end <= findings[j].start)
  }

  /** No two findings share a span, so a dictionary keyed by span keeps every decision. */
  predicate SpansDistinct(findings: seq<Finding>) {
    forall i, j :: 0 <= i < j < |findings| ==>
      (findings[i].start, findings[i].end) != (findings[j].start, findings[j].end)
  }

  class DetectionEngine {
    const detectors: seq<Detector>
    const hash: string -> string

    constructor (detectors: seq<Detector>, hash: string -> string)
      ensures this.detectors == detectors && this.hash == hash
    {
      this.detectors := detectors;
      this.hash := hash;
    }

    method Detect(text: string) returns (findings: seq<Finding>)
      ensures findings == Detected(detectors, hash, text)
    {
      var candidates: seq<CandidateSpan> := [];
      for i := 0 to |detectors|
        invariant candidates + Candidates(detectors[i..], text) == Candidates(detectors, text)
      {
        assert detectors[i..][1..] == detectors[i + 1..];
        assert candidates + (detectors[i](text) + Candidates(detectors[i + 1..], text))
            == candidates + detectors[i](text) + Candidates(detectors[i + 1..], text);
        candidates := candidates + detectors[i](text);
      }
      assert candidates == Candidates(detectors, text) by {
        assert detectors[|detectors|..] == [];
        assert candidates + [] == candidates;
      }
      var valid := ValidSpans(candidates, |text|);
      var kept := MergeSpans(valid);
      KeptSpansValid(detectors, text);
      findings := ToFindings(kept, hash, text);
    }
  }

  /** Detection always meets masking's demands, whatever the detectors return. */
  lemma DetectedIsPlaced(detectors: seq<Detector>, hash: string -> string, text: string)
    ensures Placed(Detected(detectors, hash, text), |text|)
    ensures SpansDistinct(Detected(detectors, hash, text))
    ensures forall f :: f in Detected(detectors, hash, text)
              ==> 0 <= f.start < f.end <= |text| && f.valueHash == hash(text[f.start..f.end])
  {
    KeptSpansValid(detectors, text);
  }

  /** A finding is a candidate as its detector returned it, with the hash of its text. */
  predicate Reports(f: Finding, c: CandidateSpan, hash: string -> string, text: string)
    requires 0 <= c.start <= c.end <= |text|
  {
    && f.entityType == c.entityType && f.start == c.start && f.end == c.end && f.confidence == c.confidence
    && f.detector == c.detector && f.valueHash == hash(text[c.start..c.end])
  }

  lemma {:induction false} CandidatesFrom(detectors: seq<Detector>, text: string, c: CandidateSpan)
    ensures c in Candidates(detectors, text) <==> exists d :: 0 <= d < |detectors| && c in detectors[d](text)
  {
    if detectors != [] {
      CandidatesFrom(detectors[1..], text, c);
      if d :| 0 <= d < |detectors[1..]| && c in detectors[1..][d](text) {
        assert detectors[d + 1] == detectors[1..][d];
      }
      if d :| 0 <= d < |detectors| && c in detectors[d](text) {
        if d > 0 { assert detectors[1..][d - 1] == detectors[d]; }
      }
    }
  }

  /** Every finding is what some detector returned for the text, in range and with a score in [0, 1]. */
  lemma FindingIsCandidate(detectors: seq<Detector>, hash: string -> string, text: string, f: Finding)
    returns (d: nat, c: CandidateSpan)
    requires f in Detected(detectors, hash, text)
    ensures d < |detectors| && c in detectors[d](text)
    ensures 0 <= c.start < c.end <= |text| && 0.0 <= c.confidence <= 1.0 && Reports(f, c, hash, text)
  {
    KeptSpansValid(detectors, text);
    var kept := KeptSpans(detectors, text);
    var i :| 0 <= i < |kept| && f == ToFinding(kept[i], hash, text);
    c := kept[i];
    MergedFromInput(ValidSpans(Candidates(detectors, text), |text|), c);
    ValidSpansValid(Candidates(detectors, text), |text|, c);
    CandidatesFrom(detectors, text, c);
    d :| 0 <= d < |detectors| && c in detectors[d](text);
  }

  /** Whatever a detector returns in range and with a score in [0, 1] is reported, or overlaps what beats it. */
  lemma CandidateIsCovered(detectors: seq<Detector>, hash: string -> string, text: string, d: nat, c: CandidateSpan)
    returns (f: Finding, r: CandidateSpan)
    requires d < |detectors| && c in detectors[d](text)
    requires 0 <= c.start < c.end <= |text| && 0.0 <= c.confidence <= 1.0
    ensures f in Detected(detectors, hash, text) && 0 <= r.start < r.end <= |text| && Reports(f, r, hash, text)
    ensures SameButType(r, c) || (Overlap(r, c) && Beats(r, c))
  {
    var valid := ValidSpans(Candidates(detectors, text), |text|);
    CandidatesFrom(detectors, text, c);
    ValidSpansValid(Candidates(detectors, text), |text|, c);
    forall i | 0 <= i < |valid| ensures valid[i].start < valid[i].end {
      ValidSpansValid(Candidates(detectors, text), |text|, valid[i]);
    }
    RejectedIsBeaten(valid, c);
    r :| r in Merged(valid) && (SameButType(r, c) || (Overlap(r, c) && Beats(r, c)));
    KeptSpansValid(detectors, text);
    var i :| 0 <= i < |Merged(valid)| && Merged(valid)[i] == r;
    f := Detected(detectors, hash, text)[i];
  }
}
