/**
 What every run of the vault keeps, for any generator and any clock that never goes back: live entries of the two
 tables agree, so `reverse_map` inverts the live forward mappings of a scope exactly when no two of them share a
 surrogate for different originals.
 */
module VaultTheorems {
  import opened Restore
  import opened BatchTheorems
  import opened Vault

  ghost predicate Monotone(clock: nat -> int) {
    forall i: nat, j: nat :: i <= j ==> clock(i) <= clock(j)
  }

  /** The last clock reading made. */
  function Now(env: Env, st: State): int {
    if st.tick == 0 then env.clock(0) else env.clock(st.tick - 1)
  }

  /** A reverse record sits under its own surrogate; while alive it is also the forward record of its hash. */
  ghost predicate ReverseOk(st: State, now: int, k: (string, string)) {
    k in st.reverse ==>
      var stored := st.reverse[k];
      var f := (k.0, stored.mapping.valueHash);
      && stored.mapping.surrogate == k.1
      && (stored.expiresAt > now ==> f in st.forward && st.forward[f] == stored)
  }

  /** A forward record sits under its own hash; while alive its surrogate is listed at least as long. */
  ghost predicate ForwardOk(st: State, now: int, ttl: int, k: (string, string)) {
    k in st.forward ==>
      var stored := st.forward[k];
      var r := (k.0, stored.mapping.surrogate);
      && stored.mapping.valueHash == k.1 && stored.expiresAt <= now + ttl
      && (stored.expiresAt > now ==> r in st.reverse && st.reverse[r].expiresAt >= stored.expiresAt)
  }

  ghost predicate CoherentAt(st: State, now: int, ttl: int) {
    forall k :: ReverseOk(st, now, k) && ForwardOk(st, now, ttl, k)
  }

  /** Keys and records match; what is alive in one table is alive in the other. */
  ghost predicate Coherent(env: Env, st: State) {
    CoherentAt(st, Now(env, st), env.ttl)
  }

  datatype Step = Surrogate(request: Request) | ReverseMap(scope: string) | PurgeExpired

  function After(env: Env, st: State, step: Step): State {
    match step
    case Surrogate(r) => SurrogateFor(env, st, r).1
    case ReverseMap(scope) => AfterReverse(env, st, scope)
    case PurgeExpired => Purge(env, st)
  }

  function Run(env: Env, st: State, steps: seq<Step>): State
    decreases |steps|
  {
    if steps == [] then st else Run(env, After(env, st, steps[0]), steps[1..])
  }

  // ---- coherence in every run ----

  /** Time passing keeps coherence, as does dropping what has expired. */
  lemma LaterCoherent(st: State, now: int, later: int, ttl: int, tick: nat)
    requires CoherentAt(st, now, ttl) && now <= later
    ensures CoherentAt(st.(tick := tick), later, ttl)
    ensures CoherentAt(State(Unexpired(st.forward, later), Unexpired(st.reverse, later), tick), later, ttl)
  {
    var purged := State(Unexpired(st.forward, later), Unexpired(st.reverse, later), tick);
    forall k
      ensures ReverseOk(st.(tick := tick), later, k) && ForwardOk(st.(tick := tick), later, ttl, k)
      ensures ReverseOk(purged, later, k) && ForwardOk(purged, later, ttl, k)
    {
      assert ReverseOk(st, now, k) && ForwardOk(st, now, ttl, k);
    }
  }

  /** Writing both directions is safe once the old mapping of the hash, if any, has expired. */
  lemma WriteCoherent(st: State, now: int, ttl: int, scope: string, m: Mapping, tick: nat)
    requires CoherentAt(st, now, ttl)
    requires (scope, m.valueHash) in st.forward ==> st.forward[(scope, m.valueHash)].expiresAt <= now
    ensures var stored := Stored(m, now + ttl);
            CoherentAt(State(st.forward[(scope, m.valueHash) := stored], st.reverse[(scope, m.surrogate) := stored],
                             tick), now, ttl)
  {
    var stored := Stored(m, now + ttl);
    var st' := State(st.forward[(scope, m.valueHash) := stored], st.reverse[(scope, m.surrogate) := stored], tick);
    forall k ensures ReverseOk(st', now, k) && ForwardOk(st', now, ttl, k) {
      assert ReverseOk(st, now, k) && ForwardOk(st, now, ttl, k);
    }
  }

  lemma AdvanceCoherent(env: Env, st: State, n: nat)
    requires Monotone(env.clock) && Coherent(env, st)
    ensures Coherent(env, st.(tick := st.tick + n))
  {
    LaterCoherent(st, Now(env, st), Now(env, st.(tick := st.tick + n)), env.ttl, st.tick + n);
  }

  lemma PutCoherent(env: Env, st: State, scope: string, m: Mapping)
    requires Monotone(env.clock) && Coherent(env, st)
    requires (scope, m.valueHash) in st.forward ==> st.forward[(scope, m.valueHash)].expiresAt <= Now(env, st)
    ensures Coherent(env, Put(env, st, scope, m))
  {
    var now := env.clock(st.tick);
    assert Now(env, st) <= now;
    LaterCoherent(st, Now(env, st), now, env.ttl, st.tick);
    WriteCoherent(st, now, env.ttl, scope, m, st.tick + 1);
  }

  lemma PurgeCoherent(env: Env, st: State)
    requires Monotone(env.clock) && Coherent(env, st)
    ensures Coherent(env, Purge(env, st))
  {
    LaterCoherent(st, Now(env, st), env.clock(st.tick), env.ttl, st.tick + 1);
  }

  lemma SurrogateCoherent(env: Env, st: State, r: Request)
    requires Monotone(env.clock) && Coherent(env, st)
    ensures Coherent(env, SurrogateFor(env, st, r).1)
  {
    var (existing, st') := Get(env, st, r.scope, r.valueHash);
    AdvanceCoherent(env, st, st'.tick - st.tick);
    if existing.None? {
      PutCoherent(env, st', r.scope, Mapping(r.valueHash, r.original, env.generate(r), r.entityType));
    }
  }

  lemma StepCoherent(env: Env, st: State, step: Step)
    requires Monotone(env.clock) && Coherent(env, st)
    ensures Coherent(env, After(env, st, step))
  {
    match step
    case Surrogate(r) => SurrogateCoherent(env, st, r);
    case PurgeExpired => PurgeCoherent(env, st);
    case ReverseMap(scope) =>
      PurgeCoherent(env, st);
      var purged := Purge(env, st);
      AdvanceCoherent(env, purged, |ScopeKeys(purged.reverse, scope)|);
  }

  lemma {:induction false} RunCoherent(env: Env, st: State, steps: seq<Step>)
    requires Monotone(env.clock) && Coherent(env, st)
    ensures Coherent(env, Run(env, st, steps))
    decreases |steps|
  {
    if steps != [] {
      StepCoherent(env, st, steps[0]);
      RunCoherent(env, After(env, st, steps[0]), steps[1..]);
    }
  }

  /** Every state a fresh vault can reach is coherent. */
  lemma ReachableCoherent(env: Env, steps: seq<Step>)
    requires Monotone(env.clock)
    ensures Coherent(env, Run(env, State(map[], map[], 0), steps))
  {
    RunCoherent(env, State(map[], map[], 0), steps);
  }

  // ---- where surrogates come from ----

  /** A live mapping answers a request; otherwise the answer comes from the generator. */
  lemma SurrogateSource(env: Env, st: State, r: Request)
    ensures SurrogateFor(env, st, r).0
         == if Live(env, st, r.scope, r.valueHash) then st.forward[(r.scope, r.valueHash)].mapping.surrogate
            else env.generate(r)
  {
  }

  /** The record was made for this request: generated, and with a whole time to live from one reading before `tick`. */
  ghost predicate MadeFor(env: Env, stored: Stored, step: Step, tick: nat) {
    && step.Surrogate?
    && stored.mapping == Mapping(step.request.valueHash, step.request.original, env.generate(step.request),
                                 step.request.entityType)
    && exists t: nat :: t < tick && stored.expiresAt == env.clock(t) + env.ttl
  }

  /** The record under this forward key was made for one of the requests, which has that scope and hash. */
  ghost predicate ForwardMade(env: Env, st: State, steps: seq<Step>, k: (string, string)) {
    k in st.forward ==>
      exists i :: 0 <= i < |steps| && MadeFor(env, st.forward[k], steps[i], st.tick)
                  && k == (steps[i].request.scope, steps[i].request.valueHash)
  }

  /** The record under this reverse key was made for one of the requests, which got that surrogate in that scope. */
  ghost predicate ReverseMade(env: Env, st: State, steps: seq<Step>, k: (string, string)) {
    k in st.reverse ==>
      exists i :: 0 <= i < |steps| && MadeFor(env, st.reverse[k], steps[i], st.tick)
                  && k == (steps[i].request.scope, env.generate(steps[i].request))
  }

  ghost predicate AllMade(env: Env, st: State, steps: seq<Step>) {
    forall k :: ForwardMade(env, st, steps, k) && ReverseMade(env, st, steps, k)
  }

  /** More steps and more readings leave a record made for what it was made for. */
  lemma StaysMade(env: Env, stored: Stored, steps: seq<Step>, step: Step, i: nat, tick: nat, tick': nat)
    requires i < |steps| && MadeFor(env, stored, steps[i], tick) && tick <= tick'
    ensures (steps + [step])[i] == steps[i] && MadeFor(env, stored, (steps + [step])[i], tick')
  {
  }

  /** Whether a record is new or was there before, it was made for one of the steps. */
  lemma StepMade(env: Env, st: State, steps: seq<Step>, step: Step, k: (string, string))
    requires AllMade(env, st, steps)
    ensures ForwardMade(env, After(env, st, step), steps + [step], k)
    ensures ReverseMade(env, After(env, st, step), steps + [step], k)
  {
    var st', all := After(env, st, step), steps + [step];
    assert ForwardMade(env, st, steps, k) && ReverseMade(env, st, steps, k);
    assert all[|steps|] == step;
    if k in st'.forward {
      if k in st.forward && st'.forward[k] == st.forward[k] {
        var i :| 0 <= i < |steps| && MadeFor(env, st.forward[k], steps[i], st.tick)
          && k == (steps[i].request.scope, steps[i].request.valueHash);
        StaysMade(env, st.forward[k], steps, step, i, st.tick, st'.tick);
      } else {
        assert MadeFor(env, st'.forward[k], all[|steps|], st'.tick) by {
          assert st'.forward[k].expiresAt == env.clock(st'.tick - 1) + env.ttl;
        }
      }
    }
    if k in st'.reverse {
      if k in st.reverse && st'.reverse[k] == st.reverse[k] {
        var i :| 0 <= i < |steps| && MadeFor(env, st.reverse[k], steps[i], st.tick)
          && k == (steps[i].request.scope, env.generate(steps[i].request));
        StaysMade(env, st.reverse[k], steps, step, i, st.tick, st'.tick);
      } else {
        assert MadeFor(env, st'.reverse[k], all[|steps|], st'.tick) by {
          assert st'.reverse[k].expiresAt == env.clock(st'.tick - 1) + env.ttl;
        }
      }
    }
  }

  lemma {:induction false} RunMade(env: Env, st: State, before: seq<Step>, steps: seq<Step>)
    requires AllMade(env, st, before)
    ensures AllMade(env, Run(env, st, steps), before + steps)
    decreases |steps|
  {
    if steps == [] {
      assert before + [] == before;
    } else {
      forall k
        ensures ForwardMade(env, After(env, st, steps[0]), before + [steps[0]], k)
        ensures ReverseMade(env, After(env, st, steps[0]), before + [steps[0]], k)
      {
        StepMade(env, st, before, steps[0], k);
      }
      RunMade(env, After(env, st, steps[0]), before + [steps[0]], steps[1..]);
      assert before + [steps[0]] + steps[1..] == before + steps;
    }
  }

  /**
   Whatever a fresh vault comes to hold was generated for a request of the run with that scope and hash, and carries
   that request's text, hash and entity type.
   */
  lemma OnlyGenerated(env: Env, steps: seq<Step>)
    ensures AllMade(env, Run(env, State(map[], map[], 0), steps), steps)
  {
    RunMade(env, State(map[], map[], 0), [], steps);
    assert [] + steps == steps;
  }

  // ---- what purging leaves ----

  /** Purging, alone or before a listing, keeps exactly what expires later than its one reading. */
  lemma PurgedExactly(env: Env, st: State, scope: string, k: (string, string))
    ensures var now, purged, listed := env.clock(st.tick), Purge(env, st), AfterReverse(env, st, scope);
            && (k in purged.forward <==> k in st.forward && st.forward[k].expiresAt > now)
            && (k in purged.reverse <==> k in st.reverse && st.reverse[k].expiresAt > now)
            && (k in purged.forward ==> purged.forward[k] == st.forward[k])
            && (k in purged.reverse ==> purged.reverse[k] == st.reverse[k])
            && listed.forward == purged.forward && listed.reverse == purged.reverse
  {
  }

  // ---- a live mapping stays what it is ----

  /** A step leaves a forward mapping alone as long as it has not expired by the end of the step. */
  lemma StepKeepsLive(env: Env, st: State, step: Step, k: (string, string))
    requires Monotone(env.clock) && k in st.forward
    requires st.forward[k].expiresAt > Now(env, After(env, st, step))
    ensures k in After(env, st, step).forward && After(env, st, step).forward[k] == st.forward[k]
  {
  }

  lemma {:induction false} RunAdvances(env: Env, st: State, steps: seq<Step>)
    requires Monotone(env.clock)
    ensures st.tick <= Run(env, st, steps).tick && Now(env, st) <= Now(env, Run(env, st, steps))
    decreases |steps|
  {
    if steps != [] { RunAdvances(env, After(env, st, steps[0]), steps[1..]); }
  }

  lemma {:induction false} RunKeepsLive(env: Env, st: State, steps: seq<Step>, k: (string, string))
    requires Monotone(env.clock) && k in st.forward && st.forward[k].expiresAt > Now(env, Run(env, st, steps))
    ensures k in Run(env, st, steps).forward && Run(env, st, steps).forward[k] == st.forward[k]
    decreases |steps|
  {
    if steps != [] {
      RunAdvances(env, After(env, st, steps[0]), steps[1..]);
      StepKeepsLive(env, st, steps[0], k);
      RunKeepsLive(env, After(env, st, steps[0]), steps[1..], k);
    }
  }

  lemma SurrogateStored(env: Env, st: State, r: Request)
    requires Coherent(env, st)
    ensures var (s, st') := SurrogateFor(env, st, r);
            var k := (r.scope, r.valueHash);
            k in st'.forward && st'.forward[k].mapping.surrogate == s && st'.forward[k].mapping.valueHash == r.valueHash
  {
    assert ForwardOk(st, Now(env, st), env.ttl, (r.scope, r.valueHash));
  }

  /**
   Asking again for the same scope and hash, after any other operations, gives the same surrogate while the first
   mapping has not expired, whatever entity type or text the second request carries.
   */
  lemma SurrogateStable(env: Env, st: State, r: Request, steps: seq<Step>, r': Request)
    requires Monotone(env.clock) && Coherent(env, st)
    requires r'.scope == r.scope && r'.valueHash == r.valueHash
    requires var st' := SurrogateFor(env, st, r).1;
             && (r.scope, r.valueHash) in st'.forward
             && st'.forward[(r.scope, r.valueHash)].expiresAt > env.clock(Run(env, st', steps).tick)
    ensures var (s, st') := SurrogateFor(env, st, r);
            SurrogateFor(env, Run(env, st', steps), r').0 == s
  {
    var (s, st') := SurrogateFor(env, st, r);
    var k := (r.scope, r.valueHash);
    SurrogateStored(env, st, r);
    var end := Run(env, st', steps);
    assert Now(env, end) <= env.clock(end.tick);
    RunKeepsLive(env, st', steps, k);
  }

  // ---- the reverse map ----

  /** A forward mapping of the scope that outlives a `reverse_map` started in `st`. */
  ghost predicate LiveForward(env: Env, st: State, scope: string, h: string) {
    (scope, h) in st.forward && st.forward[(scope, h)].expiresAt > Now(env, AfterReverse(env, st, scope))
  }

  /** No entry of the scope expires between the purge and the last decoding. */
  ghost predicate NoExpiryDuring(env: Env, st: State, scope: string) {
    forall k :: k in st.reverse && k.0 == scope && st.reverse[k].expiresAt > env.clock(st.tick)
      ==> st.reverse[k].expiresAt > Now(env, AfterReverse(env, st, scope))
  }

  function Original(st: State, scope: string, h: string): string
    requires (scope, h) in st.forward
  {
    st.forward[(scope, h)].mapping.original
  }

  function SurrogateOf(st: State, scope: string, h: string): string
    requires (scope, h) in st.forward
  {
    st.forward[(scope, h)].mapping.surrogate
  }

  /** Alive at every clock reading in `[from, to)`. */
  ghost predicate AliveDuring(env: Env, stored: Stored, from: nat, to: nat) {
    forall t :: from <= t < to ==> stored.expiresAt > env.clock(t)
  }

  /** Alive at some clock reading in `[from, to)`. */
  ghost predicate AliveOnce(env: Env, stored: Stored, from: nat, to: nat) {
    exists t :: from <= t < to && stored.expiresAt > env.clock(t)
  }

  /** Entries that live through the decoding are listed; what is listed was alive, and no surrogate is listed twice. */
  lemma {:induction false} DecodedEntries(
    env: Env, reverse: map<(string, string), Stored>, order: seq<(string, string)>, from: nat, scope: string)
    requires NoRepeats(order) && forall k :: k in order ==> k.0 == scope
    ensures var m := Decoded(env, reverse, order, from);
            && DistinctKeys(m)
            && (forall e :: e in m ==> (scope, e.surrogate) in order && (scope, e.surrogate) in reverse
                                       && reverse[(scope, e.surrogate)].mapping.original == e.original)
            && (forall k :: k in order && k in reverse && AliveDuring(env, reverse[k], from, from + |order|)
                  ==> Entry(k.1, reverse[k].mapping.original) in m)
    decreases |order|
  {
    if order != [] {
      var n := |order| - 1;
      var key, before, m := order[n], Decoded(env, reverse, order[..n], from), Decoded(env, reverse, order, from);
      DecodedEntries(env, reverse, order[..n], from, scope);
      forall i, j | 0 <= i < j < |m| ensures m[i].surrogate != m[j].surrogate {
        assert m[i] in before;
      }
      forall k | k in order && k in reverse && AliveDuring(env, reverse[k], from, from + |order|)
        ensures Entry(k.1, reverse[k].mapping.original) in m
      {
        assert AliveDuring(env, reverse[k], from, from + n);
        if k == key { assert m[|m| - 1] == Entry(k.1, reverse[k].mapping.original); }
      }
    }
  }

  /** What is listed was alive at some reading of the listing. */
  lemma {:induction false} DecodedAlive(
    env: Env, reverse: map<(string, string), Stored>, order: seq<(string, string)>, from: nat, e: Entry)
    returns (k: (string, string))
    requires e in Decoded(env, reverse, order, from)
    ensures k in order && k in reverse && e == Entry(k.1, reverse[k].mapping.original)
    ensures AliveOnce(env, reverse[k], from, from + |order|)
    decreases |order|
  {
    var n := |order| - 1;
    if e in Decoded(env, reverse, order[..n], from) {
      k := DecodedAlive(env, reverse, order[..n], from, e);
      var t :| from <= t < from + n && reverse[k].expiresAt > env.clock(t);
    } else {
      k := order[n];
      assert reverse[k].expiresAt > env.clock(from + n);
    }
  }

  /** The same about a whole `reverse_map`. */
  lemma ReverseMapEntries(env: Env, st: State, scope: string, m: seq<Entry>)
    requires IsReverseMap(env, st, scope, m)
    ensures DistinctKeys(m)
    ensures forall e :: e in m ==>
              var k := (scope, e.surrogate);
              k in Purge(env, st).reverse && Purge(env, st).reverse[k].mapping.original == e.original
    ensures forall k :: k in Purge(env, st).reverse && k.0 == scope
              && AliveDuring(env, Purge(env, st).reverse[k], Purge(env, st).tick, AfterReverse(env, st, scope).tick)
              ==> Entry(k.1, Purge(env, st).reverse[k].mapping.original) in m
  {
    var first := Purge(env, st);
    var order :|
      Enumerates(order, ScopeKeys(first.reverse, scope)) && m == Decoded(env, first.reverse, order, first.tick);
    EnumerationLength(order, ScopeKeys(first.reverse, scope));
    DecodedEntries(env, first.reverse, order, first.tick, scope);
  }

  /** Every surrogate of a live forward mapping is a key of the reverse map. */
  lemma LiveIsListed(env: Env, st: State, scope: string, m: seq<Entry>, h: string) returns (h': string)
    requires Monotone(env.clock) && Coherent(env, st) && IsReverseMap(env, st, scope, m)
    requires LiveForward(env, st, scope, h)
    ensures LiveForward(env, st, scope, h') && SurrogateOf(st, scope, h') == SurrogateOf(st, scope, h)
    ensures Entry(SurrogateOf(st, scope, h), Original(st, scope, h')) in m
  {
    var k := (scope, SurrogateOf(st, scope, h));
    assert ForwardOk(st, Now(env, st), env.ttl, (scope, h)) && ReverseOk(st, Now(env, st), k);
    var last := AfterReverse(env, st, scope);
    assert env.clock(st.tick) <= Now(env, last);
    assert k in st.reverse && st.reverse[k].expiresAt > Now(env, last);
    var first := Purge(env, st);
    assert AliveDuring(env, first.reverse[k], first.tick, last.tick);
    ReverseMapEntries(env, st, scope, m);
    h' := st.reverse[k].mapping.valueHash;
  }

  /** Every entry of the reverse map comes from a live forward mapping, provided nothing expires meanwhile. */
  lemma ListedIsLive(env: Env, st: State, scope: string, m: seq<Entry>, e: Entry) returns (h: string)
    requires Monotone(env.clock) && Coherent(env, st) && IsReverseMap(env, st, scope, m)
    requires NoExpiryDuring(env, st, scope)
    requires e in m
    ensures LiveForward(env, st, scope, h) && e == Entry(SurrogateOf(st, scope, h), Original(st, scope, h))
  {
    var k := (scope, e.surrogate);
    ReverseMapEntries(env, st, scope, m);
    assert k in Purge(env, st).reverse && ReverseOk(st, Now(env, st), k);
    assert Now(env, st) <= env.clock(st.tick);
    h := st.reverse[k].mapping.valueHash;
  }

  /** The reverse map lists every live forward mapping of the scope. */
  ghost predicate ListsForward(env: Env, st: State, scope: string, m: seq<Entry>) {
    forall h :: LiveForward(env, st, scope, h) ==> Entry(SurrogateOf(st, scope, h), Original(st, scope, h)) in m
  }

  /** The reverse map is the inverse of the live forward mappings of the scope: it lists them and nothing else. */
  ghost predicate InvertsForward(env: Env, st: State, scope: string, m: seq<Entry>) {
    && DistinctKeys(m) && ListsForward(env, st, scope, m)
    && forall e :: e in m ==>
         exists h :: LiveForward(env, st, scope, h) && e == Entry(SurrogateOf(st, scope, h), Original(st, scope, h))
  }

  /** No two live mappings of the scope share a surrogate for different originals. */
  ghost predicate SurrogatesDistinct(env: Env, st: State, scope: string) {
    forall h, h' ::
      LiveForward(env, st, scope, h) && LiveForward(env, st, scope, h') && SurrogateOf(st, scope,
                                                                                       h) == SurrogateOf(st, scope, h')
      ==> Original(st, scope, h) == Original(st, scope, h')
  }

  /** The reverse map lists every live forward mapping exactly when their surrogates are distinct. */
  lemma LiveAllListedExactly(env: Env, st: State, scope: string, m: seq<Entry>)
    requires Monotone(env.clock) && Coherent(env, st) && IsReverseMap(env, st, scope, m)
    ensures ListsForward(env, st, scope, m) <==> SurrogatesDistinct(env, st, scope)
  {
    ReverseMapEntries(env, st, scope, m);
    if SurrogatesDistinct(env, st, scope) {
      forall h | LiveForward(env, st, scope, h)
        ensures Entry(SurrogateOf(st, scope, h), Original(st, scope, h)) in m
      {
        var h' := LiveIsListed(env, st, scope, m, h);
      }
    }
    if ListsForward(env, st, scope, m) {
      forall h, h' | LiveForward(env, st, scope, h) && LiveForward(env, st, scope, h')
        && SurrogateOf(st, scope, h) == SurrogateOf(st, scope, h')
        ensures Original(st, scope, h) == Original(st, scope, h')
      {
        SameKeySameEntry(m, Entry(SurrogateOf(st, scope, h), Original(st, scope, h)),
                         Entry(SurrogateOf(st, scope, h'), Original(st, scope, h')));
      }
    }
  }

  /** If nothing of the scope expires meanwhile, it is their inverse exactly when their surrogates are distinct. */
  lemma ReverseMapInvertsExactly(env: Env, st: State, scope: string, m: seq<Entry>)
    requires Monotone(env.clock) && Coherent(env, st) && IsReverseMap(env, st, scope, m)
    requires NoExpiryDuring(env, st, scope)
    ensures InvertsForward(env, st, scope, m) <==> SurrogatesDistinct(env, st, scope)
  {
    LiveAllListedExactly(env, st, scope, m);
    ReverseMapEntries(env, st, scope, m);
    forall e | e in m
      ensures exists h ::
                LiveForward(env, st, scope, h) && e == Entry(SurrogateOf(st, scope, h), Original(st, scope, h))
    {
      var h := ListedIsLive(env, st, scope, m, e);
    }
  }

  /**
   Where surrogates are distinct per hash, the two directions of a live mapping are one record and expire together.
   */
  lemma BothDirectionsExpireTogether(env: Env, st: State, scope: string, h: string)
    requires Coherent(env, st)
    requires (scope, h) in st.forward && st.forward[(scope, h)].expiresAt > Now(env, st)
    requires forall h' ::
      && (scope, h') in st.forward && st.forward[(scope, h')].expiresAt > Now(env, st)
      && SurrogateOf(st, scope, h') == SurrogateOf(st, scope, h)
      ==> h' == h
    ensures var r := (scope, SurrogateOf(st, scope, h));
            r in st.reverse && st.reverse[r] == st.forward[(scope, h)]
  {
    var r := (scope, SurrogateOf(st, scope, h));
    assert ForwardOk(st, Now(env, st), env.ttl, (scope, h)) && ReverseOk(st, Now(env, st), r);
    assert (scope, st.reverse[r].mapping.valueHash) in st.forward;
  }
}
