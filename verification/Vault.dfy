/**
 The two-way vault of surrogates and the manager that fills it
 (`frostglass/masking/vault.py`, `frostglass/masking/consistency.py`).

 The clock is a parameter: `clock(k)` is its k-th reading, and `tick` counts the readings made so far. Encryption is
 the identity. Surrogate generation is an arbitrary function; nothing assumes that surrogates do not collide.
 */
module Vault {
  import opened Outcomes
  import opened Restore

  datatype Mapping = Mapping(valueHash: string, original: string, surrogate: string, entityType: string)

  datatype Stored = Stored(mapping: Mapping, expiresAt: int)

  /** `forward` is keyed by (scope, value hash), `reverse` by (scope, surrogate). */
  datatype State = State(forward: map<(string, string), Stored>, reverse: map<(string, string), Stored>, tick: nat)

  datatype Request = Request(scope: string, entityType: string, original: string, valueHash: string)

  /** What the process gives the vault: clock, time to live, and surrogate generator. */
  datatype Env = Env(clock: nat -> int, ttl: int, generate: Request -> string)

  // ---- what one operation does ----

  function Get(env: Env, st: State, scope: string, valueHash: string): (Option<Mapping>, State) {
    if (scope, valueHash) !in st.forward then (None, st)
    else
      var stored := st.forward[(scope, valueHash)];
      (if stored.expiresAt <= env.clock(st.tick) then None else Some(stored.mapping), st.(tick := st.tick + 1))
  }

  function Put(env: Env, st: State, scope: string, m: Mapping): State {
    var stored := Stored(m, env.clock(st.tick) + env.ttl);
    State(st.forward[(scope, m.valueHash) := stored], st.reverse[(scope, m.surrogate) := stored], st.tick + 1)
  }

  function SurrogateFor(env: Env, st: State, r: Request): (string, State) {
    var (existing, st') := Get(env, st, r.scope, r.valueHash);
    match existing
    case Some(m) => (m.surrogate, st')
    case None =>
      var surrogate := env.generate(r);
      (surrogate, Put(env, st', r.scope, Mapping(r.valueHash, r.original, surrogate, r.entityType)))
  }

  /** The scope has a mapping for the hash that is unexpired at the next clock reading. */
  predicate Live(env: Env, st: State, scope: string, valueHash: string) {
    (scope, valueHash) in st.forward && st.forward[(scope, valueHash)].expiresAt > env.clock(st.tick)
  }

  function Unexpired(m: map<(string, string), Stored>, now: int): map<(string, string), Stored> {
    map k | k in m && m[k].expiresAt > now :: m[k]
  }

  function Purge(env: Env, st: State): State {
    var now := env.clock(st.tick);
    State(Unexpired(st.forward, now), Unexpired(st.reverse, now), st.tick + 1)
  }

  function ScopeKeys(m: map<(string, string), Stored>, scope: string): set<(string, string)> {
    set k | k in m && k.0 == scope
  }

  /** The state after `reverse_map`: purged, and one clock reading for each entry of the scope. */
  function AfterReverse(env: Env, st: State, scope: string): State {
    var purged := Purge(env, st);
    purged.(tick := purged.tick + |ScopeKeys(purged.reverse, scope)|)
  }

  /** The entries with one more, unless it has expired. */
  function WithNext(before: seq<Entry>, surrogate: string, stored: Stored, now: int): seq<Entry> {
    if stored.expiresAt > now then before + [Entry(surrogate, stored.mapping.original)] else before
  }

  /** What decoding the keys of `order` yields, one clock reading each, from reading `from` on. */
  function Decoded(
    env: Env, reverse: map<(string, string), Stored>, order: seq<(string, string)>, from: nat): seq<Entry> {
    if order == [] then []
    else
      var n := |order| - 1;
      var before, key := Decoded(env, reverse, order[..n], from), order[n];
      if key in reverse then WithNext(before, key.1, reverse[key], env.clock(from + n)) else before
  }

  ghost predicate NoRepeats(order: seq<(string, string)>) {
    forall i, j :: 0 <= i < j < |order| ==> order[i] != order[j]
  }

  /** `order` visits each of the keys once. */
  ghost predicate Enumerates(order: seq<(string, string)>, keys: set<(string, string)>) {
    NoRepeats(order) && forall k :: k in order <==> k in keys
  }

  /** What `reverse_map` may return: the entries of the scope, in some order, that were alive when decoded. */
  ghost predicate IsReverseMap(env: Env, st: State, scope: string, m: seq<Entry>) {
    var first := Purge(env, st);
    exists order :: Enumerates(order, ScopeKeys(first.reverse, scope))
      && m == Decoded(env, first.reverse, order, first.tick)
  }

  lemma DecodedMore(
    env: Env, reverse: map<(string, string), Stored>, order: seq<(string, string)>, from: nat,
    key: (string, string))
    requires key in reverse && key !in order && NoRepeats(order)
    ensures NoRepeats(order + [key])
    ensures Decoded(env, reverse, order + [key], from)
         == WithNext(Decoded(env, reverse, order, from), key.1, reverse[key], env.clock(from + |order|))
  {
    assert (order + [key])[..|order|] == order;
  }

  lemma {:induction false} EnumerationLength(order: seq<(string, string)>, keys: set<(string, string)>)
    requires Enumerates(order, keys)
    ensures |order| == |keys|
    decreases |order|
  {
    if order == [] {
      assert keys == {};
    } else {
      var n := |order| - 1;
      assert forall k :: k in order[..n] <==> k in order && k != order[n];
      EnumerationLength(order[..n], keys - {order[n]});
    }
  }

  // ---- the classes ----

  class EncryptedVault {
    const env: Env
    var forward: map<(string, string), Stored>
    var reverse: map<(string, string), Stored>
    var tick: nat

    constructor (env: Env)
      ensures this.env == env && Current() == State(map[], map[], 0)
    {
      this.env := env;
      forward, reverse, tick := map[], map[], 0;
    }

    function Current(): State
      reads this
    {
      State(forward, reverse, tick)
    }

    method ReadClock() returns (now: int)
      modifies this`tick
      ensures now == env.clock(old(tick)) && tick == old(tick) + 1
    {
      now := env.clock(tick);
      tick := tick + 1;
    }

    method Decode(stored: Stored) returns (m: Option<Mapping>)
      modifies this`tick
      ensures tick == old(tick) + 1
      ensures m == if stored.expiresAt <= env.clock(old(tick)) then None else Some(stored.mapping)
    {
      var now := ReadClock();
      m := if stored.expiresAt <= now then None else Some(stored.mapping);
    }

    method Find(scope: string, valueHash: string) returns (m: Option<Mapping>)
      modifies this`tick
      ensures (m, Current()) == Get(env, old(Current()), scope, valueHash)
    {
      if (scope, valueHash) in forward {
        m := Decode(forward[(scope, valueHash)]);
      } else {
        m := None;
      }
    }

    method Store(scope: string, m: Mapping)
      modifies this
      ensures Current() == Put(env, old(Current()), scope, m)
    {
      var now := ReadClock();
      var stored := Stored(m, now + env.ttl);
      forward := forward[(scope, m.valueHash) := stored];
      reverse := reverse[(scope, m.surrogate) := stored];
    }

    method PurgeExpired()
      modifies this
      ensures Current() == Purge(env, old(Current()))
    {
      var now := ReadClock();
      forward := map k | k in forward && forward[k].expiresAt > now :: forward[k];
      reverse := map k | k in reverse && reverse[k].expiresAt > now :: reverse[k];
    }

    /** The body of the loop in `reverse_map`, for one stored entry of the scope. */
    method DecodeNext(key: (string, string), stored: Stored, m: seq<Entry>,
                      ghost items: map<(string, string), Stored>, ghost order: seq<(string, string)>, ghost from: nat)
      returns (m': seq<Entry>)
      requires key in items && items[key] == stored && key !in order && NoRepeats(order)
      requires tick == from + |order| && m == Decoded(env, items, order, from)
      modifies this`tick
      ensures tick == old(tick) + 1 && NoRepeats(order + [key]) && m' == Decoded(env, items, order + [key], from)
    {
      DecodedMore(env, items, order, from, key);
      var found := Decode(stored);
      m' := if found.Some? then m + [Entry(key.1, found.value.original)] else m;
    }

    /** The loop of `reverse_map`; the dictionary is visited in an arbitrary order. */
    method DecodeAll(
      scope: string, items: map<(string, string), Stored>)
      returns (m: seq<Entry>, ghost order: seq<(string, string)>)
      modifies this`tick
      ensures tick == old(tick) + |order|
      ensures Enumerates(order, ScopeKeys(items, scope)) && m == Decoded(env, items, order, old(tick))
    {
      m, order := [], [];
      var todo := items.Keys;
      while todo != {}
        invariant todo <= items.Keys && NoRepeats(order)
        invariant forall k :: k in order <==> k in ScopeKeys(items, scope) && k !in todo
        invariant tick == old(tick) + |order| && m == Decoded(env, items, order, old(tick))
        decreases |todo|
      {
        var key :| key in todo;
        todo := todo - {key};
        if key.0 == scope {
          m := DecodeNext(key, items[key], m, items, order, old(tick));
          order := order + [key];
        }
      }
    }

    method ReverseMap(scope: string) returns (m: seq<Entry>)
      modifies this
      ensures Current() == AfterReverse(env, old(Current()), scope)
      ensures IsReverseMap(env, old(Current()), scope, m)
    {
      PurgeExpired();
      ghost var order;
      m, order := DecodeAll(scope, reverse);
      EnumerationLength(order, ScopeKeys(reverse, scope));
    }
  }

  class ConsistencyManager {
    const vault: EncryptedVault

    constructor (vault: EncryptedVault)
      ensures this.vault == vault
    {
      this.vault := vault;
    }

    /** A live mapping answers and nothing else changes; otherwise a generated surrogate is stored both ways. */
    method Surrogate(r: Request) returns (surrogate: string)
      modifies vault
      ensures (surrogate, vault.Current()) == SurrogateFor(vault.env, old(vault.Current()), r)
      ensures Live(vault.env, old(vault.Current()), r.scope, r.valueHash) ==>
                && surrogate == old(vault.forward)[(r.scope, r.valueHash)].mapping.surrogate
                && vault.forward == old(vault.forward) && vault.reverse == old(vault.reverse)
      ensures !Live(vault.env, old(vault.Current()), r.scope, r.valueHash) ==>
                var stored := Stored(Mapping(r.valueHash, r.original, vault.env.generate(r), r.entityType),
                                     vault.env.clock(vault.tick - 1) + vault.env.ttl);
                && surrogate == vault.env.generate(r)
                && vault.forward == old(vault.forward)[(r.scope, r.valueHash) := stored]
                && vault.reverse == old(vault.reverse)[(r.scope, surrogate) := stored]
    {
      var existing := vault.Find(r.scope, r.valueHash);
      if existing.Some? {
        return existing.value.surrogate;
      }
      surrogate := vault.env.generate(r);
      vault.Store(r.scope, Mapping(r.valueHash, r.original, surrogate, r.entityType));
    }
  }
}
