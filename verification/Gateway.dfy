/** The cache gateway over a key-value store, an oracle index and an eviction policy
    (src/mlcache/cache/gateway.py, src/mlcache/cache/in_memory.py). */
module Gateway {
  import opened Scores
  import opened Eviction

  type Response = string

  /** What the oracle answers; the oracle itself is arbitrary. */
  datatype OracleDecision = OracleDecision(accepted: bool, key: Option<Key>)

  class InMemoryKVStore {
    var responses: map<Key, Response>

    constructor ()
      ensures responses == map[]
    {
      responses := map[];
    }

    function Get(k: Key): Option<Response>
      reads this
    {
      if k in responses then Some(responses[k]) else None
    }

    method Set(k: Key, r: Response)
      modifies this
      ensures responses == old(responses)[k := r]
    {
      responses := responses[k := r];
    }

    method Delete(k: Key)
      modifies this
      ensures responses == old(responses) - {k}
    {
      responses := responses - {k};
    }

    method Clear()
      modifies this
      ensures responses == map[]
    {
      responses := map[];
    }
  }

  /** The part of the oracle the gateway writes: the set of indexed keys. */
  class OracleIndex {
    var indexed: set<Key>

    constructor ()
      ensures indexed == {}
    {
      indexed := {};
    }

    method Index(k: Key)
      modifies this
      ensures indexed == old(indexed) + {k}
    {
      indexed := indexed + {k};
    }

    method Remove(k: Key)
      modifies this
      ensures indexed == old(indexed) - {k}
    {
      indexed := indexed - {k};
    }
  }

  /** The three stores as a value; a gateway may run without a policy or without a bound. */
  datatype Cache = Cache(kv: map<Key, Response>, indexed: set<Key>, policy: Option<PolicyState>,
                         maxEntries: Option<nat>) {

    predicate Bounded() { policy.Some? && maxEntries.Some? }

    predicate Overfull() {
      Bounded() && |policy.value.entries| > maxEntries.value
    }

    ghost predicate Valid() {
      && (policy.Some? ==> policy.value.Valid())
      && (maxEntries.Some? ==> maxEntries.value > 0)
    }

    /** The stores agree: with a policy, tracked keys are indexed keys, stored keys are among them, and
        the bound is kept. */
    ghost predicate Agrees() {
      && Valid()
      && kv.Keys <= indexed
      && (policy.Some? ==> policy.value.entries.Keys == indexed)
      && !Overfull()
    }

    function Invalidated(k: Key): Cache {
      Cache(kv - {k}, indexed - {k}, if policy.Some? then Some(policy.value.Removed(k)) else None, maxEntries)
    }

    /** Before capacity is enforced. */
    function Stored(k: Key, r: Response): Cache {
      Cache(kv[k := r], indexed + {k}, if policy.Some? then Some(policy.value.Inserted(k)) else None, maxEntries)
    }

    /** A lookup: serve what is stored under the accepted key, or drop the key everywhere. */
    function LookedUp(d: OracleDecision): (Option<Response>, Cache) {
      if !d.accepted || d.key.None? then (None, this)
      else
        var k := d.key.value;
        if k !in kv then
          (None, Cache(kv, indexed - {k}, if policy.Some? then Some(policy.value.Removed(k)) else None, maxEntries))
        else
          (Some(kv[k]), this.(policy := if policy.Some? then Some(policy.value.Hit(k)) else None))
    }
  }

  /** Invalidating a tracked key leaves one tracked key less. */
  ghost predicate ShrinksTo(c: Cache, k: Key) {
    c.policy.Some? && k in c.policy.value.entries && c.Invalidated(k).Valid()
    && |c.Invalidated(k).policy.value.entries| < |c.policy.value.entries|
  }

  /** Enforcing capacity: an overfull cache loses its victim, and so on. */
  ghost predicate Enforces(c: Cache, c': Cache)
    requires c.Valid()
    decreases if c.policy.Some? then |c.policy.value.entries| else 0
  {
    if !c.Overfull() then c' == c
    else
      exists victim :: c.policy.value.IsVictim(victim) && ShrinksTo(c, victim) && Enforces(c.Invalidated(victim), c')
  }

  lemma InvalidationShrinks(c: Cache, k: Key)
    requires c.Valid() && c.policy.Some? && k in c.policy.value.entries
    ensures ShrinksTo(c, k)
    ensures |c.Invalidated(k).policy.value.entries| == |c.policy.value.entries| - 1
  {
    var entries := c.policy.value.entries;
    StepsKeepValid(c.policy.value, k);
    assert (entries - {k}).Keys == entries.Keys - {k};
    assert |entries.Keys - {k}| == |entries.Keys| - 1;
  }

  lemma EvictionStep(c: Cache, victim: Key)
    requires c.Valid() && c.Overfull() && c.policy.value.IsVictim(victim)
    ensures ShrinksTo(c, victim)
    ensures forall c' :: Enforces(c.Invalidated(victim), c') ==> Enforces(c, c')
  {
    InvalidationShrinks(c, victim);
  }

  class SemanticCacheGateway {
    const kvStore: InMemoryKVStore
    const oracle: OracleIndex
    const policy: CacheEvictionPolicy?
    const maxEntries: Option<nat>

    constructor (kvStore: InMemoryKVStore, oracle: OracleIndex, policy: CacheEvictionPolicy?, maxEntries: Option<nat>)
      requires maxEntries.Some? ==> maxEntries.value > 0
      ensures this.kvStore == kvStore && this.oracle == oracle && this.policy == policy && this.maxEntries == maxEntries
    {
      this.kvStore, this.oracle, this.policy, this.maxEntries := kvStore, oracle, policy, maxEntries;
    }

    ghost function Stores(): set<object> {
      {kvStore, oracle} + if policy == null then {} else {policy}
    }

    function Abstract(): Cache
      reads kvStore, oracle, policy
    {
      Cache(kvStore.responses, oracle.indexed, if policy == null then None else Some(policy.Abstract()), maxEntries)
    }

    method RecordRemoval(k: Key)
      modifies if policy == null then {} else {policy}
      ensures policy != null ==> policy.Abstract() == old(policy.Abstract()).Removed(k)
    {
      if policy != null {
        policy.RecordRemoval(k);
      }
    }

    method LookupWithDecision(d: OracleDecision) returns (response: Option<Response>)
      modifies Stores()
      ensures (response, Abstract()) == old(Abstract()).LookedUp(d)
    {
      if !d.accepted || d.key.None? {
        return None;
      }
      var k := d.key.value;
      response := kvStore.Get(k);
      if response.None? {
        RecordRemoval(k);
        oracle.Remove(k);
        return None;
      }
      if policy != null {
        policy.RecordHit(k);
      }
    }

    method Put(k: Key, r: Response)
      requires Abstract().Valid()
      modifies Stores()
      ensures old(Abstract()).Stored(k, r).Valid()
      ensures Enforces(old(Abstract()).Stored(k, r), Abstract())
    {
      if policy != null {
        StepsKeepValid(policy.Abstract(), k);
      }
      kvStore.Set(k, r);
      oracle.Index(k);
      if policy != null {
        policy.RecordInsert(k);
        EnforceCapacity();
      }
    }

    method Invalidate(k: Key)
      modifies Stores()
      ensures Abstract() == old(Abstract()).Invalidated(k)
    {
      RecordRemoval(k);
      oracle.Remove(k);
      kvStore.Delete(k);
    }

    method EnforceCapacity()
      requires Abstract().Valid()
      modifies Stores()
      ensures Abstract().Valid() && !Abstract().Overfull()
      ensures Enforces(old(Abstract()), Abstract())
    {
      if policy == null || maxEntries.None? {
        return;
      }
      ghost var start := Abstract();
      while |policy.entries| > maxEntries.value
        invariant start.Valid() && Abstract().Valid()
        invariant forall c :: Enforces(Abstract(), c) ==> Enforces(start, c)
        decreases |policy.entries|
      {
        var victim := policy.SelectVictim();
        if victim.None? {
          break;
        }
        EvictionStep(Abstract(), victim.value);
        Invalidate(victim.value);
      }
    }
  }
}
