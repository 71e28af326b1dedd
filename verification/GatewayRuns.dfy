/** Whole runs of the gateway from an empty cache. */
module GatewayRuns {
  import opened Scores
  import opened Eviction
  import opened Gateway

  /** The operations of a run; Lose is a key vanishing from the external store. */
  datatype Op =
    | Put(key: Key, response: Response)
    | Lookup(decision: OracleDecision)
    | Invalidate(key: Key)
    | Lose(key: Key)

  function EmptyCache(name: Option<PolicyName>, maxEntries: Option<nat>): Cache {
    Cache(map[], {}, if name.Some? then Some(PolicyState(name.value, map[], 0, 0)) else None, maxEntries)
  }

  lemma InsertedGrows(entries: map<Key, Meta>, k: Key, m: Meta)
    ensures entries[k := m].Keys == entries.Keys + {k} && |entries[k := m]| == |entries| + if k in entries then 0 else 1
  {
    assert entries[k := m].Keys == entries.Keys + {k};
  }

  lemma InsertGrows(c: Cache, k: Key, r: Response)
    requires c.Agrees() && c.policy.Some?
    ensures c.Stored(k, r).Valid()
    ensures var before, after := c.policy.value.entries, c.Stored(k, r).policy.value.entries;
            after.Keys == before.Keys + {k} && |after| == |before| + if k in before then 0 else 1
  {
    hide PolicyState.Valid;
    StepsKeepValid(c.policy.value, k);
    InsertedGrows(c.policy.value.entries, k, Meta(c.policy.value.insertionCounter + 1, 1, c.policy.value.clock + 1));
  }

  lemma EvictionAgrees(c: Cache, k: Key, r: Response)
    requires c.Agrees() && c.policy.Some? && c.Stored(k, r).Overfull()
    ensures c.Stored(k, r).Valid() && k in c.Stored(k, r).policy.value.entries
    ensures c.Stored(k, r).Invalidated(VictimOf(c.Stored(k, r).policy.value)).Agrees()
  {
    hide PolicyState.Valid, PolicyState.IsVictim;
    InsertGrows(c, k, r);
    var stored := c.Stored(k, r);
    var victim := VictimOf(stored.policy.value);
    InvalidationShrinks(stored, victim);
    assert stored.Invalidated(victim).policy.value.entries.Keys == stored.indexed - {victim};
  }

  /** Storing into an agreeing cache overfills it by at most one, so one eviction at most follows. */
  ghost function PutResult(c: Cache, k: Key, r: Response): (c': Cache)
    requires c.Agrees()
    ensures c'.Agrees()
  {
    var stored := c.Stored(k, r);
    if c.policy.None? then stored
    else
      InsertGrows(c, k, r);
      if !stored.Overfull() then stored
      else
        EvictionAgrees(c, k, r);
        stored.Invalidated(VictimOf(stored.policy.value))
  }

  /** The gateway's `put` computes `PutResult`: the eviction loop leaves nothing else possible. */
  lemma PutIsPutResult(c: Cache, k: Key, r: Response, c': Cache)
    requires c.Agrees() && c.Stored(k, r).Valid() && Enforces(c.Stored(k, r), c')
    ensures c' == PutResult(c, k, r)
  {
    hide PolicyState.Valid, PolicyState.IsVictim;
    var stored := c.Stored(k, r);
    if c.policy.Some? {
      InsertGrows(c, k, r);
    }
    if stored.Overfull() {
      var victim :| stored.policy.value.IsVictim(victim) && ShrinksTo(stored, victim)
                    && Enforces(stored.Invalidated(victim), c');
      VictimIsUnique(stored.policy.value, victim, VictimOf(stored.policy.value));
      InvalidationShrinks(stored, victim);
      assert !stored.Invalidated(victim).Overfull();
    }
  }

  lemma RemovedShrinks(entries: map<Key, Meta>, k: Key)
    ensures (entries - {k}).Keys == entries.Keys - {k} && |entries - {k}| <= |entries|
  {
    assert (entries - {k}).Keys == entries.Keys - {k};
    assert |entries.Keys - {k}| <= |entries.Keys|;
  }

  lemma RemovalAgrees(c: Cache, k: Key)
    requires c.Agrees()
    ensures c.Invalidated(k).Agrees()
    ensures k !in c.kv ==> c.(indexed := c.indexed - {k}, policy := c.Invalidated(k).policy).Agrees()
  {
    hide PolicyState.Valid;
    if c.policy.Some? {
      StepsKeepValid(c.policy.value, k);
      RemovedShrinks(c.policy.value.entries, k);
    }
  }

  lemma HitAgrees(c: Cache, k: Key)
    requires c.Agrees()
    ensures c.(policy := if c.policy.Some? then Some(c.policy.value.Hit(k)) else None).Agrees()
  {
    if c.policy.Some? {
      StepsKeepValid(c.policy.value, k);
      hide PolicyState.Valid;
      var entries := c.policy.value.Hit(k).entries;
      assert entries.Keys == c.policy.value.entries.Keys;
      assert |entries| == |entries.Keys| == |c.policy.value.entries|;
    }
  }

  lemma LookupAgrees(c: Cache, d: OracleDecision)
    requires c.Agrees()
    ensures c.LookedUp(d).1.Agrees()
  {
    hide Cache.Agrees, PolicyState.Hit, PolicyState.Removed;
    if d.accepted && d.key.Some? {
      RemovalAgrees(c, d.key.value);
      HitAgrees(c, d.key.value);
    }
  }

  ghost function Apply(c: Cache, op: Op): (c': Cache)
    requires c.Agrees()
    ensures c'.Agrees() && c'.maxEntries == c.maxEntries && (c'.policy.Some? <==> c.policy.Some?)
    ensures c'.policy.Some? ==> c'.policy.value.name == c.policy.value.name
  {
    match op
    case Put(k, r) => PutResult(c, k, r)
    case Lookup(d) => LookupAgrees(c, d); c.LookedUp(d).1
    case Invalidate(k) => RemovalAgrees(c, k); c.Invalidated(k)
    case Lose(k) => c.(kv := c.kv - {k})
  }

  /** The eviction a put causes, if any. */
  predicate PutOverflows(c: Cache, k: Key) {
    c.Bounded() && k !in c.policy.value.entries && |c.policy.value.entries| == c.maxEntries.value
  }

  /** A put evicts exactly when it brings a new key into a full cache, and then exactly one key, which
      leaves all stores; re-putting a tracked key never evicts. */
  lemma PutEvicts(c: Cache, k: Key, r: Response)
    requires c.Agrees() && c.policy.Some?
    ensures c.policy.value.Inserted(k).Valid() && k in c.policy.value.Inserted(k).entries
    ensures var c' := PutResult(c, k, r);
            if PutOverflows(c, k)
            then c' == c.Stored(k, r).Invalidated(VictimOf(c.policy.value.Inserted(k)))
                 && c'.indexed == c.indexed + {k} - {VictimOf(c.policy.value.Inserted(k))}
                 && |c'.policy.value.entries| == c.maxEntries.value
            else c' == c.Stored(k, r) && c'.indexed == c.indexed + {k}
  {
    hide PolicyState.Valid, PolicyState.IsVictim;
    InsertGrows(c, k, r);
    var stored := c.Stored(k, r);
    if stored.Overfull() {
      InvalidationShrinks(stored, VictimOf(stored.policy.value));
    }
  }

  /** What a put stores, with a policy or without: the response under its key, in the index and in the policy, and
      everything else as it was; unless it overflows, when the policy's victim leaves. A lookup accepted for the
      key then answers the response, unless that was the victim. */
  lemma PutStores(c: Cache, k: Key, r: Response)
    requires c.Agrees()
    ensures PutOverflows(c, k) ==>
              c.policy.value.Inserted(k).Valid() && k in c.policy.value.Inserted(k).entries
    ensures var after := PutResult(c, k, r);
            var gone := if PutOverflows(c, k) then {VictimOf(c.policy.value.Inserted(k))} else {};
            && after.kv == c.kv[k := r] - gone
            && after.indexed == c.indexed + {k} - gone
            && (k !in gone ==> after.LookedUp(OracleDecision(true, Some(k))).0 == Some(r))
  {
    hide PolicyState.Valid, PolicyState.IsVictim;
    if c.policy.Some? {
      PutEvicts(c, k, r);
      InsertGrows(c, k, r);
    }
    if !PutOverflows(c, k) {
      assert c.kv[k := r] - {} == c.kv[k := r];
    }
  }

  /** What the other operations do to the stores. A lookup never changes what is stored. */
  lemma OtherEffects(c: Cache, op: Op)
    requires c.Agrees() && !op.Put?
    ensures var after := Apply(c, op);
            match op
            case Lookup(d) =>
              var lost := d.accepted && d.key.Some? && d.key.value !in c.kv;
              after.kv == c.kv && after.indexed == c.indexed - if lost then {d.key.value} else {}
            case Invalidate(k) => after.kv == c.kv - {k} && after.indexed == c.indexed - {k}
            case Lose(k) => after.kv == c.kv - {k} && after.indexed == c.indexed
  {
    hide PolicyState.Valid, Cache.Agrees;
  }

  /** How one operation changes what is stored under a key, and the index. */
  lemma StoredAfter(c: Cache, op: Op, k: Key)
    requires c.Agrees()
    ensures var c' := Apply(c, op);
            k in c'.kv ==> if op.Put? && op.key == k then c'.kv[k] == op.response else k in c.kv && c'.kv[k] == c.kv[k]
    ensures c.kv.Keys == c.indexed && !op.Lose? ==> Apply(c, op).kv.Keys == Apply(c, op).indexed
  {
    hide PutResult, Cache.Agrees, Cache.LookedUp, PolicyState.Valid, VictimOf;
    if op.Put? {
      PutStores(c, op.key, op.response);
    } else {
      OtherEffects(c, op);
    }
  }

  /** Agreement on every run: with a policy and a bound, tracked keys equal indexed keys, stored keys
      are among them, and the bound holds after every operation - whatever the oracle answers. */
  ghost function Run(start: Cache, ops: seq<Op>): (c: Cache)
    requires start.Agrees()
    ensures c.Agrees() && c.maxEntries == start.maxEntries && (c.policy.Some? <==> start.policy.Some?)
    ensures c.policy.Some? ==> c.policy.value.name == start.policy.value.name
  {
    hide Apply, Cache.Agrees;
    if ops == [] then start else Apply(Run(start, ops[..|ops| - 1]), ops[|ops| - 1])
  }

  lemma EmptyAgrees(name: Option<PolicyName>, maxEntries: Option<nat>)
    requires maxEntries.Some? ==> maxEntries.value > 0
    ensures EmptyCache(name, maxEntries).Agrees()
  {
  }

  /** Unless the external store loses a key, stored keys equal indexed keys on every run from empty. */
  lemma {:induction false} NothingLostNothingMissing(name: Option<PolicyName>, maxEntries: Option<nat>, ops: seq<Op>)
    requires maxEntries.Some? ==> maxEntries.value > 0
    requires forall i :: 0 <= i < |ops| ==> !ops[i].Lose?
    ensures EmptyCache(name, maxEntries).Agrees()
    ensures Run(EmptyCache(name, maxEntries), ops).kv.Keys == Run(EmptyCache(name, maxEntries), ops).indexed
  {
    EmptyAgrees(name, maxEntries);
    hide Apply, PolicyState.Valid;
    if ops != [] {
      NothingLostNothingMissing(name, maxEntries, ops[..|ops| - 1]);
      StoredAfter(Run(EmptyCache(name, maxEntries), ops[..|ops| - 1]), ops[|ops| - 1], "");
    }
  }

  /** The response of the last put of a key. */
  function LatestPut(ops: seq<Op>, k: Key): Option<Response> {
    if ops == [] then None
    else
      var op := ops[|ops| - 1];
      if op.Put? && op.key == k then Some(op.response) else LatestPut(ops[..|ops| - 1], k)
  }

  /** Reads are fresh: whatever is stored under a key is what was last put there. */
  lemma {:induction false} StoredIsLatest(name: Option<PolicyName>, maxEntries: Option<nat>, ops: seq<Op>, k: Key)
    requires maxEntries.Some? ==> maxEntries.value > 0
    ensures EmptyCache(name, maxEntries).Agrees()
    ensures var c := Run(EmptyCache(name, maxEntries), ops);
            k in c.kv ==> LatestPut(ops, k) == Some(c.kv[k])
  {
    EmptyAgrees(name, maxEntries);
    hide Apply, PolicyState.Valid;
    if ops != [] {
      StoredIsLatest(name, maxEntries, ops[..|ops| - 1], k);
      StoredAfter(Run(EmptyCache(name, maxEntries), ops[..|ops| - 1]), ops[|ops| - 1], k);
    }
  }

  /** A lookup serves only what was last put under the key the oracle accepted, and only while it is
      stored; a key found lost is in none of the stores afterwards. */
  lemma LookupServesLatestOrHeals(name: Option<PolicyName>, maxEntries: Option<nat>, ops: seq<Op>, d: OracleDecision)
    requires maxEntries.Some? ==> maxEntries.value > 0
    ensures EmptyCache(name, maxEntries).Agrees()
    ensures var c := Run(EmptyCache(name, maxEntries), ops);
            var (response, after) := c.LookedUp(d);
            && (response.Some? <==> d.accepted && d.key.Some? && d.key.value in c.kv)
            && (response.Some?
                ==> LatestPut(ops, d.key.value) == response && after.kv == c.kv && after.indexed == c.indexed)
            && (d.accepted && d.key.Some? && response.None?
                ==> d.key.value !in after.kv && d.key.value !in after.indexed
                    && (after.policy.Some? ==> d.key.value !in after.policy.value.entries))
  {
    EmptyAgrees(name, maxEntries);
    hide Run, PolicyState.Valid;
    if d.key.Some? {
      StoredIsLatest(name, maxEntries, ops, d.key.value);
    }
  }

  // ---- who is evicted ----

  /** A key just inserted precedes another exactly under LFU, when the other has been accessed again. */
  lemma FreshKeyBefore(p: PolicyState, k: Key, l: Key)
    requires p.Valid() && k !in p.entries && l in p.entries
    ensures var q := p.Inserted(k);
            (q.Before(k, l) <==> p.name == LFU && p.entries[l].accessCount > 1) && (q.Before(l, k) <==> !q.Before(k, l))
  {
  }

  /** Survival of the entry just put: never the victim under LRU and FIFO; under LFU the victim of its
      own put exactly when every other tracked entry has been accessed again since its insertion. */
  lemma OwnPutSurvival(c: Cache, k: Key)
    requires c.Agrees() && c.policy.Some? && PutOverflows(c, k)
    ensures c.policy.value.Inserted(k).Valid() && k in c.policy.value.Inserted(k).entries
    ensures var p := c.policy.value;
            VictimOf(p.Inserted(k)) == k
            <==> p.name == LFU && forall l | l in p.entries :: p.entries[l].accessCount > 1
  {
    hide PolicyState.Valid, PolicyState.Before;
    var p, q := c.policy.value, c.policy.value.Inserted(k);
    StepsKeepValid(p, k);
    var victim := VictimOf(q);
    assert p.entries.Keys != {};
    var l0 :| l0 in p.entries;
    if victim == k {
      forall l | l in p.entries ensures p.name == LFU && p.entries[l].accessCount > 1 {
        FreshKeyBefore(p, k, l);
      }
    } else {
      FreshKeyBefore(p, k, victim);
    }
  }

  /** Hits a key has had since its last insertion, read off the run. */
  ghost function HitsSince(start: Cache, ops: seq<Op>, k: Key): nat
    requires start.Agrees()
  {
    if ops == [] then 0
    else
      var front, op := ops[..|ops| - 1], ops[|ops| - 1];
      if op.Put? && op.key == k then 0
      else
        HitsSince(start, front, k)
        + if op.Lookup? && op.decision == OracleDecision(true, Some(k)) && k in Run(start, front).kv then 1 else 0
  }

  /** What one operation does to the access count of a key that is tracked afterwards. */
  lemma EntryAfter(c: Cache, op: Op, k: Key)
    requires c.Agrees() && c.policy.Some?
    requires k in Apply(c, op).policy.value.entries
    ensures var count := Apply(c, op).policy.value.entries[k].accessCount;
            if op.Put? && op.key == k then count == 1
            else
              k in c.policy.value.entries
              && count == c.policy.value.entries[k].accessCount
                          + if op.Lookup? && op.decision == OracleDecision(true, Some(k)) && k in c.kv then 1 else 0
  {
    hide PolicyState.Valid, PolicyState.IsVictim, Cache.Agrees;
  }

  lemma {:induction false} CountsFrom(start: Cache, ops: seq<Op>, k: Key)
    requires start.Agrees() && start.policy.Some? && start.policy.value.entries == map[]
    ensures var entries := Run(start, ops).policy.value.entries;
            k in entries ==> entries[k].accessCount == 1 + HitsSince(start, ops, k)
  {
    hide Apply, Cache.Agrees;
    if ops != [] {
      CountsFrom(start, ops[..|ops| - 1], k);
      if k in Run(start, ops).policy.value.entries {
        EntryAfter(Run(start, ops[..|ops| - 1]), ops[|ops| - 1], k);
      }
    }
  }

  /** The access counter is one more than the hits since insertion, on every run. */
  lemma {:induction false} AccessCountIsHits(name: PolicyName, maxEntries: Option<nat>, ops: seq<Op>, k: Key)
    requires maxEntries.Some? ==> maxEntries.value > 0
    ensures EmptyCache(Some(name), maxEntries).Agrees()
    ensures var start := EmptyCache(Some(name), maxEntries);
            var p := Run(start, ops).policy.value;
            k in p.entries ==> p.entries[k].accessCount == 1 + HitsSince(start, ops, k)
  {
    EmptyAgrees(Some(name), maxEntries);
    CountsFrom(EmptyCache(Some(name), maxEntries), ops, k);
  }
}
