/** Which key a put evicts, read off the history of operations alone: for every policy, and for runs in which
    keys are invalidated, lost and found lost on the way. */
module EvictionHistory {
  import opened Scores
  import opened Eviction
  import opened Gateway
  import opened GatewayRuns

  /** A put of the key, or a lookup that serves it. */
  predicate Touches(c: Cache, op: Op, k: Key) {
    (op.Put? && op.key == k) || (op.Lookup? && op.decision == OracleDecision(true, Some(k)) && k in c.kv)
  }

  /** The number of the last operation that touched the key, counted from one. */
  ghost function TouchedAt(start: Cache, ops: seq<Op>, k: Key): (n: nat)
    requires start.Agrees()
    ensures n <= |ops|
  {
    if ops == [] then 0
    else
      var front := ops[..|ops| - 1];
      if Touches(Run(start, front), ops[|ops| - 1], k) then |ops| else TouchedAt(start, front, k)
  }

  /** The number of the last put of the key. */
  function PutAt(ops: seq<Op>, k: Key): (n: nat)
    ensures n <= |ops|
  {
    if ops == [] then 0
    else
      var op := ops[|ops| - 1];
      if op.Put? && op.key == k then |ops| else PutAt(ops[..|ops| - 1], k)
  }

  /** What each policy evicts by: the earliest put; the earliest touch; the fewest hits since the last put,
      then the earliest touch. */
  ghost function HistoryKey(name: PolicyName, start: Cache, ops: seq<Op>, k: Key): (nat, nat, nat)
    requires start.Agrees()
  {
    match name
    case FIFO => (PutAt(ops, k), 0, 0)
    case LRU => (TouchedAt(start, ops, k), 0, 0)
    case LFU => (HitsSince(start, ops, k), TouchedAt(start, ops, k), 0)
  }

  /** The key every other one of them comes after. */
  ghost predicate FirstOf(name: PolicyName, start: Cache, ops: seq<Op>, keys: set<Key>, k: Key)
    requires start.Agrees()
  {
    k in keys
    && forall l :: l in keys && l != k
         ==> LexLess(HistoryKey(name, start, ops, k), HistoryKey(name, start, ops, l))
  }

  // ---- the counters tell the history ----

  /** One operation moves the counters of the key it touches past all others, and leaves the rest alone. */
  lemma CountersAfter(c: Cache, op: Op, k: Key)
    requires c.Agrees() && c.policy.Some? && k in Apply(c, op).policy.value.entries
    ensures var p, m := c.policy.value, Apply(c, op).policy.value.entries[k];
            if op.Put? && op.key == k then m.insertionOrder == p.insertionCounter + 1 && m.lastAccessTick == p.clock + 1
            else
              k in p.entries && m.insertionOrder == p.entries[k].insertionOrder
              && m.lastAccessTick == if Touches(c, op, k) then p.clock + 1 else p.entries[k].lastAccessTick
  {
    hide PolicyState.Valid, PolicyState.IsVictim, Cache.Agrees;
  }

  /** Stamps order tracked keys like the positions in the history do. */
  ghost predicate Stamped(start: Cache, ops: seq<Op>, k: Key, l: Key)
    requires start.Agrees() && start.policy.Some?
  {
    var entries := Run(start, ops).policy.value.entries;
    k in entries && l in entries ==>
      && (entries[k].insertionOrder < entries[l].insertionOrder <==> PutAt(ops, k) < PutAt(ops, l))
      && (entries[k].lastAccessTick < entries[l].lastAccessTick
          <==> TouchedAt(start, ops, k) < TouchedAt(start, ops, l))
  }

  lemma CountersBelow(c: Cache, k: Key)
    requires c.Agrees() && c.policy.Some? && k in c.policy.value.entries
    ensures c.policy.value.entries[k].insertionOrder <= c.policy.value.insertionCounter
    ensures c.policy.value.entries[k].lastAccessTick <= c.policy.value.clock
  {
  }

  lemma {:induction false} StampsTellHistory(start: Cache, ops: seq<Op>, k: Key, l: Key)
    requires start.Agrees() && start.policy.Some? && start.policy.value.entries == map[] && k != l
    ensures Stamped(start, ops, k, l)
  {
    hide Apply, Cache.Agrees, PolicyState.Valid;
    if ops != [] {
      var front, op := ops[..|ops| - 1], ops[|ops| - 1];
      var before := Run(start, front);
      StampsTellHistory(start, front, k, l);
      var entries := Run(start, ops).policy.value.entries;
      if k in entries && l in entries {
        CountersAfter(before, op, k);
        CountersAfter(before, op, l);
        if k in before.policy.value.entries {
          CountersBelow(before, k);
        }
        if l in before.policy.value.entries {
          CountersBelow(before, l);
        }
      }
    }
  }

  lemma DifferentTicks(c: Cache, k: Key, l: Key)
    requires c.Agrees() && c.policy.Some? && k in c.policy.value.entries && l in c.policy.value.entries && k != l
    ensures c.policy.value.entries[k].lastAccessTick != c.policy.value.entries[l].lastAccessTick
  {
  }

  /** On every run from empty, a policy orders its keys as their histories do. */
  lemma OrderIsHistory(name: PolicyName, maxEntries: Option<nat>, ops: seq<Op>, k: Key, l: Key)
    requires maxEntries.Some? ==> maxEntries.value > 0
    ensures EmptyCache(Some(name), maxEntries).Agrees()
    ensures var start := EmptyCache(Some(name), maxEntries);
            var p := Run(start, ops).policy.value;
            k in p.entries && l in p.entries && k != l ==>
              (p.Before(k, l) <==> LexLess(HistoryKey(name, start, ops, k), HistoryKey(name, start, ops, l)))
  {
    EmptyAgrees(Some(name), maxEntries);
    hide Run, Cache.Agrees, PolicyState.Valid, HitsSince, TouchedAt, PutAt;
    var start := EmptyCache(Some(name), maxEntries);
    var c := Run(start, ops);
    var p := c.policy.value;
    if k in p.entries && l in p.entries && k != l {
      StampsTellHistory(start, ops, k, l);
      StampsTellHistory(start, ops, l, k);
      DifferentTicks(c, k, l);
      AccessCountIsHits(name, maxEntries, ops, k);
      AccessCountIsHits(name, maxEntries, ops, l);
    }
  }

  // ---- who is evicted ----

  lemma PutHistory(start: Cache, ops: seq<Op>, k: Key, r: Response, l: Key)
    requires start.Agrees()
    ensures PutAt(ops + [Put(k, r)], l) == if l == k then |ops| + 1 else PutAt(ops, l)
    ensures TouchedAt(start, ops + [Put(k, r)], l) == if l == k then |ops| + 1 else TouchedAt(start, ops, l)
    ensures HitsSince(start, ops + [Put(k, r)], l) == if l == k then 0 else HitsSince(start, ops, l)
  {
    assert (ops + [Put(k, r)])[..|ops|] == ops;
    hide Run, Cache.Agrees;
  }

  /** The key just put, against another. */
  lemma FreshIsHistory(name: PolicyName, maxEntries: Option<nat>, ops: seq<Op>, k: Key, r: Response, l: Key)
    requires maxEntries.Some? ==> maxEntries.value > 0
    ensures EmptyCache(Some(name), maxEntries).Agrees()
    ensures var start := EmptyCache(Some(name), maxEntries);
            var p := Run(start, ops).policy.value;
            var q, ops' := p.Inserted(k), ops + [Put(k, r)];
            l in p.entries && l != k ==>
              (q.Before(k, l) <==> LexLess(HistoryKey(name, start, ops', k), HistoryKey(name, start, ops', l)))
              && (q.Before(l, k) <==> LexLess(HistoryKey(name, start, ops', l), HistoryKey(name, start, ops', k)))
  {
    EmptyAgrees(Some(name), maxEntries);
    hide Run, Cache.Agrees, PolicyState.Valid, HitsSince, TouchedAt, PutAt;
    var start := EmptyCache(Some(name), maxEntries);
    var c := Run(start, ops);
    if l in c.policy.value.entries && l != k {
      CountersBelow(c, l);
      AccessCountIsHits(name, maxEntries, ops, l);
      PutHistory(start, ops, k, r, k);
      PutHistory(start, ops, k, r, l);
    }
  }

  /** Before capacity is enforced the policy orders all keys, the new one included, by their histories. */
  lemma InsertedOrderIsHistory(name: PolicyName, maxEntries: Option<nat>, ops: seq<Op>, k: Key, r: Response, l: Key,
                               m: Key)
    requires maxEntries.Some? ==> maxEntries.value > 0
    ensures EmptyCache(Some(name), maxEntries).Agrees()
    ensures var start := EmptyCache(Some(name), maxEntries);
            var q, ops' := Run(start, ops).policy.value.Inserted(k), ops + [Put(k, r)];
            l in q.entries && m in q.entries && l != m ==>
              (q.Before(l, m) <==> LexLess(HistoryKey(name, start, ops', l), HistoryKey(name, start, ops', m)))
  {
    EmptyAgrees(Some(name), maxEntries);
    hide Run, Cache.Agrees, PolicyState.Valid, HitsSince, TouchedAt, PutAt, LexLess;
    var start := EmptyCache(Some(name), maxEntries);
    FreshIsHistory(name, maxEntries, ops, k, r, l);
    FreshIsHistory(name, maxEntries, ops, k, r, m);
    OrderIsHistory(name, maxEntries, ops, l, m);
    PutHistory(start, ops, k, r, l);
    PutHistory(start, ops, k, r, m);
  }

  lemma FirstIsVictim(name: PolicyName, maxEntries: Option<nat>, ops: seq<Op>, k: Key, r: Response, v: Key)
    requires maxEntries.Some? ==> maxEntries.value > 0
    ensures EmptyCache(Some(name), maxEntries).Agrees()
    ensures var start := EmptyCache(Some(name), maxEntries);
            var q := Run(start, ops).policy.value.Inserted(k);
            q.IsVictim(v) <==> FirstOf(name, start, ops + [Put(k, r)], q.entries.Keys, v)
  {
    EmptyAgrees(Some(name), maxEntries);
    hide Run, Cache.Agrees, PolicyState.Valid, HistoryKey, LexLess, PolicyState.Inserted, PolicyState.Before;
    var start := EmptyCache(Some(name), maxEntries);
    var q, ops' := Run(start, ops).policy.value.Inserted(k), ops + [Put(k, r)];
    forall l | l in q.entries && v in q.entries && l != v
      ensures q.Before(v, l) <==> LexLess(HistoryKey(name, start, ops', v), HistoryKey(name, start, ops', l))
    {
      InsertedOrderIsHistory(name, maxEntries, ops, k, r, v, l);
    }
  }

  /** The key a put drops is the victim of the policy it has just updated. */
  lemma VictimLeaves(c: Cache, k: Key, r: Response, v: Key)
    requires c.Agrees() && c.policy.Some?
    ensures var keys := c.indexed + {k};
            && c.policy.value.Inserted(k).entries.Keys == keys
            && if PutOverflows(c, k)
               then v in keys && v !in PutResult(c, k, r).indexed <==> c.policy.value.Inserted(k).IsVictim(v)
               else PutResult(c, k, r).indexed == keys
  {
    hide PolicyState.Valid, PolicyState.IsVictim, PutResult;
    PutEvicts(c, k, r);
    var q := c.policy.value.Inserted(k);
    assert q.entries.Keys == c.indexed + {k};
    if q.IsVictim(v) {
      VictimIsUnique(q, v, VictimOf(q));
    }
  }

  lemma RunPut(start: Cache, ops: seq<Op>, k: Key, r: Response)
    requires start.Agrees()
    ensures Run(start, ops + [Put(k, r)]) == PutResult(Run(start, ops), k, r)
  {
    assert (ops + [Put(k, r)])[..|ops|] == ops;
    hide PutResult, Cache.Agrees;
  }

  /** Eviction, for all three policies and every run from empty: when a put brings a new key into a full cache,
      the key that leaves is the first by its history among those that were tracked and the new one. */
  lemma EvictedIsFirst(name: PolicyName, maxEntries: Option<nat>, ops: seq<Op>, k: Key, r: Response, v: Key)
    requires maxEntries.Some? ==> maxEntries.value > 0
    ensures EmptyCache(Some(name), maxEntries).Agrees()
    ensures var start := EmptyCache(Some(name), maxEntries);
            var before, after := Run(start, ops), Run(start, ops + [Put(k, r)]);
            var keys := before.indexed + {k};
            if PutOverflows(before, k)
            then v in keys && v !in after.indexed <==> FirstOf(name, start, ops + [Put(k, r)], keys, v)
            else after.indexed == keys
  {
    EmptyAgrees(Some(name), maxEntries);
    hide Run, PutResult, Cache.Agrees, PolicyState.IsVictim, FirstOf, PutOverflows, PolicyState.Inserted;
    var start := EmptyCache(Some(name), maxEntries);
    RunPut(start, ops, k, r);
    VictimLeaves(Run(start, ops), k, r, v);
    FirstIsVictim(name, maxEntries, ops, k, r, v);
  }

  // ---- how long a response is served ----

  /** An operation after these puts a new key into a full cache, and this one goes, as its history says. */
  ghost predicate Evicts(name: Option<PolicyName>, start: Cache, front: seq<Op>, op: Op, k: Key)
    requires start.Agrees()
  {
    name.Some? && op.Put? && PutOverflows(Run(start, front), op.key)
    && FirstOf(name.value, start, front + [op], Run(start, front).indexed + {op.key}, k)
  }

  /** Operation j takes the key out of the store. */
  ghost predicate Removes(name: Option<PolicyName>, start: Cache, ops: seq<Op>, j: nat, k: Key)
    requires start.Agrees() && j < |ops|
  {
    ops[j] == Invalidate(k) || ops[j] == Lose(k) || Evicts(name, start, ops[..j], ops[j], k)
  }

  ghost predicate KeptFrom(name: Option<PolicyName>, start: Cache, ops: seq<Op>, i: nat, k: Key)
    requires start.Agrees() && i < |ops|
  {
    ops[i].Put? && ops[i].key == k && forall j: nat :: i <= j < |ops| ==> !Removes(name, start, ops, j, k)
  }

  /** The key was put, and nothing from then on removed it. */
  ghost predicate Kept(name: Option<PolicyName>, start: Cache, ops: seq<Op>, k: Key)
    requires start.Agrees()
  {
    exists i: nat :: i < |ops| && KeptFrom(name, start, ops, i, k)
  }

  lemma RemovesInPrefix(name: Option<PolicyName>, start: Cache, ops: seq<Op>, j: nat, k: Key)
    requires start.Agrees() && j < |ops| - 1
    ensures Removes(name, start, ops[..|ops| - 1], j, k) <==> Removes(name, start, ops, j, k)
  {
    hide Evicts, Cache.Agrees;
    assert ops[..|ops| - 1][..j] == ops[..j];
  }

  /** What the last operation does to it. */
  lemma KeptStep(name: Option<PolicyName>, start: Cache, ops: seq<Op>, k: Key)
    requires start.Agrees() && ops != []
    ensures var n := |ops| - 1;
            Kept(name, start, ops, k)
            <==> !Removes(name, start, ops, n, k)
                 && ((ops[n].Put? && ops[n].key == k) || Kept(name, start, ops[..n], k))
  {
    hide Removes;
    var n := |ops| - 1;
    forall j: nat | j < n ensures Removes(name, start, ops[..n], j, k) <==> Removes(name, start, ops, j, k) {
      RemovesInPrefix(name, start, ops, j, k);
    }
    if i: nat :| i < n && KeptFrom(name, start, ops, i, k) {
      assert KeptFrom(name, start, ops[..n], i, k);
    }
    if !Removes(name, start, ops, n, k) {
      if ops[n].Put? && ops[n].key == k {
        assert KeptFrom(name, start, ops, n, k);
      }
      if i: nat :| i < n && KeptFrom(name, start, ops[..n], i, k) {
        assert KeptFrom(name, start, ops, i, k);
      }
    }
  }

  lemma StepsAgree(c: Cache, k: Key)
    requires c.Agrees() && c.policy.Some?
    ensures c.policy.value.Inserted(k).Valid() && c.policy.value.Inserted(k).entries.Keys == c.indexed + {k}
  {
    StepsKeepValid(c.policy.value, k);
    hide PolicyState.Valid;
  }

  lemma EvictsIsVictim(name: Option<PolicyName>, maxEntries: Option<nat>, ops: seq<Op>, k: Key, r: Response, l: Key)
    requires maxEntries.Some? ==> maxEntries.value > 0
    ensures EmptyCache(name, maxEntries).Agrees()
    ensures var start := EmptyCache(name, maxEntries);
            var before := Run(start, ops);
            && (before.policy.Some? <==> name.Some?)
            && (before.policy.Some? ==> before.policy.value.Inserted(k).Valid())
            && (PutOverflows(before, k) ==> before.policy.value.Inserted(k).entries != map[])
            && (Evicts(name, start, ops, Put(k, r), l)
                <==> PutOverflows(before, k) && l == VictimOf(before.policy.value.Inserted(k)))
  {
    EmptyAgrees(name, maxEntries);
    var before := Run(EmptyCache(name, maxEntries), ops);
    hide Run, FirstOf, Cache.Agrees, PolicyState.Valid, PolicyState.IsVictim;
    if name.Some? {
      PutStores(before, k, r);
      StepsAgree(before, k);
      FirstIsVictim(name.value, maxEntries, ops, k, r, l);
      if PutOverflows(before, k) && before.policy.value.Inserted(k).IsVictim(l) {
        VictimIsUnique(before.policy.value.Inserted(k), l, VictimOf(before.policy.value.Inserted(k)));
      }
    }
  }

  /** The keys a put leaves in the store. */
  lemma PutLeaves(c: Cache, k: Key, r: Response, l: Key)
    requires c.Agrees()
    ensures PutOverflows(c, k) ==>
              c.policy.value.Inserted(k).Valid() && c.policy.value.Inserted(k).entries != map[]
    ensures l in PutResult(c, k, r).kv
            <==> (l == k || l in c.kv) && !(PutOverflows(c, k) && l == VictimOf(c.policy.value.Inserted(k)))
  {
    hide PutOverflows, Cache.Agrees, PutResult, PolicyState.Inserted, PolicyState.Valid, PolicyState.IsVictim,
         Cache.LookedUp, VictimOf;
    PutStores(c, k, r);
  }

  /** What a put at the end of a run leaves in the store. */
  lemma PutKeeps(name: Option<PolicyName>, maxEntries: Option<nat>, ops: seq<Op>, k: Key, r: Response, l: Key)
    requires maxEntries.Some? ==> maxEntries.value > 0
    ensures EmptyCache(name, maxEntries).Agrees()
    ensures var start := EmptyCache(name, maxEntries);
            l in Run(start, ops + [Put(k, r)]).kv
            <==> !Evicts(name, start, ops, Put(k, r), l) && (l == k || l in Run(start, ops).kv)
  {
    EmptyAgrees(name, maxEntries);
    hide Run, Evicts, PutOverflows, Cache.Agrees, PutResult, PolicyState.Inserted, PolicyState.Valid,
         PolicyState.IsVictim, Cache.LookedUp, VictimOf;
    var start := EmptyCache(name, maxEntries);
    RunPut(start, ops, k, r);
    PutLeaves(Run(start, ops), k, r, l);
    EvictsIsVictim(name, maxEntries, ops, k, r, l);
  }

  lemma OtherKeeps(start: Cache, front: seq<Op>, op: Op, k: Key)
    requires start.Agrees() && !op.Put?
    ensures k in Run(start, front + [op]).kv <==> op != Invalidate(k) && op != Lose(k) && k in Run(start, front).kv
  {
    assert (front + [op])[..|front|] == front;
    OtherEffects(Run(start, front), op);
    hide Apply, Cache.Agrees;
  }

  lemma LastRemoves(name: Option<PolicyName>, start: Cache, front: seq<Op>, op: Op, k: Key)
    requires start.Agrees()
    ensures Removes(name, start, front + [op], |front|, k)
            <==> op == Invalidate(k) || op == Lose(k) || Evicts(name, start, front, op, k)
    ensures !op.Put? ==> !Evicts(name, start, front, op, k)
  {
    assert (front + [op])[..|front|] == front;
    hide FirstOf, PutOverflows, Run, Cache.Agrees;
  }

  /** What the last operation of a run leaves in the store. */
  lemma StoredStep(name: Option<PolicyName>, maxEntries: Option<nat>, front: seq<Op>, op: Op, k: Key)
    requires maxEntries.Some? ==> maxEntries.value > 0
    ensures EmptyCache(name, maxEntries).Agrees()
    ensures var start := EmptyCache(name, maxEntries);
            k in Run(start, front + [op]).kv
            <==> !Removes(name, start, front + [op], |front|, k)
                 && ((op.Put? && op.key == k) || k in Run(start, front).kv)
  {
    EmptyAgrees(name, maxEntries);
    hide Run, Cache.Agrees, Evicts, Removes, EmptyCache;
    LastRemoves(name, EmptyCache(name, maxEntries), front, op, k);
    match op {
      case Put(l, r) => PutKeeps(name, maxEntries, front, l, r, k);
      case _ => OtherKeeps(EmptyCache(name, maxEntries), front, op, k);
    }
  }

  lemma {:induction false} StoredIffKept(name: Option<PolicyName>, maxEntries: Option<nat>, ops: seq<Op>, k: Key)
    requires maxEntries.Some? ==> maxEntries.value > 0
    ensures EmptyCache(name, maxEntries).Agrees()
    ensures k in Run(EmptyCache(name, maxEntries), ops).kv <==> Kept(name, EmptyCache(name, maxEntries), ops, k)
  {
    EmptyAgrees(name, maxEntries);
    if ops != [] {
      hide Run, Kept, Cache.Agrees, Removes, EmptyCache;
      var front, op := ops[..|ops| - 1], ops[|ops| - 1];
      assert ops == front + [op];
      StoredIffKept(name, maxEntries, front, k);
      KeptStep(name, EmptyCache(name, maxEntries), ops, k);
      StoredStep(name, maxEntries, front, op, k);
    }
  }

  /** Serving, on every run from empty, with any policy and bound or with none: a lookup accepted for a key answers
      the response last put under it, if and only if the key was put and since then neither invalidated, lost nor
      evicted. */
  lemma ServedUntilRemoved(name: Option<PolicyName>, maxEntries: Option<nat>, ops: seq<Op>, k: Key)
    requires maxEntries.Some? ==> maxEntries.value > 0
    ensures EmptyCache(name, maxEntries).Agrees()
    ensures var start := EmptyCache(name, maxEntries);
            Run(start, ops).LookedUp(OracleDecision(true, Some(k))).0
            == if Kept(name, start, ops, k) then LatestPut(ops, k) else None
  {
    hide Run, Kept, Cache.Agrees, LatestPut;
    StoredIffKept(name, maxEntries, ops, k);
    StoredIsLatest(name, maxEntries, ops, k);
  }
}
