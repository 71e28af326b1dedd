/** Cache eviction policies (src/mlcache/cache/eviction.py). */
module Eviction {
  import opened Scores

  type Key = string

  datatype PolicyName = FIFO | LRU | LFU

  datatype Meta = Meta(insertionOrder: nat, accessCount: nat, lastAccessTick: nat)

  /** `_eviction_sort_key`, padded to a triple. */
  function SortKey(name: PolicyName, m: Meta): (nat, nat, nat) {
    match name
    case FIFO => (m.insertionOrder, 0, 0)
    case LRU => (m.lastAccessTick, m.insertionOrder, 0)
    case LFU => (m.accessCount, m.lastAccessTick, m.insertionOrder)
  }

  predicate LexLess(a: (nat, nat, nat), b: (nat, nat, nat)) {
    a.0 < b.0 || (a.0 == b.0 && (a.1 < b.1 || (a.1 == b.1 && a.2 < b.2)))
  }

  /** The bookkeeping of a policy as a value. */
  datatype PolicyState = PolicyState(name: PolicyName, entries: map<Key, Meta>, insertionCounter: nat, clock: nat) {

    function Inserted(k: Key): PolicyState {
      this.(entries := entries[k := Meta(insertionCounter + 1, 1, clock + 1)],
            insertionCounter := insertionCounter + 1, clock := clock + 1)
    }

    function Hit(k: Key): PolicyState {
      if k !in entries then this
      else
        var m := entries[k];
        this.(entries := entries[k := Meta(m.insertionOrder, m.accessCount + 1, clock + 1)], clock := clock + 1)
    }

    function Removed(k: Key): PolicyState {
      this.(entries := entries - {k})
    }

    /** Counters are never reused, so no two entries tie, and every entry has been accessed. */
    ghost predicate Valid() {
      && (forall k | k in entries :: entries[k].insertionOrder <= insertionCounter
                                     && entries[k].lastAccessTick <= clock && entries[k].accessCount >= 1)
      && (forall k, l | k in entries && l in entries && k != l ::
            entries[k].insertionOrder != entries[l].insertionOrder
            && entries[k].lastAccessTick != entries[l].lastAccessTick)
    }

    predicate Before(k: Key, l: Key)
      requires k in entries && l in entries
    {
      LexLess(SortKey(name, entries[k]), SortKey(name, entries[l]))
    }

    /** The entry every other entry comes after. */
    ghost predicate IsVictim(k: Key) {
      k in entries && forall l | l in entries && l != k :: Before(k, l)
    }
  }

  lemma StepsKeepValid(p: PolicyState, k: Key)
    requires p.Valid()
    ensures p.Inserted(k).Valid() && p.Hit(k).Valid() && p.Removed(k).Valid()
  {
  }

  /** In a valid state a policy orders its entries totally. */
  lemma BeforeIsTotal(p: PolicyState, k: Key, l: Key)
    requires p.Valid() && k in p.entries && l in p.entries && k != l
    ensures p.Before(k, l) <==> !p.Before(l, k)
  {
  }

  lemma VictimIsUnique(p: PolicyState, k: Key, l: Key)
    requires p.Valid() && p.IsVictim(k) && p.IsVictim(l)
    ensures k == l
  {
    if k != l {
      BeforeIsTotal(p, k, l);
    }
  }

  lemma BeforeIsTransitive(p: PolicyState, j: Key, k: Key, l: Key)
    requires j in p.entries && k in p.entries && l in p.entries
    requires p.Before(j, k) && p.Before(k, l)
    ensures p.Before(j, l)
  {
  }

  lemma {:induction false} VictimExists(p: PolicyState) returns (victim: Key)
    requires p.Valid() && p.entries != map[]
    ensures p.IsVictim(victim)
    decreases |p.entries|
  {
    var first :| first in p.entries;
    var rest := p.Removed(first);
    assert rest.entries.Keys == p.entries.Keys - {first};
    victim := first;
    StepsKeepValid(p, first);
    if rest.entries != map[] {
      var other := VictimExists(rest);
      BeforeIsTotal(p, first, other);
      hide PolicyState.Valid, LexLess, SortKey;
      victim := if p.Before(first, other) then first else other;
      forall l | l in p.entries && l != victim ensures p.Before(victim, l) {
        if l != first && l != other {
          assert rest.Before(other, l) && p.Before(other, l);
          if victim == first {
            BeforeIsTransitive(p, first, other, l);
          }
        }
      }
    } else {
      forall l | l in p.entries ensures l == first {
        assert l != first ==> l in rest.entries.Keys;
      }
    }
  }

  /** The victim of a non-empty valid state. */
  ghost function VictimOf(p: PolicyState): (victim: Key)
    requires p.Valid() && p.entries != map[]
    ensures p.IsVictim(victim) && victim in p.entries
  {
    assert exists k :: p.IsVictim(k) by {
      var k := VictimExists(p);
    }
    var victim :| p.IsVictim(victim);
    victim
  }

  class CacheEvictionPolicy {
    const name: PolicyName
    var entries: map<Key, Meta>
    var insertionCounter: nat
    var clock: nat

    constructor (name: PolicyName)
      ensures Abstract() == PolicyState(name, map[], 0, 0) && Abstract().Valid()
    {
      this.name := name;
      entries, insertionCounter, clock := map[], 0, 0;
    }

    function Abstract(): PolicyState
      reads this
    {
      PolicyState(name, entries, insertionCounter, clock)
    }

    method NextTick() returns (tick: nat)
      modifies `clock
      ensures tick == clock == old(clock) + 1
    {
      clock := clock + 1;
      tick := clock;
    }

    method RecordInsert(k: Key)
      modifies this
      ensures Abstract() == old(Abstract()).Inserted(k)
    {
      insertionCounter := insertionCounter + 1;
      var tick := NextTick();
      entries := entries[k := Meta(insertionCounter, 1, tick)];
    }

    method RecordHit(k: Key)
      modifies this
      ensures Abstract() == old(Abstract()).Hit(k)
    {
      if k !in entries {
        return;
      }
      var tick := NextTick();
      var m := entries[k];
      entries := entries[k := Meta(m.insertionOrder, m.accessCount + 1, tick)];
    }

    method RecordRemoval(k: Key)
      modifies this
      ensures Abstract() == old(Abstract()).Removed(k)
    {
      entries := entries - {k};
    }

    /** The minimum by sort key; the order in which entries are visited does not matter. */
    method SelectVictim() returns (victim: Option<Key>)
      requires Abstract().Valid()
      ensures victim.None? <==> entries == map[]
      ensures victim.Some? ==> Abstract().IsVictim(victim.value)
    {
      if entries == map[] {
        return None;
      }
      var best :| best in entries;
      var rest := entries.Keys - {best};
      while rest != {}
        invariant best in entries && best !in rest && rest <= entries.Keys
        invariant forall l | l in entries && l != best && l !in rest :: Abstract().Before(best, l)
        decreases rest
      {
        var k :| k in rest;
        BeforeIsTotal(Abstract(), k, best);
        if Abstract().Before(k, best) {
          best := k;
        }
        rest := rest - {k};
      }
      victim := Some(best);
    }
  }
}
