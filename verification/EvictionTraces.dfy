/** LRU and FIFO against list-based specifications, and against the history of touches.

    Traces here are puts and lookups; keys are not invalidated or lost on the way. */
module EvictionTraces {
  import opened Scores
  import opened Eviction
  import opened Gateway
  import opened GatewayRuns

  // ---- lists of distinct keys ----

  ghost predicate Distinct(s: seq<Key>) {
    forall i, j :: 0 <= i < j < |s| ==> s[i] != s[j]
  }

  /** The position of a member. */
  ghost function At(s: seq<Key>, k: Key): (i: nat)
    requires k in s
    ensures i < |s| && s[i] == k
  {
    var i :| 0 <= i < |s| && s[i] == k;
    i
  }

  ghost function Without(s: seq<Key>, k: Key): seq<Key> {
    if k in s then s[..At(s, k)] + s[At(s, k) + 1..] else s
  }

  ghost function ToFront(s: seq<Key>, k: Key): seq<Key> { [k] + Without(s, k) }

  function Take(s: seq<Key>, n: nat): seq<Key> {
    if |s| <= n then s else s[..n]
  }

  /** Where the i-th entry of `Without(s, k)` stands in s. */
  ghost function Shifted(s: seq<Key>, k: Key, i: nat): nat {
    if k in s && i >= At(s, k) then i + 1 else i
  }

  lemma WithoutFacts(s: seq<Key>, k: Key)
    requires Distinct(s)
    ensures |Without(s, k)| == |s| - if k in s then 1 else 0
    ensures forall i :: 0 <= i < |Without(s, k)| ==>
              Shifted(s, k, i) < |s| && Without(s, k)[i] == s[Shifted(s, k, i)] != k
    ensures forall x :: x in Without(s, k) <==> x in s && x != k
    ensures Distinct(Without(s, k))
  {
    var w := Without(s, k);
    forall x | x in s && x != k ensures x in w {
      var j := At(s, x);
      if k in s && j > At(s, k) {
        assert w[j - 1] == x;
      } else {
        assert w[j] == x;
      }
    }
  }

  lemma PrefixDistinct(s: seq<Key>, n: nat)
    requires Distinct(s) && n <= |s|
    ensures Distinct(s[..n])
  {
  }

  lemma ToFrontFacts(s: seq<Key>, k: Key)
    requires Distinct(s)
    ensures Distinct(ToFront(s, k)) && |ToFront(s, k)| == |s| + if k in s then 0 else 1
    ensures forall x :: x in ToFront(s, k) <==> x == k || x in s
  {
    WithoutFacts(s, k);
    hide Without;
    assert forall x :: x in ToFront(s, k) <==> x == k || x in Without(s, k);
  }

  lemma {:induction false} DistinctCount(s: seq<Key>, keys: set<Key>)
    requires Distinct(s) && (forall x :: x in s <==> x in keys)
    ensures |s| == |keys|
  {
    if s == [] {
      assert keys == {};
    } else {
      assert forall x :: x in s[1..] <==> x in keys - {s[0]};
      DistinctCount(s[1..], keys - {s[0]});
    }
  }

  // ---- the list model ----

  datatype TraceOp = TPut(key: Key, response: Response) | THit(key: Key)

  function ToOp(op: TraceOp): Op {
    match op
    case TPut(k, r) => Put(k, r)
    case THit(k) => Lookup(OracleDecision(true, Some(k)))
  }

  function ToOps(ops: seq<TraceOp>): seq<Op> {
    if ops == [] then [] else ToOps(ops[..|ops| - 1]) + [ToOp(ops[|ops| - 1])]
  }

  /** Most recent first: a put brings its key to the front and cuts the list at the capacity; a hit on
      a listed key brings it to the front under LRU and does nothing under FIFO. */
  ghost function ListStep(l: seq<Key>, op: TraceOp, cap: nat, lru: bool): seq<Key> {
    match op
    case TPut(k, _) => Take(ToFront(l, k), cap)
    case THit(k) => if lru && k in l then ToFront(l, k) else l
  }

  ghost function ListRun(ops: seq<TraceOp>, cap: nat, lru: bool): seq<Key> {
    if ops == [] then [] else ListStep(ListRun(ops[..|ops| - 1], cap, lru), ops[|ops| - 1], cap, lru)
  }

  // ---- the counters refine the list ----

  /** What LRU and FIFO order their entries by. */
  function Stamp(p: PolicyState, k: Key): nat
    requires k in p.entries
  {
    if p.name == FIFO then p.entries[k].insertionOrder else p.entries[k].lastAccessTick
  }

  /** The list holds the tracked keys, latest stamp first. */
  ghost predicate Lists(p: PolicyState, l: seq<Key>) {
    && Distinct(l)
    && (forall x :: x in l <==> x in p.entries)
    && (forall i, j :: 0 <= i < j < |l| ==> Stamp(p, l[i]) > Stamp(p, l[j]))
  }

  lemma ListMembers(p: PolicyState, l: seq<Key>)
    requires Lists(p, l)
    ensures Distinct(l) && forall x :: x in l <==> x in p.entries
  {
  }

  lemma ListsWhen(p: PolicyState, l: seq<Key>)
    requires Distinct(l) && (forall x :: x in l <==> x in p.entries)
    requires forall i: nat, j: nat :: i < j < |l| ==> Stamp(p, l[i]) > Stamp(p, l[j])
    ensures Lists(p, l)
  {
    hide Distinct, Stamp;
  }

  lemma ListStamps(p: PolicyState, l: seq<Key>, x: nat, y: nat)
    requires Lists(p, l) && x < |l| && y < |l|
    ensures l[x] in p.entries && l[y] in p.entries
    ensures x < y ==> Stamp(p, l[x]) > Stamp(p, l[y])
  {
    hide Stamp, Distinct;
  }

  /** Where an entry behind the front comes from. */
  lemma FrontAt(l: seq<Key>, k: Key, j: nat)
    requires Distinct(l) && 0 < j < |ToFront(l, k)|
    ensures Shifted(l, k, j - 1) < |l| && ToFront(l, k)[j] == l[Shifted(l, k, j - 1)] != k
  {
    WithoutFacts(l, k);
    hide Without, Shifted, Distinct;
  }

  lemma ToFrontStamps(p: PolicyState, p': PolicyState, l: seq<Key>, k: Key, i: nat, j: nat)
    requires Distinct(l) && Lists(p, l) && p'.name == p.name && p'.entries.Keys == p.entries.Keys + {k}
    requires forall x :: x in p.entries && x != k ==> Stamp(p', x) == Stamp(p, x) < Stamp(p', k)
    requires i < j < |ToFront(l, k)| && ToFront(l, k)[i] in p'.entries && ToFront(l, k)[j] in p'.entries
    ensures Stamp(p', ToFront(l, k)[i]) > Stamp(p', ToFront(l, k)[j])
  {
    assert ToFront(l, k)[0] == k;
    hide Without, ToFront, Stamp, Lists, Distinct;
    FrontAt(l, k, j);
    var y := Shifted(l, k, j - 1);
    ListStamps(p, l, y, y);
    if i > 0 {
      FrontAt(l, k, i);
      ListStamps(p, l, Shifted(l, k, i - 1), y);
    }
  }

  lemma ToFrontLists(p: PolicyState, p': PolicyState, l: seq<Key>, k: Key)
    requires Lists(p, l) && p'.name == p.name && p'.entries.Keys == p.entries.Keys + {k}
    requires forall x :: x in p.entries && x != k ==> Stamp(p', x) == Stamp(p, x) < Stamp(p', k)
    ensures Lists(p', ToFront(l, k))
  {
    ListMembers(p, l);
    hide Stamp, ToFront, Distinct, Lists;
    ToFrontFacts(l, k);
    var front := ToFront(l, k);
    forall i: nat, j: nat | i < j < |front| ensures Stamp(p', front[i]) > Stamp(p', front[j]) {
      ToFrontStamps(p, p', l, k, i, j);
    }
    ListsWhen(p', front);
  }

  lemma DropLastMembers(p: PolicyState, q: PolicyState, l: seq<Key>, rest: seq<Key>)
    requires Lists(p, l) && l != [] && rest == l[..|l| - 1] && q == p.Removed(l[|l| - 1])
    ensures forall x :: x in rest <==> x in q.entries
  {
    var n := |l| - 1;
    forall x ensures x in rest <==> x in q.entries {
      if x in p.entries && x != l[n] {
        assert rest[At(l, x)] == x;
      }
      if x in rest {
        assert l[At(rest, x)] == x;
      }
    }
  }

  lemma DropLastLists(p: PolicyState, q: PolicyState, l: seq<Key>)
    requires Lists(p, l) && l != [] && q == p.Removed(l[|l| - 1])
    ensures Lists(q, l[..|l| - 1])
  {
    var n := |l| - 1;
    var rest := l[..n];
    DropLastMembers(p, q, l, rest);
    ListMembers(p, l);
    PrefixDistinct(l, n);
    assert forall x :: x in q.entries ==> Stamp(q, x) == Stamp(p, x);
    hide Stamp, Lists, Distinct;
    forall i: nat, j: nat | i < j < n ensures Stamp(q, rest[i]) > Stamp(q, rest[j]) {
      ListStamps(p, l, i, j);
      assert rest[i] in rest && rest[j] in rest;
    }
    ListsWhen(q, rest);
  }

  /** Under LRU and FIFO the victim is the last of the list, and dropping it keeps the rest listed. */
  lemma VictimIsLast(p: PolicyState, l: seq<Key>)
    requires p.name != LFU && Lists(p, l) && l != []
    ensures p.IsVictim(l[|l| - 1]) && Lists(p.Removed(l[|l| - 1]), l[..|l| - 1])
  {
    var n := |l| - 1;
    forall x | x in p.entries && x != l[n] ensures p.Before(l[n], x) {
      var i := At(l, x);
      assert Stamp(p, l[i]) > Stamp(p, l[n]);
      hide Lists;
    }
    DropLastLists(p, p.Removed(l[n]), l);
  }

  ghost predicate Represents(c: Cache, l: seq<Key>, cap: nat) {
    && c.Agrees() && c.maxEntries == Some(cap) && c.policy.Some? && c.policy.value.name != LFU
    && c.kv.Keys == c.indexed && Lists(c.policy.value, l)
  }

  lemma InsertStamps(p: PolicyState, k: Key)
    requires p.Valid()
    ensures p.Inserted(k).entries.Keys == p.entries.Keys + {k}
    ensures forall x :: x in p.entries && x != k ==> Stamp(p.Inserted(k), x) == Stamp(p, x) < Stamp(p.Inserted(k), k)
  {
  }

  lemma ListLength(p: PolicyState, l: seq<Key>)
    requires Lists(p, l)
    ensures |l| == |p.entries|
  {
    DistinctCount(l, p.entries.Keys);
  }

  lemma PutRefines(c: Cache, l: seq<Key>, cap: nat, k: Key, r: Response)
    requires Represents(c, l, cap)
    ensures Lists(PutResult(c, k, r).policy.value, Take(ToFront(l, k), cap))
  {
    hide PolicyState.Valid, PolicyState.IsVictim, Lists, ToFront;
    var p, stored := c.policy.value, c.Stored(k, r);
    var q, front := p.Inserted(k), ToFront(l, k);
    InsertGrows(c, k, r);
    InsertStamps(p, k);
    ToFrontLists(p, q, l, k);
    ListLength(q, front);
    if stored.Overfull() {
      VictimIsLast(q, front);
      VictimIsUnique(q, front[|front| - 1], VictimOf(q));
      assert |front| == cap + 1;
    }
  }

  lemma HitStamps(p: PolicyState, k: Key)
    requires p.Valid() && k in p.entries
    ensures p.Hit(k).entries.Keys == p.entries.Keys && p.Hit(k).name == p.name
    ensures forall x :: x in p.entries && (x != k || p.name == FIFO) ==> Stamp(p.Hit(k), x) == Stamp(p, x)
    ensures p.name != FIFO ==> forall x :: x in p.entries && x != k ==> Stamp(p, x) < Stamp(p.Hit(k), k)
  {
  }

  lemma ApplyHit(c: Cache, l: seq<Key>, cap: nat, k: Key)
    requires Represents(c, l, cap)
    ensures c.policy.Some? && c.policy.value.Valid() && c.policy.value.name != LFU && Lists(c.policy.value, l)
    ensures Apply(c, ToOp(THit(k))).policy
            == if k in c.policy.value.entries then Some(c.policy.value.Hit(k)) else c.policy
  {
    hide PolicyState.Valid, Lists;
    if k !in c.policy.value.entries {
      assert c.policy.value.entries - {k} == c.policy.value.entries;
    }
  }

  lemma SameStamps(p: PolicyState, p': PolicyState, l: seq<Key>)
    requires Lists(p, l) && p'.entries.Keys == p.entries.Keys
    requires forall x :: x in p.entries ==> Stamp(p', x) == Stamp(p, x)
    ensures Lists(p', l)
  {
    hide Stamp;
  }

  lemma HitRefines(c: Cache, l: seq<Key>, cap: nat, k: Key)
    requires Represents(c, l, cap)
    ensures c.policy.Some? && Apply(c, ToOp(THit(k))).policy.Some?
    ensures Lists(Apply(c, ToOp(THit(k))).policy.value, ListStep(l, THit(k), cap, c.policy.value.name == LRU))
  {
    hide PolicyState.Valid, PolicyState.Hit, Lists, ToFront, Stamp, Apply, Represents, Distinct;
    ApplyHit(c, l, cap, k);
    var p := c.policy.value;
    ListMembers(p, l);
    if k in p.entries {
      HitStamps(p, k);
      assert p.entries.Keys + {k} == p.entries.Keys;
      if p.name == LRU {
        ToFrontLists(p, p.Hit(k), l, k);
      } else {
        SameStamps(p, p.Hit(k), l);
      }
    }
  }

  lemma StepRefines(c: Cache, l: seq<Key>, cap: nat, op: TraceOp)
    requires Represents(c, l, cap)
    ensures Represents(Apply(c, ToOp(op)), ListStep(l, op, cap, c.policy.value.name == LRU), cap)
  {
    hide PolicyState.Valid, Lists;
    match op {
      case TPut(k, r) => PutRefines(c, l, cap, k, r);
      case THit(k) => HitRefines(c, l, cap, k);
    }
    hide ListStep;
    StoredAfter(c, ToOp(op), "");
  }

  /** Refinement: after any trace, the counter-based policy tracks exactly the keys of the list run, in
      the order of its counters. */
  lemma {:induction false} CountersRefineList(name: PolicyName, cap: nat, ops: seq<TraceOp>)
    requires name != LFU && cap > 0
    ensures EmptyCache(Some(name), Some(cap)).Agrees()
    ensures Represents(Run(EmptyCache(Some(name), Some(cap)), ToOps(ops)), ListRun(ops, cap, name == LRU), cap)
  {
    EmptyAgrees(Some(name), Some(cap));
    if ops != [] {
      hide Represents, Apply, Cache.Agrees, PutResult, ListStep, Take, ToFront;
      var front, op := ops[..|ops| - 1], ops[|ops| - 1];
      var start := EmptyCache(Some(name), Some(cap));
      CountersRefineList(name, cap, front);
      var c, l := Run(start, ToOps(front)), ListRun(front, cap, name == LRU);
      assert ToOps(ops)[..|ToOps(front)|] == ToOps(front);
      assert Run(start, ToOps(ops)) == Apply(c, ToOp(op));
      StepRefines(c, l, cap, op);
    }
  }

  // ---- the history of touches ----

  /** The keys touched by a trace, oldest first: puts, and under LRU the hits that find their key. */
  ghost function Touches(ops: seq<TraceOp>, cap: nat, lru: bool): seq<Key> {
    if ops == [] then []
    else
      var front, op := ops[..|ops| - 1], ops[|ops| - 1];
      Touches(front, cap, lru)
      + if op.TPut? || (lru && op.key in ListRun(front, cap, lru)) then [op.key] else []
  }

  /** Distinct keys of a touch history, last touched first. */
  ghost function ByRecency(touches: seq<Key>): seq<Key> {
    if touches == [] then [] else ToFront(ByRecency(touches[..|touches| - 1]), touches[|touches| - 1])
  }

  /** The distinct keys touched after the last touch of k. */
  function TouchedAfter(touches: seq<Key>, k: Key): set<Key> {
    if touches == [] || touches[|touches| - 1] == k then {}
    else TouchedAfter(touches[..|touches| - 1], k) + {touches[|touches| - 1]}
  }

  lemma {:induction false} ByRecencyFacts(touches: seq<Key>)
    ensures Distinct(ByRecency(touches))
    ensures forall x :: x in ByRecency(touches) <==> x in touches
  {
    if touches != [] {
      var front := touches[..|touches| - 1];
      ByRecencyFacts(front);
      WithoutFacts(ByRecency(front), touches[|touches| - 1]);
      assert touches == front + [touches[|touches| - 1]];
    }
  }

  /** Where a key of a prefix stands in the whole list. */
  lemma PrefixAt(l: seq<Key>, k: Key, cap: nat)
    requires Distinct(l) && cap <= |l|
    ensures k in l[..cap] <==> k in l && At(l, k) < cap
    ensures k in l[..cap] ==> At(l[..cap], k) == At(l, k)
  {
    if k in l[..cap] {
      assert l[At(l[..cap], k)] == k;
    }
    if k in l && At(l, k) < cap {
      assert l[..cap][At(l, k)] == k;
    }
  }

  /** Removing a key from a prefix and from the whole list leaves the same entries at the start. */
  lemma WithoutShort(l: seq<Key>, k: Key, cap: nat, i: nat)
    requires Distinct(l) && cap <= |l| && i < |Without(l[..cap], k)|
    ensures i < |Without(l, k)| && Without(l, k)[i] == Without(l[..cap], k)[i]
  {
    hide Without;
    PrefixDistinct(l, cap);
    PrefixAt(l, k, cap);
    WithoutFacts(l, k);
    WithoutFacts(l[..cap], k);
    assert Shifted(l[..cap], k, i) == Shifted(l, k, i);
  }

  lemma TakeToFront(l: seq<Key>, k: Key, cap: nat)
    requires Distinct(l) && cap > 0
    ensures Take(ToFront(Take(l, cap), k), cap) == Take(ToFront(l, k), cap)
    ensures k in Take(l, cap) ==> ToFront(Take(l, cap), k) == Take(ToFront(l, k), cap)
  {
    hide Without, Distinct;
    ToFrontFacts(l, k);
    if |l| > cap {
      var short := l[..cap];
      PrefixDistinct(l, cap);
      ToFrontFacts(short, k);
      var x, y := ToFront(short, k), ToFront(l, k);
      forall i: nat | i < cap ensures x[i] == y[i] {
        if i > 0 {
          WithoutShort(l, k, cap, i - 1);
        }
      }
    }
  }

  lemma {:induction false} ListRunIsRecent(ops: seq<TraceOp>, cap: nat, lru: bool)
    requires cap > 0
    ensures ListRun(ops, cap, lru) == Take(ByRecency(Touches(ops, cap, lru)), cap)
  {
    if ops != [] {
      var front, op := ops[..|ops| - 1], ops[|ops| - 1];
      ListRunIsRecent(front, cap, lru);
      var touches := Touches(front, cap, lru);
      ByRecencyFacts(touches);
      TakeToFront(ByRecency(touches), op.key, cap);
      assert (touches + [op.key])[..|touches|] == touches;
      assert touches + [] == touches;
    }
  }

  /** Removing k from a list removes it from every prefix. */
  lemma WithoutPrefix(l: seq<Key>, k: Key, i: nat)
    requires Distinct(l) && i < |Without(l, k)|
    ensures Shifted(l, k, i) < |l|
    ensures forall x :: x in Without(l, k)[..i] <==> x in l[..Shifted(l, k, i)] && x != k
  {
    WithoutFacts(l, k);
    var w, j := Without(l, k), Shifted(l, k, i);
    forall x | x in l[..j] && x != k ensures x in w[..i] {
      var m := At(l[..j], x);
      if k in l && m > At(l, k) {
        assert w[m - 1] == x && w[..i][m - 1] == x;
      } else {
        assert w[m] == x && w[..i][m] == x;
      }
    }
    forall x | x in w[..i] ensures x in l[..j] && x != k {
      var m := At(w[..i], x);
      assert l[..j][Shifted(l, k, m)] == x;
    }
  }

  /** What precedes a key once another key is brought to the front. */
  lemma OrderStep(l: seq<Key>, last: Key, i: nat) returns (j: nat)
    requires Distinct(l) && 0 < i < |ToFront(l, last)|
    ensures j < |l| && l[j] == ToFront(l, last)[i] != last
    ensures forall x :: x in ToFront(l, last)[..i] <==> x == last || x in l[..j]
  {
    WithoutFacts(l, last);
    WithoutPrefix(l, last, i - 1);
    j := Shifted(l, last, i - 1);
    var rest := Without(l, last);
    assert ToFront(l, last)[..i] == [last] + rest[..i - 1];
    hide Without, Shifted;
  }

  /** The position of a key in the recency order is the number of distinct keys touched after it. */
  lemma {:induction false} PositionCounts(touches: seq<Key>, i: nat)
    requires i < |ByRecency(touches)|
    ensures |TouchedAfter(touches, ByRecency(touches)[i])| == i
    ensures forall x :: x in TouchedAfter(touches, ByRecency(touches)[i]) <==> x in ByRecency(touches)[..i]
  {
    var last, front := touches[|touches| - 1], touches[..|touches| - 1];
    var order := ByRecency(touches);
    ByRecencyFacts(front);
    ByRecencyFacts(touches);
    PrefixDistinct(order, i);
    hide Distinct;
    if i > 0 {
      var j := OrderStep(ByRecency(front), last, i);
      hide ToFront, ByRecency;
      PositionCounts(front, j);
      assert TouchedAfter(touches, order[i]) == TouchedAfter(front, order[i]) + {last};
    }
    DistinctCount(order[..i], TouchedAfter(touches, order[i]));
  }

  /** What a represented cache tracks. */
  lemma TrackedInList(c: Cache, l: seq<Key>, cap: nat, k: Key)
    requires Represents(c, l, cap)
    ensures c.policy.Some? && (k in c.policy.value.entries <==> k in l)
  {
    hide Cache.Agrees;
    ListMembers(c.policy.value, l);
  }

  lemma PositionBelow(order: seq<Key>, cap: nat, k: Key)
    requires Distinct(order)
    ensures k in Take(order, cap) <==> k in order && At(order, k) < cap
  {
    if cap <= |order| {
      PrefixAt(order, k, cap);
      assert Take(order, cap) == order[..cap];
    }
    hide Distinct;
  }

  /** The first `cap` keys by recency are those touched with fewer than `cap` others touched since. */
  lemma RecentIff(touches: seq<Key>, cap: nat, k: Key)
    ensures k in Take(ByRecency(touches), cap) <==> k in touches && |TouchedAfter(touches, k)| < cap
  {
    hide ByRecency, TouchedAfter, Distinct;
    var order := ByRecency(touches);
    ByRecencyFacts(touches);
    PositionBelow(order, cap, k);
    if k in touches {
      PositionCounts(touches, At(order, k));
    }
  }

  lemma EmptyPolicy(name: PolicyName, cap: nat)
    requires cap > 0
    ensures EmptyCache(Some(name), Some(cap)).Agrees() && EmptyCache(Some(name), Some(cap)).policy.Some?
  {
    EmptyAgrees(Some(name), Some(cap));
  }

  /** What is cached: a key is tracked exactly when it was touched and fewer than `cap` distinct other
      keys were touched after its last touch - touches being puts and hits under LRU, puts under FIFO. */
  lemma TrackedIffRecentlyTouched(name: PolicyName, cap: nat, ops: seq<TraceOp>, k: Key)
    requires name != LFU && cap > 0
    ensures EmptyCache(Some(name), Some(cap)).Agrees()
    ensures var touches := Touches(ops, cap, name == LRU);
            k in Run(EmptyCache(Some(name), Some(cap)), ToOps(ops)).policy.value.entries
            <==> k in touches && |TouchedAfter(touches, k)| < cap
  {
    hide Run, Cache.Agrees, ListRun, Touches, ByRecency, TouchedAfter, Represents, ToOps, Take, EmptyCache;
    EmptyPolicy(name, cap);
    CountersRefineList(name, cap, ops);
    TrackedInList(Run(EmptyCache(Some(name), Some(cap)), ToOps(ops)), ListRun(ops, cap, name == LRU), cap, k);
    ListRunIsRecent(ops, cap, name == LRU);
    RecentIff(Touches(ops, cap, name == LRU), cap, k);
  }

  // ---- inclusion across capacities ----

  /** a is b with some entries left out. */
  ghost predicate Sub(a: seq<Key>, b: seq<Key>) {
    && (forall x :: x in a ==> x in b)
    && (forall i, j :: 0 <= i < j < |a| ==> At(b, a[i]) < At(b, a[j]))
  }

  lemma AtUnique(s: seq<Key>, i: nat)
    requires Distinct(s) && i < |s|
    ensures At(s, s[i]) == i
  {
  }

  /** The position of a key once k is removed. */
  lemma WithoutAt(s: seq<Key>, k: Key, x: Key)
    requires Distinct(s) && x in s && x != k
    ensures x in Without(s, k)
    ensures At(Without(s, k), x) == At(s, x) - if k in s && At(s, k) < At(s, x) then 1 else 0
  {
    WithoutFacts(s, k);
    var w, i := Without(s, k), At(s, x) - if k in s && At(s, k) < At(s, x) then 1 else 0;
    assert w[i] == x;
    AtUnique(w, i);
  }

  lemma SubWithoutAt(a: seq<Key>, b: seq<Key>, k: Key, i: nat, j: nat)
    requires Sub(a, b) && Distinct(a) && Distinct(b) && i < j < |Without(a, k)|
    requires Without(a, k)[i] in Without(b, k) && Without(a, k)[j] in Without(b, k)
    ensures At(Without(b, k), Without(a, k)[i]) < At(Without(b, k), Without(a, k)[j])
  {
    WithoutFacts(a, k);
    hide Without, Distinct;
    var x, y := Shifted(a, k, i), Shifted(a, k, j);
    assert Without(a, k)[i] == a[x] && Without(a, k)[j] == a[y] && x < y;
    assert At(b, a[x]) < At(b, a[y]) && a[x] in b && a[y] in b;
    hide Shifted, Sub;
    WithoutAt(b, k, a[x]);
    WithoutAt(b, k, a[y]);
  }

  lemma SubWithout(a: seq<Key>, b: seq<Key>, k: Key)
    requires Sub(a, b) && Distinct(a) && Distinct(b)
    ensures Sub(Without(a, k), Without(b, k))
  {
    hide Without, Shifted, Distinct;
    WithoutFacts(a, k);
    WithoutFacts(b, k);
    forall i: nat, j: nat | i < j < |Without(a, k)|
      ensures At(Without(b, k), Without(a, k)[i]) < At(Without(b, k), Without(a, k)[j])
    {
      SubWithoutAt(a, b, k, i, j);
    }
  }

  lemma SubCons(u: seq<Key>, v: seq<Key>, k: Key)
    requires Sub(u, v) && Distinct(v) && k !in v
    ensures Sub([k] + u, [k] + v)
  {
    var x, y := [k] + u, [k] + v;
    forall i | 0 <= i < |x| ensures x[i] in y && At(y, x[i]) == if i == 0 then 0 else At(v, u[i - 1]) + 1 {
      var j := if i == 0 then 0 else At(v, u[i - 1]) + 1;
      assert y[j] == x[i];
      AtUnique(y, j);
    }
    forall i, j | 0 <= i < j < |x| ensures At(y, x[i]) < At(y, x[j]) {
      assert i > 0 ==> At(v, u[i - 1]) < At(v, u[j - 1]);
    }
  }

  lemma SubToFront(a: seq<Key>, b: seq<Key>, k: Key)
    requires Sub(a, b) && Distinct(a) && Distinct(b)
    ensures Sub(Without(a, k), Without(b, k)) && Sub(ToFront(a, k), ToFront(b, k))
  {
    SubWithout(a, b, k);
    WithoutFacts(b, k);
    hide Sub, Distinct, Without;
    SubCons(Without(a, k), Without(b, k), k);
  }

  lemma SubDropLast(a: seq<Key>, b: seq<Key>)
    requires Sub(a, b) && Distinct(b) && a != []
    ensures b != [] && Sub(a[..|a| - 1], b[..|b| - 1]) && Sub(a[..|a| - 1], b)
  {
    var n, m := |a| - 1, |b| - 1;
    assert a[n] in b;
    forall i | 0 <= i < n ensures a[i] in b[..m] && At(b[..m], a[i]) == At(b, a[i]) {
      var j := At(b, a[i]);
      assert j < At(b, a[n]) <= m;
      assert b[..m][j] == a[i];
      AtUnique(b[..m], j);
    }
  }

  /** One list is part of the other in order, and it is full unless they are the same. */
  ghost predicate Nested(a: seq<Key>, b: seq<Key>, c1: nat, c2: nat) {
    Distinct(a) && Distinct(b) && |a| <= c1 && |b| <= c2 && Sub(a, b) && (|a| == c1 || a == b)
  }

  lemma PutStaysNested(a: seq<Key>, b: seq<Key>, k: Key, c1: nat, c2: nat)
    requires 0 < c1 <= c2 && Nested(a, b, c1, c2)
    ensures Nested(Take(ToFront(a, k), c1), Take(ToFront(b, k), c2), c1, c2)
  {
    ToFrontFacts(a, k);
    ToFrontFacts(b, k);
    SubToFront(a, b, k);
    assert k in a ==> k in b;
    var x, y := ToFront(a, k), ToFront(b, k);
    SubDropLast(x, y);
    hide Sub, ToFront;
    assert |x| > c1 ==> Take(x, c1) == x[..|x| - 1];
    assert |y| > c2 ==> Take(y, c2) == y[..|y| - 1];
  }

  /** A key that only the larger list holds may come to its front. */
  lemma SubOfFront(a: seq<Key>, b: seq<Key>, k: Key)
    requires Sub(a, b) && Distinct(a) && Distinct(b) && k !in a
    ensures Sub(a, ToFront(b, k))
  {
    SubWithout(a, b, k);
    WithoutFacts(b, k);
    var v, front := Without(b, k), ToFront(b, k);
    assert Sub(a, v);
    ToFrontFacts(b, k);
    hide Without;
    forall i | 0 <= i < |a| ensures a[i] in front && At(front, a[i]) == At(v, a[i]) + 1 {
      assert front[At(v, a[i]) + 1] == a[i];
      AtUnique(front, At(v, a[i]) + 1);
    }
  }

  lemma SubMembers(a: seq<Key>, b: seq<Key>, k: Key)
    requires Sub(a, b)
    ensures k in a ==> k in b
  {
  }

  lemma HitStaysNested(a: seq<Key>, b: seq<Key>, k: Key, c1: nat, c2: nat)
    requires 0 < c1 <= c2 && Nested(a, b, c1, c2)
    ensures Nested(if k in a then ToFront(a, k) else a, if k in b then ToFront(b, k) else b, c1, c2)
  {
    SubMembers(a, b, k);
    hide Sub, ToFront, Distinct;
    ToFrontFacts(a, k);
    ToFrontFacts(b, k);
    SubToFront(a, b, k);
    if k !in a {
      SubOfFront(a, b, k);
    }
  }

  lemma {:induction false} ListsNest(ops: seq<TraceOp>, c1: nat, c2: nat, lru: bool)
    requires 0 < c1 <= c2
    ensures Nested(ListRun(ops, c1, lru), ListRun(ops, c2, lru), c1, c2)
  {
    if ops != [] {
      var front, op := ops[..|ops| - 1], ops[|ops| - 1];
      ListsNest(front, c1, c2, lru);
      hide Nested, ToFront, Take;
      PutStaysNested(ListRun(front, c1, lru), ListRun(front, c2, lru), op.key, c1, c2);
      HitStaysNested(ListRun(front, c1, lru), ListRun(front, c2, lru), op.key, c1, c2);
    }
  }

  /** Inclusion: on the same trace a larger LRU or FIFO cache tracks everything a smaller one does,
      although hits that find their key in the larger cache may miss in the smaller one. */
  lemma LargerCachesContainSmaller(name: PolicyName, c1: nat, c2: nat, ops: seq<TraceOp>, k: Key)
    requires name != LFU && 0 < c1 <= c2
    ensures EmptyCache(Some(name), Some(c1)).Agrees() && EmptyCache(Some(name), Some(c2)).Agrees()
    ensures k in Run(EmptyCache(Some(name), Some(c1)), ToOps(ops)).indexed
            ==> k in Run(EmptyCache(Some(name), Some(c2)), ToOps(ops)).indexed
  {
    CountersRefineList(name, c1, ops);
    CountersRefineList(name, c2, ops);
    ListsNest(ops, c1, c2, name == LRU);
  }
}
