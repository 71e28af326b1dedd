/** The split store of judge-labelled pairs (src/mlcache/feedback/store.py:137-283). */
module TrainingStore {
  import opened Scores

  datatype JudgeLabel = Reusable | NotReusable | Uncertain

  datatype Split = Train | Calibration

  /** A judged pair; `payload` stands for the metadata that is not part of its key. */
  datatype Example = Example(query: string, candidateKey: Option<string>, features: seq<real>, judged: JudgeLabel,
                             payload: nat)

  datatype ExampleKey = ExampleKey(query: string, candidateKey: Option<string>, features: seq<real>, judged: JudgeLabel)

  function KeyOf(e: Example): ExampleKey {
    ExampleKey(e.query, e.candidateKey, e.features, e.judged)
  }

  ghost function KeysOf(es: seq<Example>): (keys: seq<ExampleKey>)
    ensures |keys| == |es|
  {
    if es == [] then [] else KeysOf(es[..|es| - 1]) + [KeyOf(es[|es| - 1])]
  }

  function RemoveAt<T>(s: seq<T>, i: nat): seq<T>
    requires i < |s|
  {
    s[..i] + s[i + 1..]
  }

  lemma RemoveAtInit<T>(s: seq<T>, i: nat)
    requires i < |s|
    ensures RemoveAt(s, i) == if i == |s| - 1 then s[..|s| - 1] else RemoveAt(s[..|s| - 1], i) + [s[|s| - 1]]
  {
  }

  lemma KeysAppend(es: seq<Example>, e: Example)
    ensures KeysOf(es + [e]) == KeysOf(es) + [KeyOf(e)]
  {
    assert (es + [e])[..|es|] == es;
  }

  lemma {:induction false} KeysRemoved(es: seq<Example>, i: nat)
    requires i < |es|
    ensures KeysOf(es)[i] == KeyOf(es[i])
    ensures KeysOf(RemoveAt(es, i)) == RemoveAt(KeysOf(es), i)
  {
    hide RemoveAt;
    var n := |es| - 1;
    RemoveAtInit(es, i);
    RemoveAtInit(KeysOf(es), i);
    assert KeysOf(es)[..n] == KeysOf(es[..n]);
    if i < n {
      KeysRemoved(es[..n], i);
      KeysAppend(RemoveAt(es[..n], i), es[n]);
    }
  }

  /** How many examples of a bucket have this key. */
  ghost function Copies(es: seq<Example>, k: ExampleKey): nat {
    if es == [] then 0 else Copies(es[..|es| - 1], k) + if KeyOf(es[|es| - 1]) == k then 1 else 0
  }

  lemma CopiesAppend(es: seq<Example>, e: Example, k: ExampleKey)
    ensures Copies(es + [e], k) == Copies(es, k) + if KeyOf(e) == k then 1 else 0
  {
    assert (es + [e])[..|es|] == es;
  }

  lemma {:induction false} CopiesRemoved(es: seq<Example>, i: nat, k: ExampleKey)
    requires i < |es|
    ensures Copies(es, k) == Copies(RemoveAt(es, i), k) + if KeyOf(es[i]) == k then 1 else 0
  {
    hide RemoveAt;
    var n := |es| - 1;
    RemoveAtInit(es, i);
    if i < n {
      CopiesRemoved(es[..n], i, k);
      CopiesAppend(RemoveAt(es[..n], i), es[n], k);
    }
  }

  /** What becomes of an offered example. */
  datatype Outcome = Ignored | HeldByOtherSplit | Raised | Kept(evicted: Option<Example>)

  /** The H0 and H1 buckets of one split as a value. */
  datatype SplitState = SplitState(h0: seq<Example>, h1: seq<Example>) {

    function Of(judged: JudgeLabel): seq<Example> {
      if judged == Reusable then h1 else h0
    }

    function With(judged: JudgeLabel, b: seq<Example>): SplitState {
      if judged == Reusable then this.(h1 := b) else this.(h0 := b)
    }

    /** How often a key is held in the split. */
    ghost function Held(k: ExampleKey): nat {
      Copies(h0, k) + Copies(h1, k)
    }

    /** A decided example enters its bucket; a full bucket first loses the entry at `choice`. */
    function Added(e: Example, choice: int, capacity: nat): (SplitState, Outcome) {
      var b := Of(e.judged);
      if |b| < capacity then (With(e.judged, b + [e]), Kept(None))
      else if 0 <= choice < |b| then (With(e.judged, RemoveAt(b, choice) + [e]), Kept(Some(b[choice])))
      else (this, Raised)
    }
  }

  datatype Capacities = Capacities(h0: nat, h1: nat) {
    predicate Valid() { h0 > 0 && h1 > 0 }

    function Of(judged: JudgeLabel): nat { if judged == Reusable then h1 else h0 }
  }

  /** Offering an example to a split, next to the other one. */
  ghost function Offered(here: SplitState, there: SplitState, e: Example, choice: int, caps: Capacities)
    : (SplitState, Outcome)
  {
    if e.judged == Uncertain then (here, Ignored)
    else if there.Held(KeyOf(e)) > 0 then (here, HeldByOtherSplit)
    else here.Added(e, choice, caps.Of(e.judged))
  }

  // ---- the counters ----

  /** A counter without zero entries that counts exactly the keys held. */
  ghost predicate Counts(counts: map<ExampleKey, int>, st: SplitState) {
    forall k :: (k in counts <==> st.Held(k) > 0) && (k in counts ==> counts[k] == st.Held(k))
  }

  function Decremented(counts: map<ExampleKey, int>, k: ExampleKey): map<ExampleKey, int>
    requires k in counts
  {
    if counts[k] - 1 <= 0 then counts - {k} else counts[k := counts[k] - 1]
  }

  function Incremented(counts: map<ExampleKey, int>, k: ExampleKey): map<ExampleKey, int> {
    counts[k := (if k in counts then counts[k] else 0) + 1]
  }

  /** What adding an example does to the copies held of any key. */
  lemma AddedHolds(st: SplitState, e: Example, choice: int, capacity: nat, k: ExampleKey)
    ensures var (after, outcome) := st.Added(e, choice, capacity);
            outcome.Kept? ==>
              after.Held(k) == st.Held(k) + (if KeyOf(e) == k then 1 else 0)
                               - (if outcome.evicted.Some? && KeyOf(outcome.evicted.value) == k then 1 else 0)
              && (outcome.evicted.Some? ==> st.Held(KeyOf(outcome.evicted.value)) > 0)
  {
    var b := st.Of(e.judged);
    if |b| < capacity {
      CopiesAppend(b, e, k);
    } else if 0 <= choice < |b| {
      CopiesRemoved(b, choice, k);
      CopiesRemoved(b, choice, KeyOf(b[choice]));
      CopiesAppend(RemoveAt(b, choice), e, k);
    }
  }

  /** Decrementing for the evicted key and incrementing for the new one keeps the counter exact. */
  lemma AddedCounts(st: SplitState, counts: map<ExampleKey, int>, e: Example, choice: int, capacity: nat)
    requires Counts(counts, st) && st.Added(e, choice, capacity).1.Kept?
    ensures var (after, outcome) := st.Added(e, choice, capacity);
            var evicted := outcome.evicted;
            && (evicted.Some? ==> KeyOf(evicted.value) in counts)
            && Counts(Incremented(if evicted.Some? then Decremented(counts, KeyOf(evicted.value)) else counts,
                                  KeyOf(e)),
                      after)
  {
    var (after, outcome) := st.Added(e, choice, capacity);
    AddedHolds(st, e, choice, capacity, KeyOf(e));
    var kept := if outcome.evicted.Some? then Decremented(counts, KeyOf(outcome.evicted.value)) else counts;
    var moved := Incremented(kept, KeyOf(e));
    forall k ensures (k in moved <==> after.Held(k) > 0) && (k in moved ==> moved[k] == after.Held(k)) {
      AddedHolds(st, e, choice, capacity, k);
      hide SplitState.Added, SplitState.Held;
    }
  }

  type EvictionChoice = (JudgeLabel, seq<Example>, Example) -> int

  /** One split: two buckets, their parallel key lists, and the key counter they share. */
  class SplitBuckets {
    const capacities: Capacities
    const choose: EvictionChoice
    var h0: seq<Example>
    var h1: seq<Example>
    var h0Keys: seq<ExampleKey>
    var h1Keys: seq<ExampleKey>
    var counts: map<ExampleKey, int>

    function Abstract(): SplitState
      reads this
    {
      SplitState(h0, h1)
    }

    /** Key lists are aligned with their buckets and the counter counts the keys of both. */
    ghost predicate Valid()
      reads this
    {
      && h0Keys == KeysOf(h0) && h1Keys == KeysOf(h1)
      && Counts(counts, Abstract())
    }

    constructor (capacities: Capacities, choose: EvictionChoice)
      requires capacities.Valid()
      ensures Valid() && Abstract() == SplitState([], [])
      ensures this.capacities == capacities && this.choose == choose
    {
      this.capacities, this.choose := capacities, choose;
      h0, h1, h0Keys, h1Keys, counts := [], [], [], [], map[];
    }

    /** Returns the message of the IndexError for an eviction index out of range. */
    method AddToBucket(e: Example, key: ExampleKey) returns (error: Option<string>)
      requires Valid() && key == KeyOf(e) && e.judged != Uncertain
      modifies this
      ensures Valid()
      ensures var b := old(Abstract());
              var (after, outcome) := b.Added(e, choose(e.judged, b.Of(e.judged), e), capacities.Of(e.judged));
              Abstract() == after && (error.Some? <==> outcome == Raised)
    {
      hide Counts, Copies, KeysOf;
      var bucket := if e.judged == Reusable then h1 else h0;
      var bucketKeys := if e.judged == Reusable then h1Keys else h0Keys;
      ghost var choice := choose(e.judged, bucket, e);
      if Abstract().Added(e, choice, capacities.Of(e.judged)).1.Kept? {
        AddedCounts(Abstract(), counts, e, choice, capacities.Of(e.judged));
      }
      if |bucket| >= capacities.Of(e.judged) {
        var idx := choose(e.judged, bucket, e);
        if idx < 0 || idx >= |bucket| {
          return Some("eviction index out of range");
        }
        KeysRemoved(bucket, idx);
        var evicted := bucketKeys[idx];
        bucket := RemoveAt(bucket, idx);
        bucketKeys := RemoveAt(bucketKeys, idx);
        counts := Decremented(counts, evicted);
      }
      KeysAppend(bucket, e);
      if e.judged == Reusable {
        h1, h1Keys := bucket + [e], bucketKeys + [key];
      } else {
        h0, h0Keys := bucket + [e], bucketKeys + [key];
      }
      counts := Incremented(counts, key);
      error := None;
    }
  }

  class InMemorySplitJudgeTrainingStore {
    const train: SplitBuckets
    const calibration: SplitBuckets

    ghost predicate Valid()
      reads train, calibration
    {
      train != calibration && train.Valid() && calibration.Valid()
    }

    constructor (train: Capacities, calibration: Capacities, choose: EvictionChoice)
      requires train.Valid() && calibration.Valid()
      ensures Valid() && fresh(this.train) && fresh(this.calibration)
      ensures this.train.Abstract() == this.calibration.Abstract() == SplitState([], [])
      ensures this.train.capacities == train && this.calibration.capacities == calibration
      ensures this.train.choose == this.calibration.choose == choose
    {
      this.train := new SplitBuckets(train, choose);
      this.calibration := new SplitBuckets(calibration, choose);
    }

    method AddTrain(e: Example) returns (error: Option<string>)
      requires Valid()
      modifies train
      ensures Valid()
      ensures var b := old(train.Abstract());
              var (after, outcome) := Offered(b, old(calibration.Abstract()), e,
                                              train.choose(e.judged, b.Of(e.judged), e), train.capacities);
              train.Abstract() == after && (error.Some? <==> outcome == Raised)
    {
      error := None;
      if e.judged != Uncertain {
        var key := KeyOf(e);
        if key !in calibration.counts {
          error := train.AddToBucket(e, key);
        }
      }
    }

    method AddCalibration(e: Example) returns (error: Option<string>)
      requires Valid()
      modifies calibration
      ensures Valid()
      ensures var b := old(calibration.Abstract());
              var (after, outcome) := Offered(b, old(train.Abstract()), e,
                                              calibration.choose(e.judged, b.Of(e.judged), e), calibration.capacities);
              calibration.Abstract() == after && (error.Some? <==> outcome == Raised)
    {
      error := None;
      if e.judged != Uncertain {
        var key := KeyOf(e);
        if key !in train.counts {
          error := calibration.AddToBucket(e, key);
        }
      }
    }
  }

  // ---- every reachable state ----

  /** The whole store as a value, with its capacities. */
  datatype Store = Store(train: SplitState, calibration: SplitState) {
    function Of(split: Split): SplitState { if split == Train then train else calibration }
  }

  datatype Bounds = Bounds(train: Capacities, calibration: Capacities) {
    predicate Valid() { train.Valid() && calibration.Valid() }

    function Of(split: Split): Capacities { if split == Train then train else calibration }
  }

  const EMPTY_STORE := Store(SplitState([], []), SplitState([], []))

  /** One offer of a run; `choice` is the answer of the eviction policy, should it be asked. */
  datatype Offer = Offer(split: Split, example: Example, choice: int)

  function Other(split: Split): Split {
    if split == Train then Calibration else Train
  }

  ghost function Outcomes(st: Store, o: Offer, bounds: Bounds): (SplitState, Outcome) {
    Offered(st.Of(o.split), st.Of(Other(o.split)), o.example, o.choice, bounds.Of(o.split))
  }

  ghost function AfterOffer(st: Store, o: Offer, bounds: Bounds): Store {
    var next := Outcomes(st, o, bounds).0;
    if o.split == Train then st.(train := next) else st.(calibration := next)
  }

  ghost function RunOffers(offers: seq<Offer>, bounds: Bounds): Store {
    if offers == [] then EMPTY_STORE
    else AfterOffer(RunOffers(offers[..|offers| - 1], bounds), offers[|offers| - 1], bounds)
  }

  /** No key is in both splits, and every bucket keeps its capacity. */
  ghost predicate Separated(st: Store, bounds: Bounds) {
    && (forall k :: st.train.Held(k) == 0 || st.calibration.Held(k) == 0)
    && |st.train.h0| <= bounds.train.h0 && |st.train.h1| <= bounds.train.h1
    && |st.calibration.h0| <= bounds.calibration.h0 && |st.calibration.h1| <= bounds.calibration.h1
  }

  /** Train and calibration stay disjoint and bounded in every reachable state, whatever the eviction
      policy answers - an out-of-range answer raises and changes nothing. */
  lemma {:induction false} SplitsStaySeparated(offers: seq<Offer>, bounds: Bounds)
    requires bounds.Valid()
    ensures Separated(RunOffers(offers, bounds), bounds)
  {
    if offers != [] {
      var o := offers[|offers| - 1];
      var st := RunOffers(offers[..|offers| - 1], bounds);
      SplitsStaySeparated(offers[..|offers| - 1], bounds);
      hide Copies, SplitState.Held;
      var here := st.Of(o.split);
      forall k
        ensures RunOffers(offers, bounds).train.Held(k) == 0 || RunOffers(offers, bounds).calibration.Held(k) == 0
      {
        AddedHolds(here, o.example, o.choice, bounds.Of(o.split).Of(o.example.judged), k);
      }
    } else {
      assert forall k :: EMPTY_STORE.train.Held(k) == 0;
    }
  }

  /** Tallies of a run for one decided label: offers, and what became of them. */
  datatype Tallies = Tallies(offered: nat, evicted: nat, dropped: nat, raised: nat)

  ghost function TalliesOf(offers: seq<Offer>, bounds: Bounds, judged: JudgeLabel): Tallies {
    if offers == [] then Tallies(0, 0, 0, 0)
    else
      var o := offers[|offers| - 1];
      var t := TalliesOf(offers[..|offers| - 1], bounds, judged);
      if o.example.judged != judged then t
      else
        var outcome := Outcomes(RunOffers(offers[..|offers| - 1], bounds), o, bounds).1;
        Tallies(t.offered + 1,
                t.evicted + (if outcome.Kept? && outcome.evicted.Some? then 1 else 0),
                t.dropped + (if outcome == HeldByOtherSplit then 1 else 0),
                t.raised + (if outcome == Raised then 1 else 0))
  }

  /** What one offer does to the bucket sizes of a label. */
  lemma OfferSizes(st: Store, o: Offer, bounds: Bounds, judged: JudgeLabel)
    requires judged != Uncertain
    ensures var next, outcome := AfterOffer(st, o, bounds), Outcomes(st, o, bounds).1;
            var grows := o.example.judged == judged && outcome.Kept? && outcome.evicted.None?;
            && |next.train.Of(judged)| == |st.train.Of(judged)| + (if grows && o.split == Train then 1 else 0)
            && |next.calibration.Of(judged)|
               == |st.calibration.Of(judged)| + (if grows && o.split == Calibration then 1 else 0)
            && (o.example.judged == judged ==> outcome != Ignored)
  {
    hide SplitState.Held;
  }

  /** Conservation: per label, every offer is still stored, was evicted, was dropped because the other
      split held its key, or raised. */
  lemma {:induction false} OffersAreConserved(offers: seq<Offer>, bounds: Bounds, judged: JudgeLabel)
    requires judged != Uncertain
    ensures var t, st := TalliesOf(offers, bounds, judged), RunOffers(offers, bounds);
            t.offered == |st.train.Of(judged)| + |st.calibration.Of(judged)| + t.evicted + t.dropped + t.raised
  {
    hide Outcomes, AfterOffer;
    if offers != [] {
      var n := |offers| - 1;
      OffersAreConserved(offers[..n], bounds, judged);
      OfferSizes(RunOffers(offers[..n], bounds), offers[n], bounds, judged);
    }
  }

  // ---- keys and contents ----

  /** Two examples are the same for the store when they agree on query, candidate key, features and label;
      nothing else about them counts. */
  lemma SameKeyIff(e: Example, f: Example)
    ensures KeyOf(e) == KeyOf(f)
            <==> e.query == f.query && e.candidateKey == f.candidateKey && e.features == f.features
                 && e.judged == f.judged
  {
  }

  /** A key is held exactly when some example of either bucket has it. */
  lemma {:induction false} CopiesMean(es: seq<Example>, k: ExampleKey)
    ensures Copies(es, k) > 0 <==> exists i :: 0 <= i < |es| && KeyOf(es[i]) == k
  {
    if es != [] {
      var n := |es| - 1;
      CopiesMean(es[..n], k);
      assert forall i :: 0 <= i < n ==> es[..n][i] == es[i];
    }
  }

  /** What an offer does, on the contents: reusable pairs go to the H1 bucket and others to H0, the other bucket
      is untouched; below capacity the example is appended; at capacity the chosen entry leaves and the rest keeps
      its order; uncertain examples and keys the other split holds change nothing. */
  lemma OfferContents(here: SplitState, there: SplitState, e: Example, choice: int, caps: Capacities)
    ensures var (after, outcome) := Offered(here, there, e, choice, caps);
            var (b, cap) := if e.judged == Reusable then (here.h1, caps.h1) else (here.h0, caps.h0);
            var b' := if e.judged == Reusable then after.h1 else after.h0;
            var other := exists f :: (f in there.h0 || f in there.h1) && KeyOf(f) == KeyOf(e);
            && (if e.judged == Reusable then after.h0 == here.h0 else after.h1 == here.h1)
            && (outcome == Ignored <==> e.judged == Uncertain)
            && (outcome == HeldByOtherSplit <==> e.judged != Uncertain && other)
            && (outcome == Raised <==> e.judged != Uncertain && !other && |b| >= cap && !(0 <= choice < |b|))
            && (!outcome.Kept? ==> b' == b)
            && (outcome.Kept? && |b| < cap ==> outcome.evicted.None? && b' == b + [e])
            && (outcome.Kept? && |b| >= cap ==> outcome.evicted == Some(b[choice])
                                                && b' == b[..choice] + b[choice + 1..] + [e])
  {
    CopiesMean(there.h0, KeyOf(e));
    CopiesMean(there.h1, KeyOf(e));
    hide Copies, KeyOf;
    if f :| (f in there.h0 || f in there.h1) && KeyOf(f) == KeyOf(e) {
      assert f in there.h0 ==> exists i :: 0 <= i < |there.h0| && there.h0[i] == f;
      assert f in there.h1 ==> exists i :: 0 <= i < |there.h1| && there.h1[i] == f;
    }
  }

  /** The examples a run kept for one bucket, in order. */
  ghost function KeptIn(offers: seq<Offer>, bounds: Bounds, split: Split, judged: JudgeLabel): seq<Example> {
    if offers == [] then []
    else
      var front, o := offers[..|offers| - 1], offers[|offers| - 1];
      KeptIn(front, bounds, split, judged)
      + if o.split == split && o.example.judged == judged && Outcomes(RunOffers(front, bounds), o, bounds).1.Kept?
        then [o.example] else []
  }

  lemma FirstOut(b: seq<Example>, e: Example, cap: nat)
    requires 0 < cap && |b| <= cap
    ensures LastN(b + [e], cap) == if |b| < cap then b + [e] else b[..0] + b[1..] + [e]
  {
  }

  /** What one offer does to one bucket under the first-in, first-out policy. */
  lemma FifoStep(st: Store, o: Offer, bounds: Bounds, split: Split, judged: JudgeLabel)
    requires bounds.Valid() && Separated(st, bounds) && judged != Uncertain && o.choice == 0
    ensures var kept := o.split == split && o.example.judged == judged && Outcomes(st, o, bounds).1.Kept?;
            var b := st.Of(split).Of(judged);
            AfterOffer(st, o, bounds).Of(split).Of(judged)
            == if kept then LastN(b + [o.example], bounds.Of(split).Of(judged)) else b
  {
    OfferContents(st.Of(o.split), st.Of(Other(o.split)), o.example, o.choice, bounds.Of(o.split));
    FirstOut(st.Of(split).Of(judged), o.example, bounds.Of(split).Of(judged));
    hide Offered, LastN, SplitState.Held;
  }

  lemma NothingAdded(s: seq<Example>)
    ensures s + [] == s
  {
  }

  /** With the default policy, which evicts the oldest, each bucket holds exactly the last examples it took in, up
      to its capacity and in their order. */
  lemma {:induction false} FifoKeepsTheLatest(offers: seq<Offer>, bounds: Bounds, split: Split, judged: JudgeLabel)
    requires bounds.Valid() && judged != Uncertain && forall i :: 0 <= i < |offers| ==> offers[i].choice == 0
    ensures RunOffers(offers, bounds).Of(split).Of(judged)
            == LastN(KeptIn(offers, bounds, split, judged), bounds.Of(split).Of(judged))
  {
    if offers != [] {
      hide Outcomes, AfterOffer, LastN, SplitState.Held, Separated;
      var front, o := offers[..|offers| - 1], offers[|offers| - 1];
      FifoKeepsTheLatest(front, bounds, split, judged);
      SplitsStaySeparated(front, bounds);
      FifoStep(RunOffers(front, bounds), o, bounds, split, judged);
      LastNAppend(KeptIn(front, bounds, split, judged), o.example, bounds.Of(split).Of(judged));
      NothingAdded(KeptIn(front, bounds, split, judged));
    }
  }
}
