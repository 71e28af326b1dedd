/** Whole runs of the ACI controller: exact budget accounting and the Wilson gate. */
module AciBudget {
  import opened Scores
  import opened OrderStatistics
  import opened Thresholds
  import opened Wilson
  import opened RealArithmetic
  import opened AciController

  datatype Event = Event(score: Score, truth: Label, accepted: bool)

  ghost function Run(st: State, events: seq<Event>): (r: State)
    requires st.Valid()
    ensures r.Valid() && r.settings == st.settings
  {
    if events == [] then st
    else
      var n := |events| - 1;
      var e := events[n];
      var before := Run(st, events[..n]);
      UpdatedIsValid(before, e.score, e.truth, e.accepted);
      before.Updated(e.score, e.truth, e.accepted)
  }

  /** What a run did: H0 events, those accepted (false hits), and how far in total the lower clamp
      lifted alpha, the upper clamp cut it, and the Wilson gate withheld from it. */
  datatype Ledger = Ledger(h0: nat, hits: nat, lift: real, cut: real, withheld: real)

  /** The entry of one H0 event. */
  function Entry(before: State, e: Event): Ledger
    requires before.settings.Valid()
  {
    var st := before.Observed(e.score, e.accepted);
    var gated := st.Gated(e.accepted);
    var floored := MaxReal(st.settings.alphaMin, gated);
    Ledger(1, if e.accepted then 1 else 0, floored - gated, floored - MinReal(st.settings.alphaMax, floored),
           st.Proposed(e.accepted) - gated)
  }

  ghost function Totals(st: State, events: seq<Event>): Ledger
    requires st.Valid()
  {
    if events == [] then Ledger(0, 0, 0.0, 0.0, 0.0)
    else
      var n := |events| - 1;
      var t := Totals(st, events[..n]);
      if events[n].truth != H0 then t
      else
        var e := Entry(Run(st, events[..n]), events[n]);
        Ledger(t.h0 + e.h0, t.hits + e.hits, t.lift + e.lift, t.cut + e.cut, t.withheld + e.withheld)
  }

  // ---- budget accounting ----

  /** gamma times the unspent budget after `hits` false hits in `h0` events. */
  function Unspent(s: Settings, h0: nat, hits: nat): real {
    s.gamma * (s.alphaTarget * (h0 as real) - (hits as real))
  }

  lemma UnspentGrows(s: Settings, h0: nat, hits: nat, hit: nat)
    ensures Unspent(s, h0 + 1, hits + hit) == Unspent(s, h0, hits) + Unspent(s, 1, hit)
  {
    var x, y := s.alphaTarget * (h0 as real) - (hits as real), s.alphaTarget - (hit as real);
    assert s.alphaTarget * ((h0 + 1) as real) == s.alphaTarget * (h0 as real) + s.alphaTarget;
    assert s.gamma * (x + y) == s.gamma * x + s.gamma * y;
  }

  lemma EntryBalances(st: State, e: Event)
    requires st.Valid() && e.truth == H0
    ensures var t := Entry(st, e);
            && st.Updated(e.score, e.truth, e.accepted).alpha
               == st.alpha + Unspent(st.settings, t.h0, t.hits) + t.lift - t.cut - t.withheld
            && t.lift >= 0.0 && t.cut >= 0.0 && t.withheld >= 0.0 && t.h0 == 1
  {
    var s := st.settings;
    assert s.alphaTarget * (1 as real) == s.alphaTarget;
  }

  /** Conservation: over any run, the change of alpha is gamma times the unspent budget, plus what the
      lower clamp lifted, minus what the upper clamp cut and the gate withheld. */
  lemma {:induction false} AlphaAccounting(st: State, events: seq<Event>)
    requires st.Valid()
    ensures var t := Totals(st, events);
            && Run(st, events).alpha
               == st.alpha + Unspent(st.settings, t.h0, t.hits) + t.lift - t.cut - t.withheld
            && t.lift >= 0.0 && t.cut >= 0.0 && t.withheld >= 0.0
  {
    if events == [] {
      assert Unspent(st.settings, 0, 0) == 0.0;
    } else {
      var n := |events| - 1;
      AlphaAccounting(st, events[..n]);
      if events[n].truth == H0 {
        var before := Run(st, events[..n]);
        EntryBalances(before, events[n]);
        UnspentGrows(st.settings, Totals(st, events[..n]).h0, Totals(st, events[..n]).hits,
                     Entry(before, events[n]).hits);
      }
    }
  }

  /** `target * T + (start - end) / gamma` */
  function Budget(s: Settings, h0: nat, start: real, end: real): real
    requires s.gamma > 0.0
  {
    s.alphaTarget * (h0 as real) + (start - end) / s.gamma
  }

  lemma BudgetAlgebra(s: Settings, h0: nat, hits: nat, start: real, end: real, slack: real)
    requires s.gamma > 0.0 && end == start + Unspent(s, h0, hits) + slack
    ensures hits as real <= Budget(s, h0, start, end) <==> slack <= 0.0
    ensures hits as real >= Budget(s, h0, start, end) <==> slack >= 0.0
  {
    var due, q := s.alphaTarget * (h0 as real), (start - end) / s.gamma;
    var over := (hits as real) - due;
    assert s.gamma * q == start - end;
    assert s.gamma * (due - (hits as real)) == -(s.gamma * over);
    MulStrict(s.gamma, over, q);
    MulStrict(s.gamma, q, over);
  }

  /** The whole-run false-hit budget, in both directions. Over T H0 updates with S false hits,
      S <= target * T + (alpha_start - alpha_end) / gamma exactly when the lower clamp lifted no more
      than the upper clamp and the gate took away, and dually. */
  lemma FalseHitBudget(st: State, events: seq<Event>)
    requires st.Valid()
    ensures var t := Totals(st, events);
            var budget := Budget(st.settings, t.h0, st.alpha, Run(st, events).alpha);
            && (t.hits as real <= budget <==> t.lift <= t.cut + t.withheld)
            && (t.hits as real >= budget <==> t.lift >= t.cut + t.withheld)
  {
    AlphaAccounting(st, events);
    var t := Totals(st, events);
    BudgetAlgebra(st.settings, t.h0, t.hits, st.alpha, Run(st, events).alpha, t.lift - t.cut - t.withheld);
  }

  /** The lower clamp binds at no H0 event of the run. */
  ghost predicate NeverFloored(st: State, events: seq<Event>)
    requires st.Valid()
  {
    forall i :: 0 <= i < |events| && events[i].truth == H0
                ==> Entry(Run(st, events[..i]), events[i]).lift == 0.0
  }

  /** Neither the upper clamp nor the Wilson gate takes anything away on the run. */
  ghost predicate NeverHeldDown(st: State, events: seq<Event>)
    requires st.Valid()
  {
    forall i :: 0 <= i < |events| && events[i].truth == H0
                ==> Entry(Run(st, events[..i]), events[i]).cut == 0.0
                    && Entry(Run(st, events[..i]), events[i]).withheld == 0.0
  }

  lemma {:induction false} QuietRuns(st: State, events: seq<Event>)
    requires st.Valid()
    ensures NeverFloored(st, events) ==> Totals(st, events).lift == 0.0
    ensures NeverHeldDown(st, events) ==> Totals(st, events).cut == 0.0 && Totals(st, events).withheld == 0.0
  {
    if events != [] {
      hide Entry, State.Updated, State.Valid, Settings.Valid;
      var n := |events| - 1;
      var front := events[..n];
      QuietRuns(st, front);
      forall i | 0 <= i < n ensures front[..i] == events[..i] {}
      assert forall i :: 0 <= i < n ==> front[i] == events[i];
    }
  }

  lemma BudgetMonotone(s: Settings, h0: nat, d: real, start: real, end: real, start': real, end': real)
    requires s.gamma > 0.0 && d == start - end <= start' - end'
    ensures Budget(s, h0, start, end) <= Budget(s, h0, start', end')
  {
    var x, y := (start - end) / s.gamma, (start' - end') / s.gamma;
    assert s.gamma * x == start - end && s.gamma * y == start' - end';
    MulStrict(s.gamma, x, y);
  }

  /** While the lower clamp never binds, false hits stay within target * T plus a constant that does
      not grow with the run - gate and upper clamp included. The lower bound needs both of them idle. */
  lemma BudgetBounds(st: State, events: seq<Event>)
    requires st.Valid()
    ensures var t := Totals(st, events);
            var s := st.settings;
            && (NeverFloored(st, events)
                ==> t.hits as real <= Budget(s, t.h0, st.alpha, Run(st, events).alpha)
                    <= Budget(s, t.h0, s.alphaMax, s.alphaMin))
            && (NeverHeldDown(st, events)
                ==> t.hits as real >= Budget(s, t.h0, st.alpha, Run(st, events).alpha)
                    >= Budget(s, t.h0, s.alphaMin, s.alphaMax))
  {
    QuietRuns(st, events);
    FalseHitBudget(st, events);
    AlphaAccounting(st, events);
    var t, s, end := Totals(st, events), st.settings, Run(st, events).alpha;
    BudgetMonotone(s, t.h0, st.alpha - end, st.alpha, end, s.alphaMax, s.alphaMin);
    BudgetMonotone(s, t.h0, s.alphaMin - s.alphaMax, s.alphaMin, s.alphaMax, st.alpha, end);
  }

  // ---- the budget, known before the run ----

  /** How far alpha can fall in one update. */
  function Fall(s: Settings): real {
    s.gamma * (1.0 - s.alphaTarget)
  }

  /** How far alpha can fall in T updates. */
  function Descent(s: Settings, T: nat): real {
    Fall(s) * (T as real)
  }

  lemma FallIsPositive(s: Settings)
    requires s.Valid()
    ensures Fall(s) > 0.0
  {
    ProductPositive(s.gamma, 1.0 - s.alphaTarget, Fall(s));
  }

  lemma DescentGrows(s: Settings, T: nat)
    requires s.Valid()
    ensures Descent(s, 0) == 0.0
    ensures Descent(s, T + 1) == Descent(s, T) + Fall(s) >= Descent(s, T)
  {
    FallIsPositive(s);
    hide Fall;
    var d := Fall(s);
    assert d * ((T + 1) as real) == d * (T as real) + d;
    assert d * (0 as real) == 0.0;
  }

  lemma DescentMonotone(s: Settings, m: nat, n: nat)
    requires s.Valid() && m <= n
    ensures Descent(s, m) <= Descent(s, n)
  {
    FallIsPositive(s);
    hide Fall;
    MulMonotone(Fall(s), m as real, n as real);
  }

  lemma NudgeSign(alpha: real, gamma: real, target: real)
    requires gamma > 0.0 && 0.0 < target < 1.0
    ensures Nudge(alpha, gamma, target, 0.0) > alpha > Nudge(alpha, gamma, target, 1.0)
  {
    var up, down := gamma * target, gamma * (1.0 - target);
    ProductPositive(gamma, target, up);
    ProductPositive(gamma, 1.0 - target, down);
    assert gamma * (target - 1.0) == -down;
  }

  lemma GatedDescends(st: State, accepted: bool)
    requires st.settings.Valid()
    ensures st.Gated(accepted) >= st.alpha - Fall(st.settings)
  {
    var s := st.settings;
    NudgeSign(st.alpha, s.gamma, s.alphaTarget);
    assert Nudge(st.alpha, s.gamma, s.alphaTarget, 1.0) == st.alpha - Fall(s);
    hide Nudge, SafelyUnder, Fall;
  }

  /** One H0 event lowers alpha by at most gamma * (1 - target), and is lifted only if alpha has no room for that. */
  lemma EntryDescends(st: State, e: Event)
    requires st.Valid() && e.truth == H0
    ensures var d := Fall(st.settings);
            && st.Updated(e.score, e.truth, e.accepted).alpha >= st.alpha - d
            && (st.alpha - d >= st.settings.alphaMin ==> Entry(st, e).lift == 0.0)
  {
    GatedDescends(st.Observed(e.score, e.accepted), e.accepted);
    hide State.Gated, LastN, Fall;
  }

  /** What the last event of a run does to the run and its ledger. */
  lemma TotalsStep(st: State, events: seq<Event>)
    requires st.Valid() && events != []
    ensures var n := |events| - 1;
            var before, after := Run(st, events[..n]), Run(st, events);
            var t, t' := Totals(st, events[..n]), Totals(st, events);
            && after == before.Updated(events[n].score, events[n].truth, events[n].accepted)
            && (events[n].truth != H0 ==> t' == t && after == before)
            && (events[n].truth == H0 ==> t'.h0 == t.h0 + 1 && t'.lift == t.lift + Entry(before, events[n]).lift)
  {
    var n := |events| - 1;
    var before := Run(st, events[..n]);
    assert Run(st, events) == before.Updated(events[n].score, events[n].truth, events[n].accepted);
    if events[n].truth == H0 {
      assert Entry(before, events[n]).h0 == 1;
    }
    hide Entry, State.Updated, State.Valid, Settings.Valid;
  }

  lemma RoomStep(st: State, events: seq<Event>)
    requires st.Valid() && events != []
    requires var t := Totals(st, events[..|events| - 1]);
             && Run(st, events[..|events| - 1]).alpha >= st.alpha - Descent(st.settings, t.h0)
             && (Descent(st.settings, t.h0) <= st.alpha - st.settings.alphaMin ==> t.lift == 0.0)
    ensures var t := Totals(st, events);
            && Run(st, events).alpha >= st.alpha - Descent(st.settings, t.h0)
            && (Descent(st.settings, t.h0) <= st.alpha - st.settings.alphaMin ==> t.lift == 0.0)
  {
    var n := |events| - 1;
    var before, t, t' := Run(st, events[..n]), Totals(st, events[..n]), Totals(st, events);
    assert before.settings == st.settings;
    hide Descent, Entry, State.Updated, Run, Totals, Fall;
    TotalsStep(st, events);
    DescentGrows(st.settings, t.h0);
    if events[n].truth == H0 {
      EntryDescends(before, events[n]);
      assert t'.h0 == t.h0 + 1;
    }
  }

  /** A run whose H0 events fit the room above alpha_min is never lifted. */
  lemma {:induction false} RoomMeansNoLift(st: State, events: seq<Event>)
    requires st.Valid()
    ensures Run(st, events).alpha >= st.alpha - Descent(st.settings, Totals(st, events).h0)
    ensures Descent(st.settings, Totals(st, events).h0) <= st.alpha - st.settings.alphaMin
            ==> Totals(st, events).lift == 0.0
  {
    if events == [] {
      DescentGrows(st.settings, 0);
    } else {
      RoomMeansNoLift(st, events[..|events| - 1]);
      RoomStep(st, events);
    }
  }

  /** T accepted H0 events, with a score no threshold of a GE controller rejects. */
  function Flood(T: nat): (events: seq<Event>)
    ensures |events| == T && forall i :: 0 <= i < T ==> events[i] == Event(POS_INF, H0, true)
  {
    if T == 0 then [] else Flood(T - 1) + [Event(POS_INF, H0, true)]
  }

  lemma AcceptedIsNeverHeldDown(st: State, e: Event)
    requires st.Valid() && e.truth == H0 && e.accepted
    ensures Entry(st, e).cut == 0.0 && Entry(st, e).withheld == 0.0
  {
    NudgeSign(st.alpha, st.settings.gamma, st.settings.alphaTarget);
    hide Nudge, LastN, SafelyUnder;
  }

  lemma {:induction false} FloodTotals(st: State, T: nat)
    requires st.Valid()
    ensures var t := Totals(st, Flood(T));
            t.h0 == T && t.hits == T && t.cut == 0.0 && t.withheld == 0.0
  {
    if T > 0 {
      FloodTotals(st, T - 1);
      assert Flood(T)[..T - 1] == Flood(T - 1);
      AcceptedIsNeverHeldDown(Run(st, Flood(T - 1)), Event(POS_INF, H0, true));
      hide State.Valid, State.Updated, State.Gated, State.Observed, State.Proposed;
    }
  }

  ghost predicate KeepsBudget(st: State, events: seq<Event>)
    requires st.Valid()
  {
    var t := Totals(st, events);
    t.hits as real <= Budget(st.settings, t.h0, st.alpha, Run(st, events).alpha)
  }

  lemma SafeWithRoom(st: State, T: nat, events: seq<Event>)
    requires st.Valid() && Totals(st, events).h0 <= T && Descent(st.settings, T) <= st.alpha - st.settings.alphaMin
    ensures KeepsBudget(st, events)
  {
    hide Descent, Totals, Run, Budget;
    DescentMonotone(st.settings, Totals(st, events).h0, T);
    RoomMeansNoLift(st, events);
    AlphaAccounting(st, events);
    FalseHitBudget(st, events);
  }

  lemma UnspentFlood(s: Settings, T: nat)
    ensures Unspent(s, T, T) == -Descent(s, T)
  {
    var x, t := T as real, s.alphaTarget;
    assert t * x - x == -((1.0 - t) * x);
    assert Fall(s) * x == s.gamma * ((1.0 - t) * x);
  }

  lemma FloodOverspends(st: State, T: nat)
    requires st.Valid() && Descent(st.settings, T) > st.alpha - st.settings.alphaMin
    ensures !KeepsBudget(st, Flood(T))
  {
    FloodTotals(st, T);
    AlphaAccounting(st, Flood(T));
    FalseHitBudget(st, Flood(T));
    UnspentFlood(st.settings, T);
    hide Descent, Totals, Run, Budget, Unspent;
  }

  /** When the budget is safe beforehand: every run of at most T H0 updates keeps it if and only if alpha has
      room to fall T times by gamma * (1 - target) before it reaches alpha_min. */
  lemma BudgetIsSafeIff(st: State, T: nat)
    requires st.Valid()
    ensures (forall events :: Totals(st, events).h0 <= T ==> KeepsBudget(st, events))
            <==> Descent(st.settings, T) <= st.alpha - st.settings.alphaMin
  {
    if Descent(st.settings, T) <= st.alpha - st.settings.alphaMin {
      forall events | Totals(st, events).h0 <= T ensures KeepsBudget(st, events) {
        SafeWithRoom(st, T, events);
      }
    } else {
      FloodTotals(st, T);
      FloodOverspends(st, T);
    }
    hide Descent, Totals, KeepsBudget;
  }

  /** The run of a controller that decides for itself. */
  ghost predicate SelfDecided(st: State, events: seq<Event>)
    requires st.Valid()
  {
    forall i :: 0 <= i < |events| ==> events[i].accepted == Run(st, events[..i]).ShouldAccept(events[i].score)
  }

  /** Scores of +inf are accepted under GE whatever the threshold, so that a flood is such a run. */
  lemma FloodIsSelfDecided(st: State, T: nat)
    requires st.Valid() && st.settings.tie == GE
    ensures SelfDecided(st, Flood(T))
  {
    var events := Flood(T);
    forall i | 0 <= i < T ensures Run(st, events[..i]).ShouldAccept(events[i].score) {
      assert Run(st, events[..i]).settings.tie == GE;
      hide Run, State.Threshold, State.Valid;
    }
  }

  /** The same condition decides it when only the controller's own decisions count. */
  lemma OwnBudgetIsSafeIff(st: State, T: nat)
    requires st.Valid() && st.settings.tie == GE
    ensures (forall events :: SelfDecided(st, events) && Totals(st, events).h0 <= T ==> KeepsBudget(st, events))
            <==> Descent(st.settings, T) <= st.alpha - st.settings.alphaMin
  {
    if Descent(st.settings, T) <= st.alpha - st.settings.alphaMin {
      BudgetIsSafeIff(st, T);
    } else {
      FloodTotals(st, T);
      FloodIsSelfDecided(st, T);
      FloodOverspends(st, T);
    }
    hide Descent, Totals, KeepsBudget, SelfDecided;
  }

  /** The lower clamp does break the budget: a controller that accepts by its fallback threshold and
      starts at alpha_min = alpha_target spends one false hit against a budget of 0.05. */
  lemma FlooredRunOverspends()
    ensures var s := Settings(0.05, 0.01, 0.05, 0.2, 10, 5, GE, false, 1.96, 100);
            var st := State(s, Some(0), 0.05, [], [], [], 0, 0, 0);
            var events := [Event(0, H0, st.ShouldAccept(0))];
            && st.Valid()
            && Totals(st, events).hits == 1
            && Budget(s, Totals(st, events).h0, st.alpha, Run(st, events).alpha) == 0.05
  {
    var s := Settings(0.05, 0.01, 0.05, 0.2, 10, 5, GE, false, 1.96, 100);
    var st := State(s, Some(0), 0.05, [], [], [], 0, 0, 0);
    var e := Event(0, H0, true);
    assert st.ShouldAccept(0);
    assert [e][..0] == [];
    assert Run(st, []) == st && Totals(st, []) == Ledger(0, 0, 0.0, 0.0, 0.0);
    assert Run(st, [e]) == st.Updated(0, H0, true);
    assert Run(st, [e]).alpha == 0.05;
    assert Totals(st, [e]).h0 == 1;
  }

  // ---- the Wilson gate and the windows ----

  /** One update in closed form. An H0 event enters the windows; alpha takes its full step towards the target,
      clipped to its bounds, unless the gate is on, the event was rejected and the window it has just entered is
      not safely under the target: then alpha stays and the block is counted. Other labels change nothing. */
  lemma UpdateInClosedForm(st: State, e: Event)
    requires st.Valid()
    ensures var s, next := st.settings, st.Updated(e.score, e.truth, e.accepted);
            var outcomes := LastN(st.outcomes + [e.accepted], s.wilsonWindow);
            var passes := !s.wilsonGate || e.accepted || SafelyUnder(outcomes, s.wilsonZ, s.alphaTarget);
            var step := s.gamma * (s.alphaTarget - if e.accepted then 1.0 else 0.0);
            if e.truth != H0 then next == st
            else
              next == State(s, st.fallback,
                            if passes then MinReal(s.alphaMax, MaxReal(s.alphaMin, st.alpha + step)) else st.alpha,
                            LastN(st.buffer + [e.score], s.bufferSize), LastN(st.origin + [true], s.bufferSize),
                            outcomes, st.updateCount + 1, st.h0Seen + 1, st.blocked + if passes then 0 else 1)
  {
    NudgeSign(st.alpha, st.settings.gamma, st.settings.alphaTarget);
    assert st.settings.gamma * (st.settings.alphaTarget - 0.0) == st.settings.gamma * st.settings.alphaTarget;
    hide SafelyUnder, LastN;
  }

  /** The rises that a number of blocks prevents. */
  function Prevented(s: Settings, blocks: int): real {
    blocks as real * (s.gamma * s.alphaTarget)
  }

  lemma PreventedAdds(s: Settings, m: int, n: int)
    ensures Prevented(s, m + n) == Prevented(s, m) + Prevented(s, n) && Prevented(s, 0) == 0.0
  {
  }

  lemma EntryWithholds(st: State, e: Event)
    requires st.Valid() && e.truth == H0
    ensures var next := st.Updated(e.score, e.truth, e.accepted);
            && Entry(st, e).withheld == Prevented(st.settings, next.blocked - st.blocked)
            && (!st.settings.wilsonGate ==> next.blocked == st.blocked)
  {
    NudgeSign(st.alpha, st.settings.gamma, st.settings.alphaTarget);
    assert Prevented(st.settings, 1) == st.settings.gamma * st.settings.alphaTarget && Prevented(st.settings, 0) == 0.0;
    hide SafelyUnder, LastN, Prevented;
  }

  lemma OtherLabelsPass(st: State, e: Event)
    requires st.Valid() && e.truth != H0
    ensures st.Updated(e.score, e.truth, e.accepted) == st
  {
  }

  /** What the gate withheld over a run is gamma * target for each block it counted; without the gate, nothing. */
  lemma {:induction false} WithheldIsBlocked(st: State, events: seq<Event>)
    requires st.Valid()
    ensures Totals(st, events).withheld == Prevented(st.settings, Run(st, events).blocked - st.blocked)
    ensures !st.settings.wilsonGate ==> Totals(st, events).withheld == 0.0 && Run(st, events).blocked == st.blocked
  {
    hide Entry, State.Updated, State.Valid, Prevented;
    PreventedAdds(st.settings, 0, 0);
    if events != [] {
      var n := |events| - 1;
      WithheldIsBlocked(st, events[..n]);
      var before, e := Run(st, events[..n]), events[n];
      if e.truth == H0 {
        EntryWithholds(before, e);
        PreventedAdds(st.settings, before.blocked - st.blocked, Run(st, events).blocked - before.blocked);
      } else {
        OtherLabelsPass(before, e);
      }
    }
  }

  /** When alpha moves: up exactly on a rejected H0 below the cap that the gate lets pass, down exactly
      on an accepted H0 above the floor. */
  lemma AlphaMoves(st: State, e: Event)
    requires st.Valid()
    ensures var next := st.Updated(e.score, e.truth, e.accepted);
            && (next.alpha > st.alpha
                <==> e.truth == H0 && !e.accepted && st.alpha < st.settings.alphaMax
                     && (st.settings.wilsonGate
                         ==> SafelyUnder(LastN(st.outcomes + [false], st.settings.wilsonWindow),
                                         st.settings.wilsonZ, st.settings.alphaTarget)))
            && (next.alpha < st.alpha <==> e.truth == H0 && e.accepted && st.alpha > st.settings.alphaMin)
  {
    var s := st.settings;
    var seen := st.Observed(e.score, e.accepted);
    NudgeSign(st.alpha, s.gamma, s.alphaTarget);
    assert seen.Proposed(e.accepted) == Nudge(st.alpha, s.gamma, s.alphaTarget, if e.accepted then 1.0 else 0.0);
    assert !e.accepted ==> seen.outcomes == LastN(st.outcomes + [false], s.wilsonWindow);
  }

  function H0Flags(events: seq<Event>): seq<bool> {
    if events == [] then []
    else
      var n := |events| - 1;
      H0Flags(events[..n]) + if events[n].truth == H0 then [events[n].accepted] else []
  }

  function H0ScoresSeen(events: seq<Event>): seq<Score> {
    if events == [] then []
    else
      var n := |events| - 1;
      H0ScoresSeen(events[..n]) + if events[n].truth == H0 then [events[n].score] else []
  }

  lemma UpdatedWindows(st: State, e: Event)
    requires st.Valid()
    ensures var next := st.Updated(e.score, e.truth, e.accepted);
            if e.truth == H0
            then next.outcomes == LastN(st.outcomes + [e.accepted], st.settings.wilsonWindow)
                 && next.buffer == LastN(st.buffer + [e.score], st.settings.bufferSize)
                 && next.h0Seen == st.h0Seen + 1
            else next == st
  {
  }

  lemma HistoryAppend(events: seq<Event>, e: Event)
    ensures var front, all := H0Flags(events), H0Flags(events + [e]);
            && all == (if e.truth == H0 then front + [e.accepted] else front)
            && CountTrue(all) == CountTrue(front) + (if e.truth == H0 && e.accepted then 1 else 0)
            && H0ScoresSeen(events + [e])
               == if e.truth == H0 then H0ScoresSeen(events) + [e.score] else H0ScoresSeen(events)
  {
    assert (events + [e])[..|events|] == events;
    if e.truth == H0 {
      assert (H0Flags(events) + [e.accepted])[..|H0Flags(events)|] == H0Flags(events);
    } else {
      assert H0Flags(events) + [] == H0Flags(events);
    }
  }

  lemma WindowsAtStart(st: State)
    requires st.Valid()
    ensures st.outcomes == LastN(st.outcomes + [], st.settings.wilsonWindow)
    ensures st.buffer == LastN(st.buffer + [], st.settings.bufferSize)
  {
    assert st.outcomes + [] == st.outcomes;
    assert st.buffer + [] == st.buffer;
  }

  /** The ledger counts the H0 events of the run and the accepted ones among them. */
  lemma {:induction false} LedgerCounts(st: State, events: seq<Event>)
    requires st.Valid()
    ensures Totals(st, events).h0 == |H0Flags(events)| && Totals(st, events).hits == CountTrue(H0Flags(events))
  {
    hide Run, State.Observed, State.Gated, State.Proposed;
    if events != [] {
      var n := |events| - 1;
      LedgerCounts(st, events[..n]);
      HistoryAppend(events[..n], events[n]);
      assert events == events[..n] + [events[n]];
    }
  }

  lemma LastNGrows<T>(start: seq<T>, seen: seq<T>, x: T, cap: nat)
    ensures LastN(LastN(start + seen, cap) + [x], cap) == LastN(start + (seen + [x]), cap)
  {
    hide LastN;
    LastNAppend(start + seen, x, cap);
    assert start + (seen + [x]) == start + seen + [x];
  }

  /** The windows hold the most recent H0 scores and outcomes of the whole history, the counters count
      it, and H1 or unknown events leave no trace. */
  lemma {:induction false} WindowsAreRecent(st: State, events: seq<Event>)
    requires st.Valid()
    ensures var end := Run(st, events);
            && end.outcomes == LastN(st.outcomes + H0Flags(events), st.settings.wilsonWindow)
            && end.buffer == LastN(st.buffer + H0ScoresSeen(events), st.settings.bufferSize)
            && end.h0Seen == st.h0Seen + |H0Flags(events)|
  {
    assert st.settings.wilsonWindow > 0 && st.settings.bufferSize > 0;
    hide State.Updated, LastN, Totals, State.Valid;
    if events == [] {
      WindowsAtStart(st);
    } else {
      hide H0Flags, H0ScoresSeen;
      var n := |events| - 1;
      var front, e := events[..n], events[n];
      assert events == front + [e];
      WindowsAreRecent(st, front);
      HistoryAppend(front, e);
      UpdatedWindows(Run(st, front), e);
      LastNGrows(st.outcomes, H0Flags(front), e.accepted, st.settings.wilsonWindow);
      LastNGrows(st.buffer, H0ScoresSeen(front), e.score, st.settings.bufferSize);
    }
  }

  /** A non-empty window whose accepted fraction is at most the target. */
  predicate FractionAtMost(window: seq<bool>, target: real) {
    window != [] && CountTrue(window) as real <= target * (|window| as real)
  }

  lemma SafelyUnderIsWithin(window: seq<bool>, z: real, target: real)
    requires SafelyUnder(window, z, target)
    ensures FractionAtMost(window, target)
  {
    hide AtMost;
    UpperAtMostBoundsCount(CountTrue(window), |window|, z, target);
  }

  lemma RiseIsSafe(st: State, e: Event)
    requires st.Valid() && st.settings.wilsonGate
    requires st.Updated(e.score, e.truth, e.accepted).alpha > st.alpha
    ensures FractionAtMost(st.Updated(e.score, e.truth, e.accepted).outcomes, st.settings.alphaTarget)
  {
    assert st.settings.wilsonWindow > 0;
    AlphaMoves(st, e);
    UpdatedWindows(st, e);
    SafelyUnderIsWithin(LastN(st.outcomes + [false], st.settings.wilsonWindow), st.settings.wilsonZ,
                        st.settings.alphaTarget);
    hide State.Updated, FractionAtMost, SafelyUnder, LastN;
  }

  lemma RunStep(st: State, events: seq<Event>, e: Event)
    requires st.Valid()
    ensures Run(st, events + [e]) == Run(st, events).Updated(e.score, e.truth, e.accepted)
  {
    hide State.Updated, State.Valid;
    assert (events + [e])[..|events|] == events;
  }

  /** With the gate on, on every run from any valid state: whenever alpha rises, the accepted fraction among
      the last min(window, known H0 outcomes) control outcomes, the current one included, is at most the
      target. From a new controller the known outcomes are those of the run; a loaded checkpoint adds the
      ones it carries. */
  lemma GatedLooseningIsSafe(st: State, events: seq<Event>, e: Event)
    requires st.Valid() && st.settings.wilsonGate
    requires Run(st, events + [e]).alpha > Run(st, events).alpha
    ensures FractionAtMost(LastN(st.outcomes + H0Flags(events + [e]), st.settings.wilsonWindow),
                           st.settings.alphaTarget)
  {
    assert st.settings.wilsonWindow > 0;
    hide FractionAtMost, State.Updated, LastN, H0Flags, State.Valid, Run;
    RunStep(st, events, e);
    RiseIsSafe(Run(st, events), e);
    WindowsAreRecent(st, events + [e]);
  }

  // ---- how the threshold answers to alpha ----

  lemma NestedIffOrdered(t1: Score, t2: Score, tie: TieMode)
    ensures (forall x: Score :: Accepts(t1, tie, x) ==> Accepts(t2, tie, x)) <==> t2 <= t1
  {
    if t2 > t1 {
      assert tie == GE ==> Accepts(t1, tie, t1) && !Accepts(t2, tie, t1);
      assert tie == GT ==> Accepts(t1, tie, t2) && !Accepts(t2, tie, t2);
    }
  }

  /** Exactly when a larger alpha accepts every score that a smaller one accepts: the two quantiles are
      both finite or both infinite, or the value that stands in for the infinite one - the fallback, else
      +inf - lies on the right side of the finite one. */
  lemma LargerAlphaAcceptsMoreIff(st: State, a1: real, a2: real)
    requires 0.0 < a1 <= a2 < 1.0 && st.BufferReady() && st.buffer != []
    ensures var q1 := ThresholdFromSelectedH0Scores(st.buffer, a1, st.settings.tie).value;
            var q2 := ThresholdFromSelectedH0Scores(st.buffer, a2, st.settings.tie).value;
            var standIn := if st.fallback.Some? then st.fallback.value else POS_INF;
            (forall x: Score :: st.(alpha := a1).ShouldAccept(x) ==> st.(alpha := a2).ShouldAccept(x))
            <==> IsFinite(q1) == IsFinite(q2) || (IsFinite(q2) && q2 <= standIn) || (IsFinite(q1) && standIn <= q1)
  {
    hide ThresholdFromSelectedH0Scores;
    ThresholdAntitoneInRate(st.buffer, a1, a2, st.settings.tie);
    ThresholdCut(st.buffer, a1, st.settings.tie);
    ThresholdCut(st.buffer, a2, st.settings.tie);
    var t1, t2 := st.(alpha := a1).Threshold(), st.(alpha := a2).Threshold();
    NestedIffOrdered(t1, t2, st.settings.tie);
    assert forall x: Score :: st.(alpha := a1).ShouldAccept(x) == Accepts(t1, st.settings.tie, x);
    assert forall x: Score :: st.(alpha := a2).ShouldAccept(x) == Accepts(t2, st.settings.tie, x);
  }

  lemma InteriorQuantileIsFinite(scores: seq<Score>, rate: real, tie: TieMode)
    requires scores != [] && forall x | x in scores :: NEG_INF + 1 < x < MAX_FINITE
    ensures IsFinite(ThresholdFromSelectedH0Scores(scores, rate, tie).value)
  {
    SortIsSorted(scores);
    hide AllowedAccepts, SortDesc, CountGe;
    AllowedMonotone(|scores|, rate, rate);
    forall i | 0 <= i < |scores| ensures SortDesc(scores)[i] in scores {
      assert SortDesc(scores)[i] in multiset(scores);
    }
  }

  /** In particular nothing is lost when no buffered score is so large or small that a quantile can leave
      the finite range. */
  lemma LargerAlphaAcceptsMore(st: State, a1: real, a2: real, score: Score)
    requires 0.0 < a1 <= a2 < 1.0
    requires forall x | x in st.buffer :: NEG_INF + 1 < x < MAX_FINITE
    requires st.(alpha := a1).ShouldAccept(score)
    ensures st.(alpha := a2).ShouldAccept(score)
  {
    if st.BufferReady() && st.buffer != [] {
      hide State.ShouldAccept, State.Threshold, IsFinite;
      InteriorQuantileIsFinite(st.buffer, a1, st.settings.tie);
      InteriorQuantileIsFinite(st.buffer, a2, st.settings.tie);
      LargerAlphaAcceptsMoreIff(st, a1, a2);
    }
  }

  /** Without that condition it can: a quantile pushed to +inf is replaced by a laxer fallback. */
  lemma FallbackCanAcceptMore()
    ensures var s := Settings(0.1, 0.01, 0.05, 0.9, 10, 1, GE, false, 1.96, 100);
            var st := State(s, Some(0), 0.1, [MAX_FINITE, 0], [false, false], [], 0, 0, 0);
            st.Valid() && st.ShouldAccept(5) && !st.(alpha := 0.5).ShouldAccept(5)
  {
    var scores: seq<Score> := [MAX_FINITE, 0];
    assert scores[1..] == [0] && [0][1..] == [];
    assert SortDesc([0]) == [0];
    assert SortDesc(scores) == scores;
    assert AllowedAccepts(2, 0.1) == 0 && AllowedAccepts(2, 0.5) == 1;
    assert CountGe([0], MAX_FINITE) == 0;
    assert CountGe(scores, MAX_FINITE) == 1;
  }
}
