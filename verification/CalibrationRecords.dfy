/** What shadow collection tells its caller and query-level calibration: the label of the served candidate and
    the content of the records it stores (src/mlcache/feedback/shadow_collector.py:191-262, 338-386,
    src/mlcache/calibration/query_records.py:21-72). */
module CalibrationRecords {
  import opened Scores
  import opened TrainingStore
  import opened ShadowCollector
  import QueryLevel = QueryLevelCalibration

  /** What the judge last said about a key; None if it was never judged. */
  function LastJudgement(judged: seq<Candidate>, key: string): Option<JudgeLabel> {
    if judged == [] then None
    else
      var c := judged[|judged| - 1];
      if c.key == key && c.judgement.Some? then Some(c.judgement.value.judged)
      else LastJudgement(judged[..|judged| - 1], key)
  }

  /** The label is 0 for a pair that must not be reused, 1 for one that may, and unknown for anything else. */
  predicate Tells(truth: Label, judgement: Option<JudgeLabel>) {
    && (truth == Some(0) <==> judgement == Some(NotReusable))
    && (truth == Some(1) <==> judgement == Some(Reusable))
    && (truth == None <==> judgement.None? || judgement == Some(Uncertain))
  }

  lemma UnjudgedTells(key: string)
    ensures Tells(LabelIn(map[], key), None)
  {
  }

  /** One judged candidate settles the label of its key and of no other. */
  lemma JudgedTells(env: Env, p: Progress, c: Candidate, key: string)
    requires env.Valid() && !p.local.halted && c.features.Some?
    ensures var told := LabelIn(env.JudgeNext(p, c).local.labels, key);
            if c.key == key && c.judgement.Some? then Tells(told, Some(c.judgement.value.judged))
            else told == LabelIn(p.local.labels, key)
  {
    hide Env.OfferOf;
  }

  /** After a call has judged its pairs, its labels tell the judge's last words. */
  lemma {:induction false} LabelsTellJudgements(env: Env, p: Progress, judged: seq<Candidate>, key: string)
    requires env.Valid() && AllFeatured(judged) && p.local.labels == map[]
    requires !env.Judge(p, judged).local.halted
    ensures Tells(LabelIn(env.Judge(p, judged).local.labels, key), LastJudgement(judged, key))
  {
    hide Env.JudgeNext, Tells, LabelIn;
    if judged == [] {
      UnjudgedTells(key);
    } else {
      var n := |judged| - 1;
      if env.Judge(p, judged[..n]).local.halted {
        HaltStays(env, p, judged, n);
      }
      LabelsTellJudgements(env, p, judged[..n], key);
      JudgedTells(env, env.Judge(p, judged[..n]), judged[n], key);
    }
  }

  /** The labels of a call that nothing halted. */
  lemma CallTells(st: State, env: Env, request: Request, candidates: seq<Candidate>, key: string)
    requires env.Valid() && !JudgedOf(st, env, PrepOf(env.config, request, candidates)).local.halted
    ensures var prep := PrepOf(env.config, request, candidates);
            Tells(LabelIn(JudgedOf(st, env, prep).local.labels, key), LastJudgement(prep.prepared, key))
  {
    hide Env.Judge, Prepare, Selected, Tells, LabelIn;
    var selected := Selected(env.config, candidates);
    var prep := PrepOf(env.config, request, candidates);
    PreparedHaveFeatures(env.config, request, selected, |selected|);
    LabelsTellJudgements(env, Progress(Local(prep.tally, map[], false), st.splits, st.offers), prep.prepared, key);
  }

  /** The record of a call: one entry per retrieved candidate, in retrieval order and ranked from one, with its
      vector score and a label that tells what the judge last said about its key in this call. A key that was
      skipped throughout, or not reached before the pair limit, has no label. */
  ghost predicate Describes(record: QueryLevel.Record, request: Request, selected: seq<Candidate>,
                            judged: seq<Candidate>)
  {
    && record.queryId == (if request.id.Some? && request.id.value != "" then request.id.value
                          else if request.query != "" then request.query
                          else "anonymous_query")
    && |record.candidates| == |selected|
    && forall i :: 0 <= i < |selected| ==>
         var c := record.candidates[i];
         && c.score == selected[i].score && c.rank == Some(i + 1) && c.key == Some(selected[i].key)
         && Tells(c.truth, LastJudgement(judged, selected[i].key))
  }

  lemma RecordTellsJudgements(st: State, env: Env, request: Request, candidates: seq<Candidate>,
                              recordStored: Option<bool>)
    requires env.Valid() && RecordMade(st, env, request, candidates, recordStored).Some?
    ensures Describes(RecordMade(st, env, request, candidates, recordStored).value, request,
                      Selected(env.config, candidates), PrepOf(env.config, request, candidates).prepared)
  {
    hide JudgedOf, PrepOf, Selected, Tells, LabelIn, LastJudgement;
    var selected := Selected(env.config, candidates);
    forall i | 0 <= i < |selected|
      ensures Tells(LabelIn(JudgedOf(st, env, PrepOf(env.config, request, candidates)).local.labels, selected[i].key),
                    LastJudgement(PrepOf(env.config, request, candidates).prepared, selected[i].key))
    {
      CallTells(st, env, request, candidates, selected[i].key);
    }
  }

  /** What a call that does not raise returns and hands on: a record whenever records are kept, and the label of the
      served candidate, which tells what the judge last said about it. */
  lemma CollectedTells(st: State, env: Env, request: Request, candidates: seq<Candidate>, recordStored: Option<bool>)
    requires env.Valid() && env.config.enabled
    requires AfterCollect(st, env, request, candidates, recordStored).1.Collected?
    ensures var served := AfterCollect(st, env, request, candidates, recordStored).1.servedLabel;
            var judged := PrepOf(env.config, request, candidates).prepared;
            && (RecordMade(st, env, request, candidates, recordStored).Some? <==> recordStored.Some?)
            && (request.servedKey.None? ==> served == None)
            && (request.servedKey.Some? ==> Tells(served, LastJudgement(judged, request.servedKey.value)))
  {
    hide JudgedOf, PrepOf, Tells, LastJudgement, RecordOf;
    if request.servedKey.Some? {
      CallTells(st, env, request, candidates, request.servedKey.value);
    }
  }

  /** The first of the candidates with the highest score. */
  ghost predicate IsTop(selected: seq<Candidate>, i: nat) {
    && i < |selected|
    && (forall j :: 0 <= j < |selected| ==> selected[j].score <= selected[i].score)
    && (forall j :: 0 <= j < i ==> selected[j].score < selected[i].score)
  }

  lemma OneDecision(record: QueryLevel.Record, select: QueryLevel.SelectionFn, abstainOnEmpty: bool,
                    c: QueryLevel.Candidate)
    requires record.candidates != [] && select(record.candidates) == Some(c)
    ensures QueryLevel.SelectedH0(QueryLevel.Decisions([record], select, abstainOnEmpty))
            == if c.truth == H0 then [c.score] else []
  {
    QueryLevel.RecordDecides(record, select, abstainOnEmpty);
    var made := QueryLevel.DecisionFor(record, select, abstainOnEmpty);
    assert [record][..0] == [];
    assert QueryLevel.Decisions([], select, abstainOnEmpty) == [];
    assert QueryLevel.Decisions([record], select, abstainOnEmpty) == [] + made == made;
  }

  /** What a call contributes to query-level calibration: the score of its top candidate, exactly when the judge's
      last word on that candidate in this call was that it is not reusable. */
  lemma TopCandidateCounts(st: State, env: Env, request: Request, candidates: seq<Candidate>,
                           recordStored: Option<bool>, abstainOnEmpty: bool, i: nat)
    requires env.Valid() && RecordMade(st, env, request, candidates, recordStored).Some?
    requires IsTop(Selected(env.config, candidates), i)
    ensures var record := RecordMade(st, env, request, candidates, recordStored).value;
            var top := Selected(env.config, candidates)[i];
            var prepared := PrepOf(env.config, request, candidates).prepared;
            QueryLevel.SelectedH0(QueryLevel.Decisions([record], QueryLevel.SelectMaxScore, abstainOnEmpty))
            == if LastJudgement(prepared, top.key) == Some(NotReusable) then [top.score] else []
  {
    hide PrepOf, RecordMade, LastJudgement, Selected;
    RecordTellsJudgements(st, env, request, candidates, recordStored);
    var record := RecordMade(st, env, request, candidates, recordStored).value;
    QueryLevel.SelectMaxScoreIsFirstBest(record.candidates, i);
    OneDecision(record, QueryLevel.SelectMaxScore, abstainOnEmpty, record.candidates[i]);
  }
}
