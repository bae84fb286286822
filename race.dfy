/** The bookkeeping of the race simulation: which step each robot first
    crosses the finish line at, where each robot is at the end, the race
    order, and the ranked ledger written to `fitness_results.json`.

    The physics engine is not modelled: its output is a trace, where
    `trace[step][env]` is the local x position of robot `env` observed at that
    step. The robots drive towards negative x. */
module Race {
  import opened Ordering
  import opened Fitness

  const NUM_ENVS := 10
  const NUM_STEPS := 400
  const FINISH_LINE_X := -10.0

  predicate IsTrace(trace: seq<seq<real>>) {
    |trace| == NUM_STEPS && forall t :: 0 <= t < |trace| ==> |trace[t]| == NUM_ENVS
  }

  /** Among the first n steps, robot env first reaches the line at `o`, or
      never when `o` is None. */
  predicate FirstCrossingWithin(trace: seq<seq<real>>, env: nat, n: nat, o: Option<int>)
    requires n <= |trace| && forall t :: 0 <= t < |trace| ==> env < |trace[t]|
  {
    match o
    case Some(s) =>
      0 <= s < n && trace[s][env] <= FINISH_LINE_X &&
      forall t :: 0 <= t < s ==> trace[t][env] > FINISH_LINE_X
    case None =>
      forall t :: 0 <= t < n ==> trace[t][env] > FINISH_LINE_X
  }

  /** The step loop: for every step and every robot, record the position and,
      the first time the robot is at or past the line, the step. */
  method TrackRace(trace: seq<seq<real>>) returns (finishStep: seq<Option<int>>, finalX: seq<real>)
    requires IsTrace(trace)
    ensures |finishStep| == NUM_ENVS && |finalX| == NUM_ENVS
    ensures forall env :: 0 <= env < NUM_ENVS ==> FirstCrossingWithin(trace, env, |trace|, finishStep[env])
    ensures forall env :: 0 <= env < NUM_ENVS ==> finalX[env] == trace[|trace| - 1][env]
  {
    finishStep := seq(NUM_ENVS, _ => None);
    finalX := seq(NUM_ENVS, _ => 0.0);
    for step := 0 to NUM_STEPS
      invariant |finishStep| == NUM_ENVS && |finalX| == NUM_ENVS
      invariant forall env :: 0 <= env < NUM_ENVS ==> FirstCrossingWithin(trace, env, step, finishStep[env])
      invariant forall env :: 0 <= env < NUM_ENVS ==> finalX[env] == if step == 0 then 0.0 else trace[step - 1][env]
    {
      for env := 0 to NUM_ENVS
        invariant |finishStep| == NUM_ENVS && |finalX| == NUM_ENVS
        invariant forall e :: 0 <= e < env ==> FirstCrossingWithin(trace, e, step + 1, finishStep[e])
        invariant forall e :: env <= e < NUM_ENVS ==> FirstCrossingWithin(trace, e, step, finishStep[e])
        invariant forall e :: 0 <= e < env ==> finalX[e] == trace[step][e]
        invariant forall e :: env <= e < NUM_ENVS ==> finalX[e] == if step == 0 then 0.0 else trace[step - 1][e]
      {
        var x := trace[step][env];
        finalX := finalX[env := x];
        if finishStep[env].None? && x <= FINISH_LINE_X {
          finishStep := finishStep[env := Some(step)];
        }
      }
    }
  }

  // ------------------------------------------------------------------
  // Ranking

  /** A row of the race result: the tuple `(env, finish_step, x)` of a robot
      that finished, or `(env, x)` of one that did not. */
  datatype Entry = Finished(env: int, step: int, x: real) | Unfinished(env: int, x: real)

  /** The comprehension over `finish_step` (in env order) keeping finishers,
      from env `e` on. */
  function FinishersFrom(finishStep: seq<Option<int>>, finalX: seq<real>, e: nat): seq<Entry>
    requires |finalX| == |finishStep| && e <= |finishStep|
    decreases |finishStep| - e
  {
    if e == |finishStep| then []
    else
      var rest := FinishersFrom(finishStep, finalX, e + 1);
      match finishStep[e]
      case Some(s) => [Finished(e, s, finalX[e])] + rest
      case None => rest
  }

  /** The comprehension keeping non-finishers, from env `e` on. */
  function UnfinishedFrom(finishStep: seq<Option<int>>, finalX: seq<real>, e: nat): seq<Entry>
    requires |finalX| == |finishStep| && e <= |finishStep|
    decreases |finishStep| - e
  {
    if e == |finishStep| then []
    else
      var rest := UnfinishedFrom(finishStep, finalX, e + 1);
      if finishStep[e].None? then [Unfinished(e, finalX[e])] + rest else rest
  }

  /** en is the finisher row of an env from e on. */
  predicate FinisherRow(finishStep: seq<Option<int>>, finalX: seq<real>, e: nat, en: Entry) {
    en.Finished? && e <= en.env < |finishStep| && en.env < |finalX| &&
    finishStep[en.env] == Some(en.step) && finalX[en.env] == en.x
  }

  /** en is the non-finisher row of an env from e on. */
  predicate NonFinisherRow(finishStep: seq<Option<int>>, finalX: seq<real>, e: nat, en: Entry) {
    en.Unfinished? && e <= en.env < |finishStep| && en.env < |finalX| &&
    finishStep[en.env].None? && finalX[en.env] == en.x
  }

  /** The finishers comprehension holds finisher rows, in env order. */
  lemma {:induction false} FinishersRows(finishStep: seq<Option<int>>, finalX: seq<real>, e: nat)
    requires |finalX| == |finishStep| && e <= |finishStep|
    ensures forall en :: en in FinishersFrom(finishStep, finalX, e) ==> FinisherRow(finishStep, finalX, e, en)
    ensures TagsIncreasing(FinishersFrom(finishStep, finalX, e), EnvOf)
    decreases |finishStep| - e
  {
    if e < |finishStep| {
      var rest := FinishersFrom(finishStep, finalX, e + 1);
      FinishersRows(finishStep, finalX, e + 1);
      if finishStep[e].Some? {
        var hd := Finished(e, finishStep[e].value, finalX[e]);
        assert FinishersFrom(finishStep, finalX, e) == [hd] + rest;
        ConsInEnvOrder(hd, rest);
      }
    }
  }

  /** The non-finishers comprehension holds non-finisher rows, in env order. */
  lemma {:induction false} NonFinishersRows(finishStep: seq<Option<int>>, finalX: seq<real>, e: nat)
    requires |finalX| == |finishStep| && e <= |finishStep|
    ensures forall en :: en in UnfinishedFrom(finishStep, finalX, e) ==> NonFinisherRow(finishStep, finalX, e, en)
    ensures TagsIncreasing(UnfinishedFrom(finishStep, finalX, e), EnvOf)
    decreases |finishStep| - e
  {
    if e < |finishStep| {
      var rest := UnfinishedFrom(finishStep, finalX, e + 1);
      NonFinishersRows(finishStep, finalX, e + 1);
      if finishStep[e].None? {
        var hd := Unfinished(e, finalX[e]);
        assert UnfinishedFrom(finishStep, finalX, e) == [hd] + rest;
        ConsInEnvOrder(hd, rest);
      }
    }
  }

  lemma ConsInEnvOrder(hd: Entry, rest: seq<Entry>)
    requires TagsIncreasing(rest, EnvOf)
    requires forall en :: en in rest ==> hd.env < en.env
    ensures TagsIncreasing([hd] + rest, EnvOf)
  {
    var r := [hd] + rest;
    forall i, j | 0 <= i < j < |r| ensures EnvOf(r[i]) < EnvOf(r[j]) {
      assert r[j] == rest[j - 1];
      if i > 0 {
        assert r[i] == rest[i - 1];
      } else {
        assert rest[j - 1] in rest;
      }
    }
  }

  function EnvOf(en: Entry): int {
    en.env
  }

  /** The sort key of finishers, `x[1]`: the finish step. */
  function StepKey(en: Entry): real {
    if en.Finished? then en.step as real else 0.0
  }

  /** The sort key of non-finishers, `x[1]` with `reverse=True`: a stable
      descending sort is a stable ascending sort on the negated key. */
  function DescendingXKey(en: Entry): real {
    -en.x
  }

  /** `final_ranking = finishers_sorted + non_finishers_sorted` */
  function FinalRanking(finishStep: seq<Option<int>>, finalX: seq<real>): seq<Entry>
    requires |finalX| == |finishStep|
  {
    Sort(FinishersFrom(finishStep, finalX, 0), StepKey) + Sort(UnfinishedFrom(finishStep, finalX, 0), DescendingXKey)
  }

  /** The race order the ranking follows: finishers before non-finishers;
      finishers by finish step, non-finishers by greatest x, ties by env. */
  predicate Ahead(a: Entry, b: Entry) {
    match (a, b)
    case (Finished(ea, sa, _), Finished(eb, sb, _)) => sa < sb || (sa == sb && ea < eb)
    case (Finished(_, _, _), Unfinished(_, _)) => true
    case (Unfinished(_, _), Finished(_, _, _)) => false
    case (Unfinished(ea, xa), Unfinished(eb, xb)) => xa > xb || (xa == xb && ea < eb)
  }

  /** Every earlier row of the ranking is ahead of every later one. */
  lemma RankingInRaceOrder(finishStep: seq<Option<int>>, finalX: seq<real>)
    requires |finalX| == |finishStep|
    ensures var r := FinalRanking(finishStep, finalX);
            forall i, j :: 0 <= i < j < |r| ==> Ahead(r[i], r[j])
  {
    SortedFinishers(finishStep, finalX);
    SortedNonFinishers(finishStep, finalX);
    RaceOrderOfParts(Sort(FinishersFrom(finishStep, finalX, 0), StepKey),
                     Sort(UnfinishedFrom(finishStep, finalX, 0), DescendingXKey));
  }

  lemma SortedFinishers(finishStep: seq<Option<int>>, finalX: seq<real>)
    requires |finalX| == |finishStep|
    ensures var a := Sort(FinishersFrom(finishStep, finalX, 0), StepKey);
            && (forall k :: 0 <= k < |a| ==> a[k].Finished?)
            && LexSortedBy(a, StepKey, EnvOf)
  {
    var fin := FinishersFrom(finishStep, finalX, 0);
    var a := Sort(fin, StepKey);
    FinishersRows(finishStep, finalX, 0);
    SortStable(fin, StepKey, EnvOf);
    forall k | 0 <= k < |a| ensures a[k].Finished? {
      assert a[k] in multiset(fin);
      assert a[k] in fin;
    }
  }

  lemma SortedNonFinishers(finishStep: seq<Option<int>>, finalX: seq<real>)
    requires |finalX| == |finishStep|
    ensures var b := Sort(UnfinishedFrom(finishStep, finalX, 0), DescendingXKey);
            && (forall k :: 0 <= k < |b| ==> b[k].Unfinished?)
            && LexSortedBy(b, DescendingXKey, EnvOf)
  {
    var unf := UnfinishedFrom(finishStep, finalX, 0);
    var b := Sort(unf, DescendingXKey);
    NonFinishersRows(finishStep, finalX, 0);
    SortStable(unf, DescendingXKey, EnvOf);
    forall k | 0 <= k < |b| ensures b[k].Unfinished? {
      assert b[k] in multiset(unf);
      assert b[k] in unf;
    }
  }

  /** Sorted finishers followed by sorted non-finishers are in race order. */
  lemma RaceOrderOfParts(a: seq<Entry>, b: seq<Entry>)
    requires forall k :: 0 <= k < |a| ==> a[k].Finished?
    requires forall k :: 0 <= k < |b| ==> b[k].Unfinished?
    requires LexSortedBy(a, StepKey, EnvOf) && LexSortedBy(b, DescendingXKey, EnvOf)
    ensures forall i, j :: 0 <= i < j < |a + b| ==> Ahead((a + b)[i], (a + b)[j])
  {
    var r := a + b;
    forall i, j | 0 <= i < j < |r| ensures Ahead(r[i], r[j]) {
      if j < |a| {
        assert Before(a[i], a[j], StepKey, EnvOf);
      } else if i >= |a| {
        assert Before(b[i - |a|], b[j - |a|], DescendingXKey, EnvOf);
      }
    }
  }

  /** en carries what the step loop recorded for its env. */
  predicate TrackedRow(finishStep: seq<Option<int>>, finalX: seq<real>, en: Entry) {
    && 0 <= en.env < |finishStep|
    && en.env < |finalX|
    && finalX[en.env] == en.x
    && (en.Finished? <==> finishStep[en.env].Some?)
    && (en.Finished? ==> finishStep[en.env] == Some(en.step))
  }

  /** Each row of the ranking carries what the step loop recorded for its
      env. */
  lemma RankingAgreesWithTracking(finishStep: seq<Option<int>>, finalX: seq<real>)
    requires |finalX| == |finishStep|
    ensures forall en :: en in FinalRanking(finishStep, finalX) ==> TrackedRow(finishStep, finalX, en)
  {
    var fin := FinishersFrom(finishStep, finalX, 0);
    var unf := UnfinishedFrom(finishStep, finalX, 0);
    FinishersRows(finishStep, finalX, 0);
    NonFinishersRows(finishStep, finalX, 0);
    forall en | en in FinalRanking(finishStep, finalX)
      ensures TrackedRow(finishStep, finalX, en)
    {
      if en in Sort(fin, StepKey) {
        assert en in multiset(Sort(fin, StepKey));
        assert FinisherRow(finishStep, finalX, 0, en);
      } else {
        assert en in multiset(Sort(unf, DescendingXKey));
        assert NonFinisherRow(finishStep, finalX, 0, en);
      }
    }
  }

  /** [lo, lo + 1, ..., hi - 1] */
  function Range(lo: int, hi: int): (r: seq<int>)
    requires lo <= hi
    ensures |r| == hi - lo
    decreases hi - lo
  {
    if lo == hi then [] else [lo] + Range(lo + 1, hi)
  }

  /** How often env v occurs in a list of rows. */
  function EnvCount(s: seq<Entry>, v: int): nat {
    if s == [] then 0 else (if s[0].env == v then 1 else 0) + EnvCount(s[1..], v)
  }

  lemma {:induction false} EnvCountIsMultiplicity(s: seq<Entry>, v: int)
    ensures EnvCount(s, v) == multiset(Tags(s, EnvOf))[v]
  {
    if s != [] {
      EnvCountIsMultiplicity(s[1..], v);
      assert s == [s[0]] + s[1..];
      TagsCons(s[0], s[1..], EnvOf);
    }
  }

  /** Every env from e on is a finisher or a non-finisher, never both, and
      only once. */
  lemma {:induction false} CountFromOnce(finishStep: seq<Option<int>>, finalX: seq<real>, e: nat, v: int)
    requires |finalX| == |finishStep| && e <= |finishStep|
    ensures EnvCount(FinishersFrom(finishStep, finalX, e), v) + EnvCount(UnfinishedFrom(finishStep, finalX, e), v)
            == if e <= v < |finishStep| then 1 else 0
    decreases |finishStep| - e
  {
    if e < |finishStep| {
      CountFromOnce(finishStep, finalX, e + 1, v);
      var fin := FinishersFrom(finishStep, finalX, e + 1);
      var unf := UnfinishedFrom(finishStep, finalX, e + 1);
      if finishStep[e].Some? {
        var hd := Finished(e, finishStep[e].value, finalX[e]);
        assert FinishersFrom(finishStep, finalX, e) == [hd] + fin;
        assert ([hd] + fin)[1..] == fin;
      } else {
        var hd := Unfinished(e, finalX[e]);
        assert UnfinishedFrom(finishStep, finalX, e) == [hd] + unf;
        assert ([hd] + unf)[1..] == unf;
      }
    }
  }

  lemma TagsCons(hd: Entry, s: seq<Entry>, tag: Entry -> int)
    ensures multiset(Tags([hd] + s, tag)) == multiset{tag(hd)} + multiset(Tags(s, tag))
  {
    assert ([hd] + s)[1..] == s;
  }

  /** Finishers and non-finishers partition the envs: every env appears in
      the ranking exactly once. */
  lemma RankingCoversEachEnvOnce(finishStep: seq<Option<int>>, finalX: seq<real>)
    requires |finalX| == |finishStep|
    ensures |FinalRanking(finishStep, finalX)| == |finishStep|
    ensures multiset(Tags(FinalRanking(finishStep, finalX), EnvOf)) == multiset(Range(0, |finishStep|))
    ensures forall env :: 0 <= env < |finishStep| ==>
              multiset(Tags(FinalRanking(finishStep, finalX), EnvOf))[env] == 1
  {
    var n := |finishStep|;
    var tags := Tags(FinalRanking(finishStep, finalX), EnvOf);
    PartsCoverEnvs(finishStep, finalX);
    RankingTags(finishStep, finalX);
    assert multiset(tags) == multiset(Range(0, n));
    assert |tags| == |multiset(tags)|;
    forall env | 0 <= env < n
      ensures multiset(tags)[env] == 1
    {
      RangeCountsOnce(0, n, env);
    }
  }

  /** The env ids of the finishers and of the non-finishers together are
      0, 1, ..., each once. */
  lemma PartsCoverEnvs(finishStep: seq<Option<int>>, finalX: seq<real>)
    requires |finalX| == |finishStep|
    ensures multiset(Tags(FinishersFrom(finishStep, finalX, 0), EnvOf)) +
            multiset(Tags(UnfinishedFrom(finishStep, finalX, 0), EnvOf)) == multiset(Range(0, |finishStep|))
  {
    var n := |finishStep|;
    var m := multiset(Tags(FinishersFrom(finishStep, finalX, 0), EnvOf)) +
             multiset(Tags(UnfinishedFrom(finishStep, finalX, 0), EnvOf));
    forall v ensures m[v] == multiset(Range(0, n))[v] {
      CountFromOnce(finishStep, finalX, 0, v);
      EnvCountIsMultiplicity(FinishersFrom(finishStep, finalX, 0), v);
      EnvCountIsMultiplicity(UnfinishedFrom(finishStep, finalX, 0), v);
      RangeCountsOnce(0, n, v);
    }
  }

  /** Sorting the two parts and joining them keeps their env ids. */
  lemma RankingTags(finishStep: seq<Option<int>>, finalX: seq<real>)
    requires |finalX| == |finishStep|
    ensures multiset(Tags(FinalRanking(finishStep, finalX), EnvOf)) ==
            multiset(Tags(FinishersFrom(finishStep, finalX, 0), EnvOf)) +
            multiset(Tags(UnfinishedFrom(finishStep, finalX, 0), EnvOf))
  {
    var fin := FinishersFrom(finishStep, finalX, 0);
    var unf := UnfinishedFrom(finishStep, finalX, 0);
    TagsSort(fin, StepKey, EnvOf);
    TagsSort(unf, DescendingXKey, EnvOf);
    TagsAppend(Sort(fin, StepKey), Sort(unf, DescendingXKey), EnvOf);
  }

  lemma {:induction false} RangeCountsOnce(lo: int, hi: int, v: int)
    requires lo <= hi
    ensures multiset(Range(lo, hi))[v] == if lo <= v < hi then 1 else 0
    decreases hi - lo
  {
    if lo < hi {
      RangeCountsOnce(lo + 1, hi, v);
      assert Range(lo, hi) == [lo] + Range(lo + 1, hi);
    }
  }

  // ------------------------------------------------------------------
  // The ledger

  /** The record written for the row at 1-based position `rank`. */
  function LedgerRecord(rank: int, en: Entry): FitnessRecord {
    match en
    case Finished(env, step, x) => FitnessRecord(Some(rank), env, true, Some(step), x)
    case Unfinished(env, x) => FitnessRecord(Some(rank), env, false, None, x)
  }

  function Ledger(ranking: seq<Entry>): (ledger: seq<FitnessRecord>)
    ensures |ledger| == |ranking|
  {
    seq(|ranking|, i requires 0 <= i < |ranking| => LedgerRecord(i + 1, ranking[i]))
  }

  /** The `ranked_list` loop: one record per row, ranks counted from 1. */
  method BuildLedger(ranking: seq<Entry>) returns (rankedList: seq<FitnessRecord>)
    ensures rankedList == Ledger(ranking)
    ensures forall i :: 0 <= i < |rankedList| ==>
              && rankedList[i].rank == Some(i + 1)
              && rankedList[i].envId == ranking[i].env
              && rankedList[i].distance == ranking[i].x
              && (rankedList[i].finished <==> ranking[i].Finished?)
              && (rankedList[i].finished <==> rankedList[i].finishStep.Some?)
  {
    rankedList := [];
    for rank := 1 to |ranking| + 1
      invariant |rankedList| == rank - 1
      invariant forall i :: 0 <= i < rank - 1 ==> rankedList[i] == LedgerRecord(i + 1, ranking[i])
    {
      var record;
      match ranking[rank - 1] {
        case Finished(env, stepFinished, dist) =>
          record := FitnessRecord(Some(rank), env, true, Some(stepFinished), dist);
        case Unfinished(env, dist) =>
          record := FitnessRecord(Some(rank), env, false, None, dist);
      }
      rankedList := rankedList + [record];
    }
  }

  /** The whole race bookkeeping, from the trace to the ledger. */
  method RaceLedger(trace: seq<seq<real>>) returns (rankedList: seq<FitnessRecord>)
    requires IsTrace(trace)
    ensures |rankedList| == NUM_ENVS
    ensures forall i :: 0 <= i < NUM_ENVS ==> rankedList[i].rank == Some(i + 1)
    ensures multiset(Tags(rankedList, EnvIdOf)) == multiset(Range(0, NUM_ENVS))
    ensures forall i :: 0 <= i < |rankedList| ==> RecordAgreesWithTrace(trace, rankedList[i])
    ensures forall i, j :: 0 <= i < j < |rankedList| ==> RecordAhead(rankedList[i], rankedList[j])
  {
    var finishStep, finalX := TrackRace(trace);
    var ranking := FinalRanking(finishStep, finalX);
    rankedList := BuildLedger(ranking);
    RankingCoversEachEnvOnce(finishStep, finalX);
    LedgerEnvs(ranking);
    RankingAgreesWithTracking(finishStep, finalX);
    LedgerAgreesWithTrace(trace, finishStep, finalX, ranking);
    RankingInRaceOrder(finishStep, finalX);
    LedgerInRaceOrder(ranking);
  }

  /** The race order read off two ledger records: finished records first, by
      finish step; then unfinished ones, by greatest distance; ties by env
      id. */
  predicate RecordAhead(a: FitnessRecord, b: FitnessRecord) {
    || (a.finished && !b.finished)
    || (a.finished && b.finished && a.finishStep.Some? && b.finishStep.Some? &&
        (a.finishStep.value < b.finishStep.value ||
         (a.finishStep.value == b.finishStep.value && a.envId < b.envId)))
    || (!a.finished && !b.finished &&
        (a.distance > b.distance || (a.distance == b.distance && a.envId < b.envId)))
  }

  /** A ranking in race order gives a ledger in race order. */
  lemma LedgerInRaceOrder(ranking: seq<Entry>)
    requires forall i, j :: 0 <= i < j < |ranking| ==> Ahead(ranking[i], ranking[j])
    ensures var ledger := Ledger(ranking);
            forall i, j :: 0 <= i < j < |ledger| ==> RecordAhead(ledger[i], ledger[j])
  {
    var ledger := Ledger(ranking);
    forall i, j | 0 <= i < j < |ledger| ensures RecordAhead(ledger[i], ledger[j]) {
      assert Ahead(ranking[i], ranking[j]);
      assert ledger[i] == LedgerRecord(i + 1, ranking[i]);
      assert ledger[j] == LedgerRecord(j + 1, ranking[j]);
    }
  }

  /** A ledger record says what the trace shows for its robot: the first
      step at the line (or none), and the last position. */
  predicate RecordAgreesWithTrace(trace: seq<seq<real>>, r: FitnessRecord)
    requires IsTrace(trace)
  {
    && 0 <= r.envId < NUM_ENVS
    && FirstCrossingWithin(trace, r.envId, NUM_STEPS, r.finishStep)
    && (r.finished <==> r.finishStep.Some?)
    && r.distance == trace[NUM_STEPS - 1][r.envId]
  }

  /** A ledger built from rows that carry what the step loop recorded, when
      the step loop recorded what the trace shows, says what the trace
      shows. */
  lemma LedgerAgreesWithTrace(trace: seq<seq<real>>, finishStep: seq<Option<int>>, finalX: seq<real>,
                              ranking: seq<Entry>)
    requires IsTrace(trace)
    requires |finishStep| == NUM_ENVS && |finalX| == NUM_ENVS
    requires forall env :: 0 <= env < NUM_ENVS ==> FirstCrossingWithin(trace, env, |trace|, finishStep[env])
    requires forall env :: 0 <= env < NUM_ENVS ==> finalX[env] == trace[|trace| - 1][env]
    requires forall en :: en in ranking ==> TrackedRow(finishStep, finalX, en)
    ensures var ledger := Ledger(ranking);
            forall i :: 0 <= i < |ledger| ==> RecordAgreesWithTrace(trace, ledger[i])
  {
    var ledger := Ledger(ranking);
    forall i | 0 <= i < |ledger|
      ensures RecordAgreesWithTrace(trace, ledger[i])
    {
      var en := ranking[i];
      assert en in ranking;
      RowAgreesWithTrace(trace, finishStep, finalX, en, i + 1);
      assert ledger[i] == LedgerRecord(i + 1, en);
    }
  }

  lemma RowAgreesWithTrace(trace: seq<seq<real>>, finishStep: seq<Option<int>>, finalX: seq<real>, en: Entry, rank: int)
    requires IsTrace(trace)
    requires |finishStep| == NUM_ENVS && |finalX| == NUM_ENVS
    requires TrackedRow(finishStep, finalX, en)
    requires FirstCrossingWithin(trace, en.env, |trace|, finishStep[en.env])
    requires finalX[en.env] == trace[|trace| - 1][en.env]
    ensures RecordAgreesWithTrace(trace, LedgerRecord(rank, en))
  {
  }

  lemma LedgerEnvs(ranking: seq<Entry>)
    ensures Tags(Ledger(ranking), EnvIdOf) == Tags(ranking, EnvOf)
  {
    forall i | 0 <= i < |ranking|
      ensures Tags(Ledger(ranking), EnvIdOf)[i] == Tags(ranking, EnvOf)[i]
    {
      TagsAt(Ledger(ranking), EnvIdOf, i);
      TagsAt(ranking, EnvOf, i);
    }
  }
}
