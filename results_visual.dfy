/** The per-generation summary behind the progress plot: for each of the
    first NUM_GENERATIONS entries of `fitness_history.json`, the generation
    number and the finish step and distance of the best robot, or nothing
    when no robot of that generation finished. The plot itself is not
    modelled. */
module ResultsVisual {
  import opened Ordering
  import opened Fitness

  const NUM_GENERATIONS := 20

  /** One entry of the history file: a generation number and its ledger. */
  datatype Generation = Generation(generation: int, results: seq<FitnessRecord>)

  /** A record that may be the best one: it finished and has a finish step. */
  predicate IsCandidate(r: FitnessRecord) {
    r.finished && r.finishStep.Some?
  }

  /** The comprehension keeping the candidates, in ledger order. */
  function Candidates(rs: seq<FitnessRecord>): (c: seq<FitnessRecord>)
    ensures |c| <= |rs|
    ensures forall r :: r in c <==> r in rs && IsCandidate(r)
  {
    if rs == [] then []
    else (if IsCandidate(rs[0]) then [rs[0]] else []) + Candidates(rs[1..])
  }

  /** The key of `min`: the finish step. */
  function StepOf(r: FitnessRecord): real {
    if r.finishStep.Some? then r.finishStep.value as real else 0.0
  }

  /** `min(finished, key=finish_step)`, or None when nothing finished. */
  function Best(rs: seq<FitnessRecord>): (b: Option<FitnessRecord>)
    ensures b.None? <==> forall r :: r in rs ==> !IsCandidate(r)
    ensures b.Some? ==> b.value in rs && IsCandidate(b.value)
    ensures b.Some? ==> forall r :: r in rs && IsCandidate(r) ==>
              b.value.finishStep.value <= r.finishStep.value
  {
    var c := Candidates(rs);
    if c == [] then None
    else
      var b := c[FirstMin(c, StepOf)];
      assert b in c;
      Some(b)
  }

  /** On a tie `min` keeps the earliest record: the best record sits at an
      index k of the ledger, and every candidate before k finished strictly
      later. */
  lemma BestIsEarliestLeast(rs: seq<FitnessRecord>) returns (k: nat)
    requires Best(rs).Some?
    ensures k < |rs| && rs[k] == Best(rs).value
    ensures forall j :: 0 <= j < k && IsCandidate(rs[j]) ==>
              rs[j].finishStep.value > rs[k].finishStep.value
  {
    k := FirstMinOfCandidates(rs);
  }

  lemma {:induction false} FirstMinOfCandidates(rs: seq<FitnessRecord>) returns (k: nat)
    requires Candidates(rs) != []
    ensures k < |rs| && rs[k] == Candidates(rs)[FirstMin(Candidates(rs), StepOf)]
    ensures forall j :: 0 <= j < k && IsCandidate(rs[j]) ==> StepOf(rs[j]) > StepOf(rs[k])
  {
    var c := Candidates(rs);
    var rest := Candidates(rs[1..]);
    if !IsCandidate(rs[0]) {
      assert c == rest;
      var k' := FirstMinOfCandidates(rs[1..]);
      k := k' + 1;
    } else {
      assert c == [rs[0]] + rest;
      assert c[1..] == rest;
      if rest == [] {
        k := 0;
      } else if StepOf(rs[0]) <= StepOf(c[1 + FirstMin(rest, StepOf)]) {
        k := 0;
      } else {
        var k' := FirstMinOfCandidates(rs[1..]);
        k := k' + 1;
      }
    }
  }

  function Min(a: int, b: int): int {
    if a <= b then a else b
  }

  /** One point of the plot: the generation number, and the finish step and
      distance of the generation's best record, or None twice. */
  predicate Summarizes(gen: Generation, generation: int, step: Option<int>, distance: Option<real>) {
    && generation == gen.generation
    && match Best(gen.results)
       case None => step.None? && distance.None?
       case Some(b) => step == b.finishStep && distance == Some(b.distance)
  }

  /** The loop over `history[:NUM_GENERATIONS]` filling the three plotted
      lists. */
  method Summarize(history: seq<Generation>)
    returns (generations: seq<int>, bestSteps: seq<Option<int>>, bestDistances: seq<Option<real>>)
    ensures |generations| == Min(|history|, NUM_GENERATIONS)
    ensures |bestSteps| == |generations| && |bestDistances| == |generations|
    ensures forall i :: 0 <= i < |generations| ==>
              Summarizes(history[i], generations[i], bestSteps[i], bestDistances[i])
  {
    generations, bestSteps, bestDistances := [], [], [];
    for g := 0 to Min(|history|, NUM_GENERATIONS)
      invariant |generations| == g && |bestSteps| == g && |bestDistances| == g
      invariant forall i :: 0 <= i < g ==>
                  Summarizes(history[i], generations[i], bestSteps[i], bestDistances[i])
    {
      var gen := history[g];
      var step, distance;
      var finished := Candidates(gen.results);
      if finished != [] {
        var best := finished[FirstMin(finished, StepOf)];
        step, distance := best.finishStep, Some(best.distance);
      } else {
        step, distance := None, None;
      }
      assert Summarizes(gen, gen.generation, step, distance);
      generations := generations + [gen.generation];
      bestSteps := bestSteps + [step];
      bestDistances := bestDistances + [distance];
    }
  }
}
