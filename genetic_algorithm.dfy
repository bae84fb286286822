/** One generational step of the tire optimiser: pick the two best-ranked
    individuals of the race ledger as parents, breed ten children by
    single-point crossover and per-gene Gaussian mutation, replace the
    population file and advance the generation counter.

    The random draws are parameters: a crossover point per child, the value of
    `random.random()` per gene (the gene mutates when it is below the rate) and
    the value drawn from `np.random.normal` per gene. */
module GeneticAlgorithm {
  import opened Numbers
  import opened Ordering
  import opened Fitness

  /** outer_radius, axial_width, tread_count, tread_width, tread_depth */
  const GENES := 5
  /** The position of tread_count, the gene kept whole. */
  const TREAD_COUNT := 2
  const POPULATION_SIZE := 10
  const MUTATION_RATE := 0.2

  type Chromosome = seq<real>

  datatype GaError =
    | InsufficientRankedResults   // fewer than two ranked records: `exit(1)`
    | ParentIndexOutOfRange       // `chromosomes[env_id]` raises IndexError

  datatype Result<T> = Ok(value: T) | Err(error: GaError)

  /** The shape the population file has and that the operators rely on:
      five genes, none negative (numpy refuses a negative noise scale). */
  predicate WellFormed(c: Chromosome) {
    |c| == GENES && forall i :: 0 <= i < |c| ==> c[i] >= 0.0
  }

  /** Five positive genes with a whole tread count: the shape the offspring
      keep when the parents have it. */
  predicate ValidChromosome(c: Chromosome) {
    |c| == GENES && (forall i :: 0 <= i < |c| ==> c[i] > 0.0) && IsIntegral(c[TREAD_COUNT])
  }

  // ------------------------------------------------------------------
  // Selection

  /** `[r for r in fitness_results if "rank" in r]` */
  function Ranked(ledger: seq<FitnessRecord>): (r: seq<FitnessRecord>)
    ensures |r| <= |ledger|
    ensures forall x :: x in r <==> x in ledger && x.rank.Some?
  {
    if ledger == [] then []
    else
      assert ledger == [ledger[0]] + ledger[1..];
      (if ledger[0].rank.Some? then [ledger[0]] else []) + Ranked(ledger[1..])
  }

  /** The filter keeps the ledger's order and its repeated records: filtering
      a concatenation filters each part and joins the results. */
  lemma {:induction false} RankedAppend(a: seq<FitnessRecord>, b: seq<FitnessRecord>)
    ensures Ranked(a + b) == Ranked(a) + Ranked(b)
  {
    if a == [] {
      assert a + b == b;
    } else {
      var head := if a[0].rank.Some? then [a[0]] else [];
      calc {
        Ranked(a + b);
        { assert (a + b)[0] == a[0] && (a + b)[1..] == a[1..] + b; }
        head + Ranked(a[1..] + b);
        { RankedAppend(a[1..], b); }
        head + (Ranked(a[1..]) + Ranked(b));
        (head + Ranked(a[1..])) + Ranked(b);
      }
    }
  }

  /** The sort key `x["rank"]`; only ever applied to ranked records. */
  function RankKey(r: FitnessRecord): real {
    match r.rank
    case Some(k) => k as real
    case None => 0.0
  }

  /** The env ids of the first two records of the ranked records sorted by
      rank, or the abort when there are fewer than two. */
  function SelectParents(ledger: seq<FitnessRecord>): (res: Result<(int, int)>)
    ensures res.Err? <==> |Ranked(ledger)| < 2
    ensures res.Err? ==> res.error == InsufficientRankedResults
  {
    var ranked := Sort(Ranked(ledger), RankKey);
    if |ranked| < 2 then Err(InsufficientRankedResults)
    else Ok((ranked[0].envId, ranked[1].envId))
  }

  /** Parent 1 is the first ranked record of least rank; parent 2 is the
      first record of least rank among the other ranked records. */
  lemma SelectParentsAreTopTwo(ledger: seq<FitnessRecord>) returns (i: nat, j: nat)
    requires |Ranked(ledger)| >= 2
    ensures var R := Ranked(ledger);
            && i < |R| && j < |R| && i != j
            && SelectParents(ledger) == Ok((R[i].envId, R[j].envId))
            && (forall k :: 0 <= k < |R| ==> R[i].rank.value <= R[k].rank.value)
            && (forall k :: 0 <= k < i ==> R[i].rank.value < R[k].rank.value)
            && (forall k :: 0 <= k < |R| && k != i ==> R[j].rank.value <= R[k].rank.value)
            && (forall k :: 0 <= k < j && k != i ==> R[j].rank.value < R[k].rank.value)
  {
    var R := Ranked(ledger);
    forall k | 0 <= k < |R| ensures R[k].rank.Some? && RankKey(R[k]) == R[k].rank.value as real {
      assert R[k] in R;
    }
    i, j := SortFirstTwo(R, RankKey);
  }

  // ------------------------------------------------------------------
  // Parent lookup

  /** `list(chromosomes[env_id])` for a non-negative id. */
  function LookupParent(population: seq<Chromosome>, envId: nat): (r: Result<Chromosome>)
    ensures r.Ok? <==> envId < |population|
    ensures r.Ok? ==> r.value == population[envId]
    ensures r.Err? ==> r.error == ParentIndexOutOfRange
  {
    if envId < |population| then Ok(population[envId]) else Err(ParentIndexOutOfRange)
  }

  // ------------------------------------------------------------------
  // Variation operators

  /** Python's slice `s[k:]` for k >= 0: empty once k passes the end. */
  function Drop(s: seq<real>, k: nat): (r: seq<real>)
    ensures |r| == if k <= |s| then |s| - k else 0
    ensures forall i :: 0 <= i < |r| ==> r[i] == s[k + i]
  {
    if k <= |s| then s[k..] else []
  }

  /** `crossover(p1, p2)` for the drawn point `random.randint(1, len(p1) - 1)`. */
  function Crossover(p1: Chromosome, p2: Chromosome, point: int): (child: Chromosome)
    requires 1 <= point <= |p1| - 1
    requires TREAD_COUNT < point + |Drop(p2, point)|
    ensures |child| == point + |Drop(p2, point)|
  {
    var child := p1[..point] + Drop(p2, point);
    child[TREAD_COUNT := RoundHalfEven(child[TREAD_COUNT]) as real]
  }

  /** The child takes p1's genes before the point and p2's from it on, except
      the tread count, which is the rounded tread count of the parent it
      comes from. */
  lemma CrossoverGenes(p1: Chromosome, p2: Chromosome, point: int)
    requires 1 <= point <= |p1| - 1
    requires TREAD_COUNT < point + |Drop(p2, point)|
    ensures var child := Crossover(p1, p2, point);
            && (point <= |p2| ==> |child| == |p2|)
            && (forall i :: 0 <= i < point && i != TREAD_COUNT ==> child[i] == p1[i])
            && (forall i :: point <= i < |child| && i != TREAD_COUNT ==> child[i] == p2[i])
            && child[TREAD_COUNT] ==
                 RoundHalfEven(if TREAD_COUNT < point then p1[TREAD_COUNT] else p2[TREAD_COUNT]) as real
            && IsIntegral(child[TREAD_COUNT])
  {
  }

  /** Python's `max(1, v)`. */
  function AtLeastOne(v: real): (r: real)
    ensures r >= 1.0 && r >= v
    ensures r == v || r == 1.0
  {
    if v > 1.0 then v else 1.0
  }

  /** The fate of gene i of `mutate`: unchanged unless its draw falls below
      the rate; then the noise is added, the sum clamped at 1, and the tread
      count rounded. */
  function MutatedGene(i: int, g: real, draw: real, noise: real): (r: real)
    ensures draw >= MUTATION_RATE ==> r == g
    ensures draw < MUTATION_RATE ==> r >= 1.0
    ensures draw < MUTATION_RATE && i != TREAD_COUNT ==> r == AtLeastOne(g + noise)
    ensures draw < MUTATION_RATE && i == TREAD_COUNT ==>
              IsIntegral(r) && r as int == RoundHalfEven(AtLeastOne(g + noise))
  {
    if draw < MUTATION_RATE then
      var v := AtLeastOne(g + noise);
      if i == TREAD_COUNT then
        RoundAtLeast(v, 1);
        RoundHalfEven(v) as real
      else v
    else g
  }

  /** What `mutate` returns, gene by gene. */
  function Mutation(c: Chromosome, draws: seq<real>, noise: seq<real>): (m: Chromosome)
    requires |draws| == |c| && |noise| == |c|
    ensures |m| == |c|
  {
    seq(|c|, i requires 0 <= i < |c| => MutatedGene(i, c[i], draws[i], noise[i]))
  }

  /** A gene whose draw does not trigger is kept; one that triggers ends at
      least 1; the tread count stays whole. */
  lemma MutationGenes(c: Chromosome, draws: seq<real>, noise: seq<real>)
    requires |draws| == |c| && |noise| == |c|
    ensures var m := Mutation(c, draws, noise);
            && (forall i :: 0 <= i < |c| && draws[i] >= MUTATION_RATE ==> m[i] == c[i])
            && (forall i :: 0 <= i < |c| && draws[i] < MUTATION_RATE ==> m[i] >= 1.0)
            && (TREAD_COUNT < |c| && draws[TREAD_COUNT] < MUTATION_RATE ==> IsIntegral(m[TREAD_COUNT]))
            && (TREAD_COUNT < |c| && IsIntegral(c[TREAD_COUNT]) ==> IsIntegral(m[TREAD_COUNT]))
  {
  }

  /** `mutate(chromosome)`: copies the list and overwrites the genes whose
      draw triggers. */
  method Mutate(c: Chromosome, draws: seq<real>, noise: seq<real>) returns (mutated: Chromosome)
    requires |draws| == |c| && |noise| == |c|
    requires forall i :: 0 <= i < |c| ==> 0.0 <= draws[i] < 1.0
    requires forall i :: 0 <= i < |c| && draws[i] < MUTATION_RATE ==> c[i] >= 0.0
    ensures mutated == Mutation(c, draws, noise)
  {
    mutated := c;
    for i := 0 to |mutated|
      invariant |mutated| == |c|
      invariant forall j :: 0 <= j < i ==> mutated[j] == MutatedGene(j, c[j], draws[j], noise[j])
      invariant forall j :: i <= j < |c| ==> mutated[j] == c[j]
    {
      if draws[i] < MUTATION_RATE {
        mutated := mutated[i := AtLeastOne(mutated[i] + noise[i])];
        if i == TREAD_COUNT {
          mutated := mutated[i := RoundHalfEven(mutated[i]) as real];
        }
      }
    }
  }

  /** One child of the offspring loop: crossover, mutation, then the second
      rounding of the tread count. */
  function Offspring(p1: Chromosome, p2: Chromosome, point: int, draws: seq<real>, noise: seq<real>)
    : (child: Chromosome)
    requires 1 <= point <= |p1| - 1
    requires TREAD_COUNT < point + |Drop(p2, point)|
    requires |draws| == point + |Drop(p2, point)| && |noise| == |draws|
    ensures |child| == |draws|
  {
    var m := Mutation(Crossover(p1, p2, point), draws, noise);
    m[TREAD_COUNT := RoundHalfEven(m[TREAD_COUNT]) as real]
  }

  /** A child has a whole tread count; a gene whose draw triggered is at
      least 1, and every other gene but the tread count is the gene of the
      parent on its side of the crossover point. */
  lemma OffspringGenes(p1: Chromosome, p2: Chromosome, point: int, draws: seq<real>, noise: seq<real>)
    requires 1 <= point <= |p1| - 1
    requires TREAD_COUNT < point + |Drop(p2, point)|
    requires |draws| == point + |Drop(p2, point)| && |noise| == |draws|
    ensures var child := Offspring(p1, p2, point, draws, noise);
            && IsIntegral(child[TREAD_COUNT])
            && (forall i :: 0 <= i < |child| && draws[i] < MUTATION_RATE ==> child[i] >= 1.0)
            && (forall i :: 0 <= i < |child| && i != TREAD_COUNT && draws[i] >= MUTATION_RATE ==>
                  child[i] == if i < point then p1[i] else p2[i])
  {
    CrossoverGenes(p1, p2, point);
    MutationGenes(Crossover(p1, p2, point), draws, noise);
    FinalRoundingIsNoOp(p1, p2, point, draws, noise);
  }

  /** Crossover and mutation already leave the tread count whole, so the
      final rounding of the offspring loop changes nothing. */
  lemma FinalRoundingIsNoOp(p1: Chromosome, p2: Chromosome, point: int, draws: seq<real>, noise: seq<real>)
    requires 1 <= point <= |p1| - 1
    requires TREAD_COUNT < point + |Drop(p2, point)|
    requires |draws| == point + |Drop(p2, point)| && |noise| == |draws|
    ensures Offspring(p1, p2, point, draws, noise) == Mutation(Crossover(p1, p2, point), draws, noise)
  {
    var m := Mutation(Crossover(p1, p2, point), draws, noise);
    CrossoverGenes(p1, p2, point);
    MutationGenes(Crossover(p1, p2, point), draws, noise);
    RoundIntegral(m[TREAD_COUNT]);
    assert m[TREAD_COUNT := RoundHalfEven(m[TREAD_COUNT]) as real] == m;
  }

  /** Children of valid parents are valid: five positive genes, whole tread
      count. */
  lemma OffspringValid(p1: Chromosome, p2: Chromosome, point: int, draws: seq<real>, noise: seq<real>)
    requires ValidChromosome(p1) && ValidChromosome(p2)
    requires 1 <= point < GENES
    requires |draws| == GENES && |noise| == GENES
    ensures ValidChromosome(Offspring(p1, p2, point, draws, noise))
  {
    var x := Crossover(p1, p2, point);
    CrossoverGenes(p1, p2, point);
    RoundIntegral(if TREAD_COUNT < point then p1[TREAD_COUNT] else p2[TREAD_COUNT]);
    assert forall i :: 0 <= i < GENES ==> x[i] == if i < point then p1[i] else p2[i];
    MutationGenes(x, draws, noise);
    FinalRoundingIsNoOp(p1, p2, point, draws, noise);
  }

  /** The random values one generation consumes: ten crossover points in
      [1, 4], and per child five `random.random()` draws in [0, 1) and five
      noise values. */
  predicate RandomnessFor(points: seq<int>, draws: seq<seq<real>>, noise: seq<seq<real>>) {
    && |points| == POPULATION_SIZE && |draws| == POPULATION_SIZE && |noise| == POPULATION_SIZE
    && (forall i :: 0 <= i < POPULATION_SIZE ==> 1 <= points[i] <= GENES - 1)
    && (forall i :: 0 <= i < POPULATION_SIZE ==> |draws[i]| == GENES && |noise[i]| == GENES)
    && (forall i, j :: 0 <= i < POPULATION_SIZE && 0 <= j < GENES ==> 0.0 <= draws[i][j] < 1.0)
  }

  /** The new population: ten children of the same two parents, in order. */
  function NextPopulation(p1: Chromosome, p2: Chromosome, points: seq<int>, draws: seq<seq<real>>,
                          noise: seq<seq<real>>): seq<Chromosome>
    requires WellFormed(p1) && WellFormed(p2)
    requires RandomnessFor(points, draws, noise)
  {
    seq(POPULATION_SIZE, i requires 0 <= i < POPULATION_SIZE => Offspring(p1, p2, points[i], draws[i], noise[i]))
  }

  /** Ten children, each of five non-negative genes with a whole tread count;
      valid parents give only valid children. */
  lemma NextPopulationWellFormed(p1: Chromosome, p2: Chromosome, points: seq<int>, draws: seq<seq<real>>,
                                 noise: seq<seq<real>>)
    requires WellFormed(p1) && WellFormed(p2)
    requires RandomnessFor(points, draws, noise)
    ensures |NextPopulation(p1, p2, points, draws, noise)| == POPULATION_SIZE
    ensures forall c :: c in NextPopulation(p1, p2, points, draws, noise) ==> WellFormed(c) && IsIntegral(c[TREAD_COUNT])
    ensures ValidChromosome(p1) && ValidChromosome(p2) ==>
              forall c :: c in NextPopulation(p1, p2, points, draws, noise) ==> ValidChromosome(c)
  {
    var pop := NextPopulation(p1, p2, points, draws, noise);
    forall i | 0 <= i < POPULATION_SIZE
      ensures WellFormed(pop[i]) && IsIntegral(pop[i][TREAD_COUNT])
      ensures ValidChromosome(p1) && ValidChromosome(p2) ==> ValidChromosome(pop[i])
    {
      ChildWellFormed(p1, p2, points[i], draws[i], noise[i]);
      if ValidChromosome(p1) && ValidChromosome(p2) {
        OffspringValid(p1, p2, points[i], draws[i], noise[i]);
      }
    }
  }

  /** Children of well-formed parents are well-formed, with a whole tread
      count. */
  lemma ChildWellFormed(p1: Chromosome, p2: Chromosome, point: int, draws: seq<real>, noise: seq<real>)
    requires WellFormed(p1) && WellFormed(p2)
    requires 1 <= point < GENES
    requires |draws| == GENES && |noise| == GENES
    ensures WellFormed(Offspring(p1, p2, point, draws, noise))
    ensures IsIntegral(Offspring(p1, p2, point, draws, noise)[TREAD_COUNT])
  {
    var x := Crossover(p1, p2, point);
    CrossoverGenes(p1, p2, point);
    RoundAtLeast(if TREAD_COUNT < point then p1[TREAD_COUNT] else p2[TREAD_COUNT], 0);
    assert forall i :: 0 <= i < GENES ==> x[i] >= 0.0;
    OffspringGenes(p1, p2, point, draws, noise);
    MutationGenes(x, draws, noise);
    FinalRoundingIsNoOp(p1, p2, point, draws, noise);
  }

  /** The offspring loop: builds the children one by one and appends them. */
  method BreedOffspring(p1: Chromosome, p2: Chromosome, points: seq<int>, draws: seq<seq<real>>,
                        noise: seq<seq<real>>) returns (newPopulation: seq<Chromosome>)
    requires WellFormed(p1) && WellFormed(p2)
    requires RandomnessFor(points, draws, noise)
    ensures newPopulation == NextPopulation(p1, p2, points, draws, noise)
  {
    ghost var next := NextPopulation(p1, p2, points, draws, noise);
    newPopulation := [];
    for i := 0 to POPULATION_SIZE
      invariant newPopulation == next[..i]
    {
      var child := BreedChild(p1, p2, points[i], draws[i], noise[i]);
      assert next[..i + 1] == next[..i] + [child];
      newPopulation := newPopulation + [child];
    }
    assert next[..POPULATION_SIZE] == next;
  }

  /** The body of the offspring loop: `crossover`, `mutate`, then round the
      tread count once more. */
  method BreedChild(p1: Chromosome, p2: Chromosome, point: int, draws: seq<real>, noise: seq<real>)
    returns (child: Chromosome)
    requires WellFormed(p1) && WellFormed(p2)
    requires 1 <= point < GENES
    requires |draws| == GENES && |noise| == GENES
    requires forall j :: 0 <= j < GENES ==> 0.0 <= draws[j] < 1.0
    ensures child == Offspring(p1, p2, point, draws, noise)
  {
    child := Crossover(p1, p2, point);
    assert forall j :: 0 <= j < GENES ==> child[j] >= 0.0 by {
      CrossoverGenes(p1, p2, point);
      RoundAtLeast(if TREAD_COUNT < point then p1[TREAD_COUNT] else p2[TREAD_COUNT], 0);
    }
    child := Mutate(child, draws, noise);
    child := child[TREAD_COUNT := RoundHalfEven(child[TREAD_COUNT]) as real];
  }

  // ------------------------------------------------------------------
  // The generation counter file

  /** What the step reads as the current generation: 0 when the file is
      missing or has no "generation" key. */
  function StoredGeneration(file: Option<map<string, int>>): (g: int)
    ensures file.None? ==> g == 0
    ensures file.Some? && "generation" !in file.value ==> g == 0
    ensures file.Some? && "generation" in file.value ==> g == file.value["generation"]
  {
    match file
    case None => 0
    case Some(data) => if "generation" in data then data["generation"] else 0
  }

  /** The files of the `cycle_updates` directory that the step touches. */
  datatype Artifact = ChromosomesFile | GenerationFile

  class CycleUpdates {
    var fitnessResults: seq<FitnessRecord>
    var chromosomes: seq<Chromosome>
    /** None when `current_generation.json` does not exist. */
    var generationFile: Option<map<string, int>>
    /** The files written so far, in order. */
    ghost var written: seq<Artifact>

    constructor (fitnessResults: seq<FitnessRecord>, chromosomes: seq<Chromosome>,
                 generationFile: Option<map<string, int>>)
      ensures this.fitnessResults == fitnessResults && this.chromosomes == chromosomes
      ensures this.generationFile == generationFile && written == []
    {
      this.fitnessResults := fitnessResults;
      this.chromosomes := chromosomes;
      this.generationFile := generationFile;
      written := [];
    }

    /** Read the counter (0 on a missing file or key), add one, write it back. */
    method UpdateGenerationCounter() returns (nextGen: int)
      modifies this
      ensures nextGen == StoredGeneration(old(generationFile)) + 1
      ensures generationFile == Some(map["generation" := nextGen])
      ensures StoredGeneration(generationFile) == StoredGeneration(old(generationFile)) + 1
      ensures written == old(written) + [GenerationFile]
      ensures fitnessResults == old(fitnessResults) && chromosomes == old(chromosomes)
    {
      var currentGen: int;
      match generationFile {
        case None =>
          currentGen := 0;
        case Some(genData) =>
          currentGen := if "generation" in genData then genData["generation"] else 0;
      }
      nextGen := currentGen + 1;
      generationFile := Some(map["generation" := nextGen]);
      written := written + [GenerationFile];
    }

    /** The whole script: select, look up the parents, breed, write the
        chromosomes, then the counter. An abort writes nothing. */
    method RunGeneration(points: seq<int>, draws: seq<seq<real>>, noise: seq<seq<real>>)
      returns (result: Result<int>)
      requires RandomnessFor(points, draws, noise)
      requires forall r :: r in fitnessResults && r.rank.Some? ==> r.envId >= 0
      requires forall c :: c in chromosomes ==> WellFormed(c)
      modifies this
      ensures fitnessResults == old(fitnessResults)
      ensures SelectParents(fitnessResults).Err? ==> result == Err(InsufficientRankedResults)
      ensures result.Err? ==>
                chromosomes == old(chromosomes) && generationFile == old(generationFile) && written == old(written)
      ensures SelectParents(fitnessResults).Ok? ==>
                var (a, b) := SelectParents(fitnessResults).value;
                result.Ok? <==> a < |old(chromosomes)| && b < |old(chromosomes)|
      ensures SelectParents(fitnessResults).Ok? && result.Err? ==> result.error == ParentIndexOutOfRange
      ensures result.Ok? ==>
                var (a, b) := SelectParents(fitnessResults).value;
                && 0 <= a < |old(chromosomes)| && 0 <= b < |old(chromosomes)|
                && chromosomes == NextPopulation(old(chromosomes)[a], old(chromosomes)[b], points, draws, noise)
                && result.value == StoredGeneration(old(generationFile)) + 1
                && generationFile == Some(map["generation" := result.value])
                && written == old(written) + [ChromosomesFile, GenerationFile]
      ensures result.Ok? ==> forall c :: c in chromosomes ==> WellFormed(c)
    {
      var parents := SelectParents(fitnessResults);
      if parents.Err? {
        return Err(InsufficientRankedResults);
      }
      var (id1, id2) := parents.value;
      var i, j := SelectParentsAreTopTwo(fitnessResults);
      assert id1 >= 0 && id2 >= 0 by {
        var R := Ranked(fitnessResults);
        assert R[i] in R && R[j] in R;
      }
      var parent1 := LookupParent(chromosomes, id1);
      if parent1.Err? {
        return Err(ParentIndexOutOfRange);
      }
      var parent2 := LookupParent(chromosomes, id2);
      if parent2.Err? {
        return Err(ParentIndexOutOfRange);
      }
      var newPopulation := BreedOffspring(parent1.value, parent2.value, points, draws, noise);
      NextPopulationWellFormed(parent1.value, parent2.value, points, draws, noise);
      chromosomes := newPopulation;
      written := written + [ChromosomesFile];
      var nextGen := UpdateGenerationCounter();
      result := Ok(nextGen);
    }
  }
}
