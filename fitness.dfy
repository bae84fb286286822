/** The record shape of `fitness_results.json`, written by the race and read
    by the genetic algorithm and by the per-generation summary. */
module Fitness {

  /** Python's `None` or a value. */
  datatype Option<T> = None | Some(value: T)

  /** One entry of the ledger. `rank` is None when the record carries no
      "rank" key; `finishStep` is None for JSON null. */
  datatype FitnessRecord = FitnessRecord(
    rank: Option<int>,
    envId: int,
    finished: bool,
    finishStep: Option<int>,
    distance: real
  )

  function EnvIdOf(r: FitnessRecord): int {
    r.envId
  }
}
