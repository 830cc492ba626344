/**
 * ExercisePath: a scored, not yet executed proposal to move one ring to one pin.
 * In the solver's arenas the destination is a pin index and `from` is a ring index.
 */
module ExercisePaths {

  datatype ExercisePath = ExercisePath(weight: int, destination: nat, from: nat)

  /** Paths kept in ascending order of weight (the order RingNode keeps its pending paths in). */
  predicate SortedByWeight(paths: seq<ExercisePath>)
  {
    forall i, j | 0 <= i < j < |paths| :: paths[i].weight <= paths[j].weight
  }

  /** No two paths lead to the same pin. */
  predicate DistinctDestinations(paths: seq<ExercisePath>)
  {
    forall i, j | 0 <= i < j < |paths| :: paths[i].destination != paths[j].destination
  }

}
