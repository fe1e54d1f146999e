/** Small failure-carrying datatypes shared by the other modules. */
module Wrappers {

  datatype Option<+T> = None | Some(value: T)

  /** Why a round of the colony stopped before its pheromone update. */
  datatype Failure =
    | NoSelectableCity      // every desirability was zero: `.index(True)` found nothing
    | UnsupportedMethod     // the update-rule name is none of the four known ones
    | EmptyColony           // no ants: `length.min()` of an empty array

  datatype Outcome = Pass | Fail(error: Failure)
}
