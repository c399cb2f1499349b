/** Shared vocabulary of the model. */
module Common {

  /** `None` stands for a JavaScript `null`, `undefined` or a blank input field. */
  datatype Option<+T> = None | Some(value: T)

  /** A snapshot of the sorting pages: a copy of the array and the positions
      drawn highlighted. */
  datatype SortStep<T> = SortStep(arr: seq<T>, highlight: seq<nat>)
}
