/** What the extractors return, and the exceptions they raise. */
module ExtractionResult {
  import opened Model
  import opened Json

  datatype Extracted<+T> = Ok(value: T) | Error(failure: Failure)

  datatype Failure =
    | UnequalSlices
    | MissingSlice
    | UnknownProject
    | UnknownResource
    | UnknownProperty
    | MultipleValues
    | NoValue
    | EmptyIdentity
    | NoElementToRename

  /** One element of an extracted identity; the value is None where the code leaves `undefined`. */
  datatype Pair = Pair(key: string, value: Option<Json>)
}
