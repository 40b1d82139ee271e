/** Shared result types of the symptom-to-recommendation pipeline. */
module Common {

  /** A value that may be missing: a nullable table cell, or a rejected input. */
  datatype Option<T> = None | Some(value: T)

  /** The outcome of a step that can fail with an error of type E. */
  datatype Result<T, E> = Ok(value: T) | Err(error: E)

  /** The two ways the pipeline fails instead of answering. */
  datatype Fault =
    | UnknownClassId(classId: int)        // the label table has no entry for the class id (a KeyError)
    | NoPrecautionsRow(disease: string)   // the precautions table has no row for the disease (an IndexError)
}
