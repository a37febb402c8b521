/** Optional values, results and the error kinds of the storage engine. */
module Outcomes {

  datatype Option<+T> = None | Some(value: T)

  /** What can go wrong in the engine.
      IO: a page that was never written is read (the datasource reports a short read).
      ItemNotFound, NoParentFound: the sentinel errors of the collection layer.
      Panic: the Go runtime would abort here (index out of range, a page that does not fit). */
  datatype Error = IO | ItemNotFound | NoParentFound | Panic

  datatype Result<+T> = Ok(value: T) | Err(error: Error)
}
