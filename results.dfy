/** Option and Result for the store's absent values and thrown errors. */
module Results {

  datatype Option<+T> = None | Some(value: T)

  /** What the source throws: a footer sentinel missing where a scan expects one
      (or a header, tag or value that would lie outside the buffer), and a type
      id outside the registry (idToTSize has no case for it). */
  datatype Error = Corrupted | UnknownType

  datatype Result<+T> = Ok(value: T) | Err(error: Error)
}
