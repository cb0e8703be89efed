/** The optional value used for JavaScript's `null` / `NaN` results. */
module Options {

  datatype Option<+T> = None | Some(value: T)

  /** The elements of an optional value, as a sequence of length zero or one. */
  function AsSeq<T>(o: Option<T>): seq<T>
  {
    match o
    case None => []
    case Some(v) => [v]
  }
}
