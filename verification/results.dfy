/** A success-or-failure result for the calculation pipeline, standing for a
    Python call that either returns a value or raises. */
module Results {

  datatype Result<+T, +E> = Success(value: T) | Failure(error: E)
}
