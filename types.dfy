/**
 * `src/types/aviation.ts`: the `Route` a path finder hands back to the app,
 * and the two outcomes of a call that may throw.
 */
module Types {
  import opened Paths

  /** `Route`: the algorithm's name, the airports in order, the distance (km) and the duration. */
  datatype Route = Route(algorithm: string, path: seq<Node>, distance: int, duration: real)

  /** A call that returns a value or throws an `Error` with a message. */
  datatype Result<T> = Success(value: T) | Failure(error: string)
}
