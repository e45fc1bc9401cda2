/** The failures the stock service reports, and the result type that carries
    them in place of Java's checked exceptions. */
module StockErrors {

  /** What a lookup was keyed by: find-by-name reports the name, the
      operations on ids report the id. */
  datatype Key = ByName(name: string) | ById(id: int)

  datatype Error =
    | AlreadyRegistered(name: string)
    | NotFound(key: Key)
      /** Raised both when an increment would pass `max` and when a decrement
          would go below zero; it carries the id, the requested delta, the
          item's ceiling and its quantity before the request. */
    | StockExceeded(id: int, delta: int, max: int, current: int)

  datatype Result<+T> = Success(value: T) | Failure(error: Error)
}
