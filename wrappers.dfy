/** Nullable columns and failing queries. */
module Wrappers {

  /** A nullable column or an optional argument: `None` is SQL `null` or an omitted value. */
  datatype Option<+T> = None | Some(value: T)

  /** The outcome of a query that may throw. */
  datatype Result<+R, +E> = Success(value: R) | Failure(error: E)

  /** Why a query failed: `executeTakeFirstOrThrow` found no row. */
  datatype Error = NoResultError
}
