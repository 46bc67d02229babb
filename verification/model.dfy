/**
 * The rows of the three tables (users, expenses, categories) and the errors
 * the data layer reports.  Timestamps are readings of an abstract clock that
 * the caller supplies (the database's `NOW()`); identifiers that the database
 * generates are likewise supplied by the caller.
 */
module Model {
  import opened Wrappers
  import Uuids
  import Dates

  type Time = int

  datatype User = User(
    id: Uuids.Uuid,
    clerkId: string,
    email: string,
    firstName: Option<string>,
    lastName: Option<string>,
    imageUrl: Option<string>,
    createdAt: Time,
    updatedAt: Time)

  datatype Expense = Expense(
    id: Uuids.Uuid,
    userId: Uuids.Uuid,
    amount: real,
    description: Option<string>,
    purchaseDate: Dates.Date,
    billDate: Option<Dates.Date>,
    categoryId: Option<Uuids.Uuid>,
    createdAt: Time)

  datatype Category = Category(
    id: Uuids.Uuid,
    userId: Uuids.Uuid,
    name: string,
    description: Option<string>,
    colorHex: Option<string>,
    createdAt: Time)

  /** The errors of the data layer: the two sentinels of the utilities package, a failure
      reported by the database, and an error wrapped with context by `fmt.Errorf("...: %w")`. */
  datatype StoreError =
    | ErrNotFound
    | ErrForbidden
    | Backend(message: string)
    | Wrapped(context: string, cause: StoreError)

  /** `errors.Is(err, target)` for the sentinels: follows the chain of wrapped causes. */
  predicate Is(err: StoreError, target: StoreError) {
    err == target || (err.Wrapped? && Is(err.cause, target))
  }

  /** The state of a table after a call, and what the call returned. */
  datatype Step<S, T> = Step(table: S, result: Result<T, StoreError>)

  /** The database's report of a unique-constraint violation. */
  const UniqueViolation: string := "duplicate key value violates unique constraint"
}
