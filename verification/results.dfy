/**
 * Failure-carrying values shared by every module of the model: an optional
 * value, a result that is either a value or one of the pipeline's errors,
 * and the error taxonomy with the message text each error renders as.
 */
module Results {

  datatype Option<+T> = None | Some(value: T)

  /** The error of a Go `(value, error)` pair; `Failure` carries no value. */
  datatype Result<+T> = Success(value: T) | Failure(error: Error)

  datatype Error =
    /** `ConvertToJSON` on an empty slice. */
    | DataEmpty
    /** A row without the grouping key. */
    | HeaderKeyMissing(key: string)
    /** A row whose grouping value is not a string. */
    | HeaderKeyNotString(key: string)
    /** `db.Query` itself failed. */
    | QueryFailed(cause: string)
    /** `rows.Scan` failed on some row of a result set. */
    | ScanFailed(cause: string)
    /** `db.Exec` failed; the statement was not applied. */
    | ExecFailed(cause: string)
    /** `LastInsertId` or `RowsAffected` failed after the statement was applied. */
    | ExecResultFailed(cause: string)
    /** No database connection could be opened. */
    | ConnectFailed(cause: string)
    /** The page request failed. */
    | UrlFailed(cause: string)
    /** The page body could not be read or parsed. */
    | BodyFailed(cause: string)
    /** A Go runtime panic (index out of range, failed type assertion),
        recovered by the scheduler's cron wrapper. */
    | Panic(reason: string)

  /** The text an error prints as. The repository's update statement reuses
      the insert statement's wording. */
  function Message(e: Error): string
  {
    match e
    case DataEmpty => "data is empty"
    case HeaderKeyMissing(k) => "header key '" + k + "' not found in row"
    case HeaderKeyNotString(k) => "header key '" + k + "' is not a string"
    case QueryFailed(c) => "failed to fetch match: " + c
    case ScanFailed(c) => "failed to scan match row: " + c
    case ExecFailed(c) => "failed to insert: " + c
    case ExecResultFailed(c) => "failed to get last insert id: " + c
    case ConnectFailed(c) => c
    case UrlFailed(c) => c
    case BodyFailed(c) => c
    case Panic(r) => r
  }
}
