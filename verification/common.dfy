/** Types shared by every part of the backend model: optional values, ids,
    time, loosely typed request fields and HTTP-style responses. */
module Common {

  datatype Option<+T> = None | Some(value: T)

  /** Every stored record is identified by the string form of its id: the
      handlers compare ids with `toString()`, so a string is what they see. */
  type Id = string

  /** Milliseconds since the epoch, as `Date.now()` returns them. */
  type Time = int

  /** One day in milliseconds (24 * 60 * 60 * 1000). */
  const DayMs: int := 86_400_000

  /** A scalar request-body value whose JavaScript truthiness matters. */
  datatype Scalar = SBool(b: bool) | SNum(n: int) | SStr(s: string) | SNull

  /** `Boolean(v)` in JavaScript. */
  predicate Truthy(v: Scalar)
  {
    match v
    case SBool(b) => b
    case SNum(n) => n != 0
    case SStr(s) => s != ""
    case SNull => false
  }

  /** A string request field that is tested with `!x`: absent and empty are
      both falsy. */
  predicate Present(x: Option<string>)
  {
    x.Some? && x.value != ""
  }

  /** No id appears twice in the list. */
  predicate NoDuplicates(s: seq<Id>)
  {
    forall i, j :: 0 <= i < j < |s| ==> s[i] != s[j]
  }

  /** Why a request was refused. Each constructor stands for one of the
      source's error messages; the status travels beside it. */
  datatype Reason =
    | TokenRequired | TokenExpired | TokenInvalid | UserInvalid
    | Suspended | AdminRequired | ProfileIncomplete
    | MissingTarget | SelfChat | MissingPostId | PostNotFound | InvalidChatType
    | RoomNotFound | RoomAccessDenied
    | MissingTypeOrTitle | DeleteForbidden
    | MissingReportFields | SelfReport | DuplicateReport
    | UserNotFound | AdminNotSuspendable | ReportNotFound
    | MissingImage | MissingIdToken | MissingEmail | InvalidDomain
    | InvalidFileType | TooManyFiles | FileTooLarge
    | ServerError

  /** The outcome of one request: a status code and either a value or the
      reason for refusing. */
  datatype Response<+T> = Ok(status: nat, value: T) | Err(status: nat, reason: Reason)
}
