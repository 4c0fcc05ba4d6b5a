/** How calls settle at the two boundaries of the authentication slice: what an
    awaited repository call gives a use-case, and what a use-case's `execute`
    gives its caller. A JavaScript rejection is split into the two kinds the
    use-cases tell apart with `instanceof Error`. */
module Results {

  /** A value or JavaScript `null`. */
  datatype Option<+T> = None | Some(value: T) {

    /** The value, or `default` when there is none. */
    function GetOr(default: T): T {
      if Some? then value else default
    }
  }

  /** An awaited repository call: it resolves with a value, rejects with an
      `Error` (kept as its message), or rejects with a thrown value that is
      not an `Error`. */
  datatype RepoResult<+T> = Ok(value: T) | Fail(message: string) | FailNonError

  /** An awaited use-case: it resolves with its response record, or rejects
      with the `Error` it throws (kept as its message). */
  datatype Outcome<+T> = Success(value: T) | Error(message: string)

  /** The text a use-case puts after its prefix when the caught value is not
      an `Error`. */
  const UnknownError := "Unknown error"

  /** The catch block every use-case shares: a new error whose message is the
      use-case's prefix followed by the caught error's message, or by
      `Unknown error`. Stripping the prefix gives the cause back. */
  function Rethrown<T>(prefix: string, failure: RepoResult<T>): (message: string)
    requires !failure.Ok?
    ensures prefix <= message
    ensures message[|prefix|..] == if failure.Fail? then failure.message else UnknownError
  {
    if failure.Fail? then prefix + failure.message else prefix + UnknownError
  }

  /** A rejection that reaches an `await` with no `try` around it: it is
      passed on unchanged, whatever the awaited value's type was. */
  function Passed<T, U>(failure: RepoResult<T>): (r: RepoResult<U>)
    requires !failure.Ok?
    ensures !r.Ok?
    ensures r.Fail? <==> failure.Fail?
    ensures r.Fail? ==> r.message == failure.message
  {
    if failure.Fail? then Fail(failure.message) else FailNonError
  }
}
