/** The `SignOut` use-case: one call to the repository's `signOut`, the
    constant success record, and every failure re-thrown under the use-case's
    prefix. */
module SignOut {
  import opened Results
  import opened AuthRepository

  /** The `{ success }` record. */
  datatype Response = Response(success: bool)

  const Prefix := "Sign-out failed: "

  /** `execute`, given how its one awaited `signOut` call settled (it awaits
      nothing else, so it cannot call twice or retry). It resolves exactly
      when the repository's `signOut` resolves, and then never with
      `success = false`: failure is only ever thrown. */
  function Execute(result: RepoResult<()>): (outcome: Outcome<Response>)
    ensures outcome.Success? <==> result.Ok?
    ensures outcome.Success? ==> outcome.value.success
    ensures result.Fail? ==> outcome == Error(Prefix + result.message)
    ensures result.FailNonError? ==> outcome == Error(Prefix + UnknownError)
    ensures outcome.Error? ==> Prefix <= outcome.message
  {
    if result.Ok? then Success(Response(true))
    else Error(Rethrown(Prefix, result))
  }
}
