/** The `GetCurrentUser` use-case: one call to the repository's
    `getCurrentUser`, a response that says whether someone is signed in, and
    every failure re-thrown under the use-case's prefix. */
module GetCurrentUser {
  import opened Results
  import opened UserEntity
  import opened AuthRepository

  /** The `{ user, isAuthenticated }` record. */
  datatype Response = Response(user: Option<User>, isAuthenticated: bool)

  const Prefix := "Failed to get current user: "

  /** `execute`, given how its one awaited `getCurrentUser` call settled (it
      awaits nothing else, so it cannot call twice or retry). The repository's
      user (null included) is passed through, and `isAuthenticated` is true
      exactly when it is not null. A rejection never becomes a response. */
  function Execute(result: RepoResult<Option<User>>): (outcome: Outcome<Response>)
    ensures outcome.Success? <==> result.Ok?
    ensures outcome.Success? ==> outcome.value.user == result.value
    ensures outcome.Success? ==> (outcome.value.isAuthenticated <==> outcome.value.user.Some?)
    ensures result.Fail? ==> outcome == Error(Prefix + result.message)
    ensures result.FailNonError? ==> outcome == Error(Prefix + UnknownError)
    ensures outcome.Error? ==> Prefix <= outcome.message
  {
    if result.Ok? then Success(Response(result.value, result.value.Some?))
    else Error(Rethrown(Prefix, result))
  }
}
