/** The `SignInWithGoogle` use-case: one call to the repository's
    `signInWithGoogle`, a check that the URL it gives is a non-empty string,
    and every failure, the check's own included, re-thrown under the
    use-case's prefix. */
module SignInWithGoogle {
  import opened Results
  import opened AuthRepository

  /** The `{ url }` record. */
  datatype Response = Response(url: string)

  const Prefix := "Google sign-in failed: "

  /** The message of the error the URL check throws inside the `try`. */
  const InvalidResponse := "Invalid sign-in response: missing or invalid URL"

  /** The check: the URL is truthy and a string, so a non-empty string. */
  predicate UsableUrl(url: UrlValue) {
    url.Str? && url.s != ""
  }

  /** The `try` block as it settles: the awaited call, then the URL check. */
  function Attempt(result: RepoResult<SignInData>): RepoResult<string> {
    match result
    case Ok(data) => if UsableUrl(data.url) then Ok(data.url.s) else Fail(InvalidResponse)
    case Fail(m) => Fail(m)
    case FailNonError => FailNonError
  }

  /** `execute`, given how its one awaited `signInWithGoogle` call settled
      (it awaits nothing else, so it cannot call twice or retry). It resolves
      exactly when the repository resolves with a usable URL, and then with
      that URL; every rejection carries the prefix. */
  function Execute(result: RepoResult<SignInData>): (outcome: Outcome<Response>)
    ensures outcome.Success? <==> result.Ok? && UsableUrl(result.value.url)
    ensures outcome.Success? ==> outcome.value.url != "" && result.value.url == Str(outcome.value.url)
    ensures result.Ok? && !UsableUrl(result.value.url) ==> outcome == Error(Prefix + InvalidResponse)
    ensures result.Fail? ==> outcome == Error(Prefix + result.message)
    ensures result.FailNonError? ==> outcome == Error(Prefix + UnknownError)
    ensures outcome.Error? ==> Prefix <= outcome.message
  {
    var attempt := Attempt(result);
    if attempt.Ok? then Success(Response(attempt.value))
    else Error(Rethrown(Prefix, attempt))
  }
}
