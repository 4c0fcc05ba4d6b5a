/** The Supabase implementation of `AuthRepository`, reduced to its
    decisions: every call on the Supabase client settles to an input value,
    and every call made on the client is recorded, in order, beside the
    result. A client call may also reject; the adapter has no `try`, so such
    a rejection is passed on unchanged. */
module SupabaseAuthRepository {
  import opened Results
  import opened UserEntity
  import opened AuthRepository

  /** An error object returned by Supabase auth. */
  datatype AuthError = AuthError(message: string)

  /** The response of `auth.signInWithOAuth`. */
  datatype OAuthResponse = OAuthResponse(url: Option<string>, error: Option<AuthError>)

  /** The response of `auth.signOut`. */
  datatype SignOutResponse = SignOutResponse(error: Option<AuthError>)

  /** The user record of `auth.getUser`; its email may be absent. */
  datatype AuthUser = AuthUser(id: string, email: Option<string>)

  /** The response of `auth.getUser`. */
  datatype GetUserResponse = GetUserResponse(user: Option<AuthUser>, error: Option<AuthError>)

  /** The `username, avatar_url` columns of a `profiles` row. */
  datatype ProfileRow = ProfileRow(username: string, avatarUrl: Option<string>)

  /** The response of the `.single()` profile query: exactly one row, or a
      PostgREST error with its code. */
  datatype ProfileResponse = Row(row: ProfileRow) | QueryError(code: string, message: string)

  /** How each awaited call on the Supabase client settles: with a response,
      or by rejecting. The profile query is answered per user id. */
  datatype Client = Client(
    oauth: RepoResult<OAuthResponse>,
    signOut: RepoResult<SignOutResponse>,
    getUser: RepoResult<GetUserResponse>,
    profiles: string -> RepoResult<ProfileResponse>)

  /** A call made on the Supabase client. */
  datatype ProviderCall =
    | SignInWithOAuth(provider: string, redirectTo: string)
    | AuthSignOut
    | AuthGetUser
    | SelectProfile(id: string)

  /** A result together with the client calls made to reach it. */
  datatype Traced<+T> = Traced(result: T, calls: seq<ProviderCall>)

  const SignInFailed := "Google sign-in failed: "
  const MissingOAuthUrl := "Failed to get OAuth URL"
  const SignOutFailed := "Sign out failed: "
  const AuthUserFailed := "Failed to get authenticated user: "
  const ProfileFailed := "Failed to get user profile: "

  /** The PostgREST code for "no row" from `.single()`: the profile is not created yet. */
  const ProfileNotFound := "PGRST116"

  /** The path appended to the page's origin to form the OAuth redirect. */
  const CallbackPath := "/auth/callback"

  /** `!data.url`: no URL, or the empty string. */
  predicate MissingUrl(url: Option<string>) {
    url.None? || url.value == ""
  }

  /** `signInWithGoogle`, for a page at `origin`. A rejected OAuth call is
      passed on. Otherwise the provider error is looked at first, then the
      URL; a URL that gets through is non-empty and returned unchanged. */
  function SignInWithGoogle(origin: string, client: Client): (t: Traced<RepoResult<SignInData>>)
    ensures t.calls == [SignInWithOAuth("google", origin + CallbackPath)]
    ensures client.oauth.Fail? ==> t.result == Fail(client.oauth.message)
    ensures t.result.FailNonError? <==> client.oauth.FailNonError?
    ensures client.oauth.Ok? && client.oauth.value.error.Some? ==>
      t.result == Fail(SignInFailed + client.oauth.value.error.value.message)
    ensures client.oauth.Ok? && client.oauth.value.error.None? && MissingUrl(client.oauth.value.url) ==>
      t.result == Fail(MissingOAuthUrl)
    ensures t.result.Ok? <==>
      client.oauth.Ok? && client.oauth.value.error.None? && !MissingUrl(client.oauth.value.url)
    ensures t.result.Ok? ==> t.result.value.url == Str(client.oauth.value.url.value)
    ensures t.result.Ok? ==> t.result.value.url.s != ""
  {
    var calls := [SignInWithOAuth("google", origin + CallbackPath)];
    if !client.oauth.Ok? then
      Traced(Passed(client.oauth), calls)
    else
      var response := client.oauth.value;
      var result :=
        if response.error.Some? then Fail(SignInFailed + response.error.value.message)
        else if MissingUrl(response.url) then Fail(MissingOAuthUrl)
        else Ok(SignInData(Str(response.url.value)));
      Traced(result, calls)
  }

  /** `signOut`: a rejected call is passed on; otherwise it rejects exactly
      when the provider reports an error. */
  function SignOut(client: Client): (t: Traced<RepoResult<()>>)
    ensures t.calls == [AuthSignOut]
    ensures client.signOut.Fail? ==> t.result == Fail(client.signOut.message)
    ensures t.result.FailNonError? <==> client.signOut.FailNonError?
    ensures t.result.Ok? <==> client.signOut.Ok? && client.signOut.value.error.None?
    ensures client.signOut.Ok? && client.signOut.value.error.Some? ==>
      t.result == Fail(SignOutFailed + client.signOut.value.error.value.message)
  {
    if !client.signOut.Ok? then
      Traced(Passed(client.signOut), [AuthSignOut])
    else
      var response := client.signOut.value;
      var result :=
        if response.error.Some? then Fail(SignOutFailed + response.error.value.message)
        else Ok(());
      Traced(result, [AuthSignOut])
  }

  /** `getCurrentUser`. The profile of the authenticated user is looked up
      exactly when `getUser` resolved with no error and a user; a missing
      profile reads as "no user"; a user it returns is valid and is built from
      the auth record and that user's own profile row. */
  function GetCurrentUser(client: Client, zod: Zod): (t: Traced<RepoResult<Option<User>>>)
    ensures t.calls ==
      if client.getUser.Ok? && client.getUser.value.error.None? && client.getUser.value.user.Some?
      then [AuthGetUser, SelectProfile(client.getUser.value.user.value.id)]
      else [AuthGetUser]
    ensures client.getUser.Fail? ==> t.result == Fail(client.getUser.message)
    ensures client.getUser.FailNonError? ==> t.result.FailNonError?
    ensures client.getUser.Ok? && client.getUser.value.error.Some? ==>
      t.result == Fail(AuthUserFailed + client.getUser.value.error.value.message)
    ensures client.getUser.Ok? && client.getUser.value.error.None? && client.getUser.value.user.None? ==>
      t.result == Ok(None)
    ensures client.getUser.Ok? && client.getUser.value.error.None? && client.getUser.value.user.Some? ==>
      var u := client.getUser.value.user.value;
      match client.profiles(u.id)
      case Fail(message) => t.result == Fail(message)
      case FailNonError => t.result.FailNonError?
      case Ok(QueryError(code, message)) =>
        t.result == if code == ProfileNotFound then Ok(None) else Fail(ProfileFailed + message)
      case Ok(Row(p)) =>
        var candidate := User(u.id, u.email.GetOr(""), p.username, p.avatarUrl);
        t.result == if Valid(candidate, zod) then Ok(Some(candidate)) else Fail(zod.errorMessage(Issues(candidate, zod)))
    ensures t.result.Ok? && t.result.value.Some? ==>
      && client.getUser.Ok?
      && client.getUser.value.user.Some?
      && t.result.value.value.id == client.getUser.value.user.value.id
      && Valid(t.result.value.value, zod)
  {
    if !client.getUser.Ok? then
      Traced(Passed(client.getUser), [AuthGetUser])
    else
      var auth := client.getUser.value;
      if auth.error.Some? then
        Traced(Fail(AuthUserFailed + auth.error.value.message), [AuthGetUser])
      else if auth.user.None? then
        Traced(Ok(None), [AuthGetUser])
      else
        var u := auth.user.value;
        var calls := [AuthGetUser, SelectProfile(u.id)];
        match client.profiles(u.id)
        case Fail(message) => Traced(Fail(message), calls)
        case FailNonError => Traced(FailNonError, calls)
        case Ok(QueryError(code, message)) =>
          if code == ProfileNotFound then Traced(Ok(None), calls)
          else Traced(Fail(ProfileFailed + message), calls)
        case Ok(Row(p)) =>
          match NewUser(u.id, u.email.GetOr(""), p.username, p.avatarUrl, zod)
          case Constructed(user) => Traced(Ok(Some(user)), calls)
          case Rejected(issues) => Traced(Fail(zod.errorMessage(issues)), calls)
  }

  /** The events Supabase auth reports to a listener. */
  datatype AuthEvent =
    | InitialSession
    | SignedIn
    | SignedOut
    | TokenRefreshed
    | UserUpdated
    | PasswordRecovery
    | MfaChallengeVerified

  /** What one run of the listener does with the application's callback: the
      values it passes to it, in order, and whether the async listener itself
      rejects because the callback threw outside the `try`. */
  datatype Notified = Notified(deliveries: seq<Option<User>>, rejects: bool)

  /** The listener `onAuthStateChange` registers, for one event, with a
      callback that throws on the values `callbackThrows` names. On sign-out
      or without a session it passes null and fetches nothing. Otherwise it
      passes what `getCurrentUser` resolves with, or null when that rejects;
      the first call of the callback is inside the `try`, so when it throws,
      the callback is called again with null. The listener rejects exactly
      when the last call of the callback threw, so with a callback that
      accepts null it never rejects. */
  function AuthStateHandler(
    event: AuthEvent, hasSession: bool, client: Client, zod: Zod, callbackThrows: Option<User> -> bool
  ): (t: Traced<Notified>)
    ensures 1 <= |t.result.deliveries| <= 2
    ensures t.result.rejects <==> callbackThrows(t.result.deliveries[|t.result.deliveries| - 1])
    ensures !callbackThrows(None) ==> !t.result.rejects
    ensures event == SignedOut || !hasSession ==> t.result.deliveries == [None] && t.calls == []
    ensures event != SignedOut && hasSession ==>
      var fetched := GetCurrentUser(client, zod);
      && t.calls == fetched.calls
      && t.result.deliveries[0] == (if fetched.result.Ok? then fetched.result.value else None)
      && (|t.result.deliveries| == 2 <==> fetched.result.Ok? && callbackThrows(fetched.result.value))
    ensures |t.result.deliveries| == 2 ==> t.result.deliveries[1] == None
    ensures forall i :: 0 <= i < |t.result.deliveries| && t.result.deliveries[i].Some? ==>
      Valid(t.result.deliveries[i].value, zod)
  {
    if event == SignedOut || !hasSession then
      Traced(Notified([None], callbackThrows(None)), [])
    else
      var fetched := GetCurrentUser(client, zod);
      match fetched.result
      case Ok(user) =>
        if callbackThrows(user) then Traced(Notified([user, None], callbackThrows(None)), fetched.calls)
        else Traced(Notified([user], false), fetched.calls)
      case _ => Traced(Notified([None], callbackThrows(None)), fetched.calls)
  }

  /** The adapter seen through the `AuthRepository` interface, as the
      use-cases await it. It keeps the interface's promises and gives a
      non-empty URL. It rejects with something other than an `Error` only
      when a client call did. */
  function AsRepository(origin: string, client: Client, zod: Zod): (repo: Repository)
    ensures Conforms(repo, zod)
    ensures repo.signInWithGoogle.Ok? ==> repo.signInWithGoogle.value.url.s != ""
    ensures repo.signInWithGoogle.FailNonError? ==> client.oauth.FailNonError?
    ensures repo.signOut.FailNonError? ==> client.signOut.FailNonError?
    ensures repo.getCurrentUser.FailNonError? ==>
      || client.getUser.FailNonError?
      || (client.getUser.Ok? && client.getUser.value.user.Some?
          && client.profiles(client.getUser.value.user.value.id).FailNonError?)
  {
    Repository(
      SignInWithGoogle(origin, client).result,
      SignOut(client).result,
      GetCurrentUser(client, zod).result)
  }
}
