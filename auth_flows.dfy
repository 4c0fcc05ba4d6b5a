/** What a caller of the use-cases observes when the repository behind them
    is the Supabase adapter: how the two layers of error prefixes combine,
    which failures can and cannot surface, and how callers can tell the
    use-cases' errors apart. */
module AuthFlows {
  import opened Results
  import opened UserEntity
  import opened AuthRepository
  import Supabase = SupabaseAuthRepository
  import GetCurrentUser
  import SignInWithGoogle
  import SignOut

  /** A provider sign-in error `E` reaches the caller prefixed twice:
      "Google sign-in failed: Google sign-in failed: E". */
  lemma SignInProviderErrorPrefixedTwice(origin: string, client: Supabase.Client, zod: Zod, e: string)
    requires client.oauth.Ok? && client.oauth.value.error == Some(Supabase.AuthError(e))
    ensures SignInWithGoogle.Execute(Supabase.AsRepository(origin, client, zod).signInWithGoogle)
         == Error(SignInWithGoogle.Prefix + (Supabase.SignInFailed + e))
  {
  }

  /** A missing OAuth URL reaches the caller as
      "Google sign-in failed: Failed to get OAuth URL". */
  lemma SignInMissingUrlSurfaces(origin: string, client: Supabase.Client, zod: Zod)
    requires client.oauth.Ok? && client.oauth.value.error.None? && Supabase.MissingUrl(client.oauth.value.url)
    ensures SignInWithGoogle.Execute(Supabase.AsRepository(origin, client, zod).signInWithGoogle)
         == Error(SignInWithGoogle.Prefix + Supabase.MissingOAuthUrl)
  {
  }

  /** The adapter rejects an empty URL itself, so through it the use-case's
      own URL check never fires: the caller sees the "Invalid sign-in
      response" error exactly when the OAuth call itself rejected with an
      `Error` carrying that very message. */
  lemma SupabaseNeverFailsUrlCheck(origin: string, client: Supabase.Client, zod: Zod)
    ensures SignInWithGoogle.Execute(Supabase.AsRepository(origin, client, zod).signInWithGoogle)
         == Error(SignInWithGoogle.Prefix + SignInWithGoogle.InvalidResponse)
        <==> client.oauth == Fail(SignInWithGoogle.InvalidResponse)
  {
    var p := |SignInWithGoogle.Prefix|;
    var invalid := SignInWithGoogle.Prefix + SignInWithGoogle.InvalidResponse;
    var head, tail := "Invalid sign-in response: ", "missing or invalid URL";
    assert SignInWithGoogle.InvalidResponse == head + tail;
    assert (head + tail)[0] == head[0];
    assert invalid[p] == 'I';
    var outcome := SignInWithGoogle.Execute(Supabase.AsRepository(origin, client, zod).signInWithGoogle);
    match client.oauth
    case Fail(m) =>
      assert outcome == Error(SignInWithGoogle.Prefix + m);
      if outcome == Error(invalid) {
        assert (SignInWithGoogle.Prefix + m)[p..] == m;
        assert invalid[p..] == SignInWithGoogle.InvalidResponse;
      }
    case FailNonError =>
      var m := SignInWithGoogle.Prefix + UnknownError;
      assert m[p] == 'U';
    case Ok(response) =>
      if response.error.Some? {
        var m := SignInWithGoogle.Prefix + (Supabase.SignInFailed + response.error.value.message);
        assert m[p] == 'G';
      } else if Supabase.MissingUrl(response.url) {
        var m := SignInWithGoogle.Prefix + Supabase.MissingOAuthUrl;
        assert m[p] == 'F';
      }
  }

  /** A provider sign-out error `E` reaches the caller as
      "Sign-out failed: Sign out failed: E". */
  lemma SignOutProviderErrorPrefixedTwice(origin: string, client: Supabase.Client, zod: Zod, e: string)
    requires client.signOut.Ok? && client.signOut.value.error == Some(Supabase.AuthError(e))
    ensures SignOut.Execute(Supabase.AsRepository(origin, client, zod).signOut)
         == Error(SignOut.Prefix + (Supabase.SignOutFailed + e))
  {
  }

  /** A rejected `auth.getUser` call is not wrapped by the adapter, so its
      message reaches the caller under the use-case's prefix alone. */
  lemma RejectedGetUserPrefixedOnce(origin: string, client: Supabase.Client, zod: Zod, m: string)
    requires client.getUser == Fail(m)
    ensures GetCurrentUser.Execute(Supabase.AsRepository(origin, client, zod).getCurrentUser)
         == Error(GetCurrentUser.Prefix + m)
  {
  }

  /** A signed-in user whose auth record has no email does not read as
      "no user": the empty-string fallback fails the email rule, `new User`
      throws, and the caller gets the zod error under the use-case's prefix. */
  lemma AbsentEmailFailsGetCurrentUser(origin: string, client: Supabase.Client, zod: Zod)
    requires !zod.isEmail("")
    requires client.getUser.Ok? && client.getUser.value.error.None? && client.getUser.value.user.Some?
    requires client.getUser.value.user.value.email.None?
    requires client.profiles(client.getUser.value.user.value.id).Ok?
    requires client.profiles(client.getUser.value.user.value.id).value.Row?
    ensures var u := client.getUser.value.user.value;
            var p := client.profiles(u.id).value.row;
            var issues := Issues(User(u.id, "", p.username, p.avatarUrl), zod);
            && InvalidEmail in issues
            && GetCurrentUser.Execute(Supabase.AsRepository(origin, client, zod).getCurrentUser)
               == Error(GetCurrentUser.Prefix + zod.errorMessage(issues))
  {
  }

  /** A signed-in user whose profile row does not exist yet reads as signed
      out: the use-case resolves with no user and `isAuthenticated` false. */
  lemma MissingProfileReadsAsSignedOut(origin: string, client: Supabase.Client, zod: Zod)
    requires client.getUser.Ok? && client.getUser.value.error.None? && client.getUser.value.user.Some?
    requires client.profiles(client.getUser.value.user.value.id).Ok?
    requires client.profiles(client.getUser.value.user.value.id).value.QueryError?
    requires client.profiles(client.getUser.value.user.value.id).value.code == Supabase.ProfileNotFound
    ensures GetCurrentUser.Execute(Supabase.AsRepository(origin, client, zod).getCurrentUser)
         == Success(GetCurrentUser.Response(None, false))
  {
  }

  /** Through the adapter, `isAuthenticated` means: the provider has an
      authenticated user, and the response carries a valid user with that id. */
  lemma AuthenticatedMeansProviderUser(origin: string, client: Supabase.Client, zod: Zod)
    ensures var outcome := GetCurrentUser.Execute(Supabase.AsRepository(origin, client, zod).getCurrentUser);
            outcome.Success? && outcome.value.isAuthenticated ==>
              && client.getUser.Ok?
              && client.getUser.value.error.None?
              && client.getUser.value.user.Some?
              && outcome.value.user.Some?
              && outcome.value.user.value.id == client.getUser.value.user.value.id
              && Valid(outcome.value.user.value, zod)
  {
  }

  /** Callers can branch on the prefix: no message starts with the prefixes
      of two different use-cases. */
  lemma PrefixesIdentifyUseCase(m: string)
    ensures !(GetCurrentUser.Prefix <= m && SignInWithGoogle.Prefix <= m)
    ensures !(GetCurrentUser.Prefix <= m && SignOut.Prefix <= m)
    ensures !(SignInWithGoogle.Prefix <= m && SignOut.Prefix <= m)
  {
    assert GetCurrentUser.Prefix[0] == 'F';
    assert SignInWithGoogle.Prefix[0] == 'G';
    assert SignOut.Prefix[0] == 'S';
  }

  /** So every error a use-case throws names that use-case and no other. */
  lemma ErrorsIdentifyUseCase(repo: Repository)
    ensures var o := GetCurrentUser.Execute(repo.getCurrentUser);
            o.Error? ==> !(SignInWithGoogle.Prefix <= o.message) && !(SignOut.Prefix <= o.message)
    ensures var o := SignInWithGoogle.Execute(repo.signInWithGoogle);
            o.Error? ==> !(GetCurrentUser.Prefix <= o.message) && !(SignOut.Prefix <= o.message)
    ensures var o := SignOut.Execute(repo.signOut);
            o.Error? ==> !(GetCurrentUser.Prefix <= o.message) && !(SignInWithGoogle.Prefix <= o.message)
  {
    var o1 := GetCurrentUser.Execute(repo.getCurrentUser);
    var o2 := SignInWithGoogle.Execute(repo.signInWithGoogle);
    var o3 := SignOut.Execute(repo.signOut);
    if o1.Error? { PrefixesIdentifyUseCase(o1.message); }
    if o2.Error? { PrefixesIdentifyUseCase(o2.message); }
    if o3.Error? { PrefixesIdentifyUseCase(o3.message); }
  }

  /** A repository that keeps the interface's promises and resolves with a
      non-empty URL always gets through the use-case's URL check. */
  lemma ConformingUrlPassesCheck(repo: Repository, zod: Zod)
    requires Conforms(repo, zod)
    requires repo.signInWithGoogle.Ok? && repo.signInWithGoogle.value.url.s != ""
    ensures SignInWithGoogle.Execute(repo.signInWithGoogle)
         == Success(SignInWithGoogle.Response(repo.signInWithGoogle.value.url.s))
  {
  }
}
