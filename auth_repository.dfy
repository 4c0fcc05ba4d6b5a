/** The `AuthRepository` interface as the use-cases see it: for each of the
    three awaited operations, how it settles. The fourth operation,
    `onAuthStateChange`, is a subscription and is modelled only in the
    Supabase adapter. */
module AuthRepository {
  import opened Results
  import opened UserEntity

  /** The JavaScript value found in the `url` field of a sign-in result:
      a string, `null`/`undefined`, or a value of another type. */
  datatype UrlValue = Str(s: string) | Null | NonString

  /** The `{ url }` record `signInWithGoogle` resolves with. */
  datatype SignInData = SignInData(url: UrlValue)

  /** A repository, given by how each of its operations settles when awaited. */
  datatype Repository = Repository(
    signInWithGoogle: RepoResult<SignInData>,
    signOut: RepoResult<()>,
    getCurrentUser: RepoResult<Option<User>>)

  /** What the interface's types promise: the sign-in URL is a string, and a
      user is a constructed (hence valid) `User`. */
  predicate Conforms(repo: Repository, zod: Zod) {
    && (repo.signInWithGoogle.Ok? ==> repo.signInWithGoogle.value.url.Str?)
    && (repo.getCurrentUser.Ok? && repo.getCurrentUser.value.Some? ==> Valid(repo.getCurrentUser.value.value, zod))
  }
}
