# Authentication slice of a Supabase chat app, in Dafny

This project models the authentication core of a web chat application:

- the `User` entity, an immutable value validated against `UserSchema`;
- the three use-cases `GetCurrentUser`, `SignInWithGoogle` and `SignOut`;
- the decision logic of the Supabase implementation of `AuthRepository`.

Each use-case awaits one repository operation. It either returns a small
response record, or re-throws the failure as a new `Error`. That error's
message is a use-case prefix followed by the original message, or by
`Unknown error` when the thrown value is not an `Error`.

How the model is built:

- How each awaited call of the Supabase client settles (`signInWithOAuth`,
  `auth.signOut`, `auth.getUser`, the `profiles` query) is an input value.
  A call may resolve with a response or reject. The adapter has no `try`, so
  a rejection is passed on unchanged. Every call made on the client is
  recorded, in order, next to the result, so "no profile lookup happens" is
  stated in contracts.
- Each use-case's `Execute` takes the one settled repository result it
  awaits. It awaits nothing else, so "exactly one repository call, no retry"
  holds by construction.
- The application's callback given to the auth-state listener is a
  parameter that says on which values it throws.
- A rejection is one of two constructors: `Fail(message)` for an `Error`, and
  `FailNonError` for any other thrown value. This replaces the
  `instanceof Error` test.
- zod's email rule, its URL rule and the message of the `ZodError` it throws
  are fields of the `Zod` value. They are never interpreted.

Modules, one per source file, plus two shared ones:

- `Results` (`results.dfy`): the shared outcome types and the shared catch block.
- `UserEntity` (`user.dfy`): `User.ts`.
- `AuthRepository` (`auth_repository.dfy`): the interface in `AuthRepository.ts`, as a
  value that says how each operation settles.
- `GetCurrentUser`, `SignInWithGoogle`, `SignOut`: the three use-cases.
- `SupabaseAuthRepository` (`supabase_auth_repository.dfy`): the adapter and
  the body of the auth-state listener.
- `AuthFlows` (`auth_flows.dfy`): what a caller sees when the use-cases run
  on the Supabase adapter.

Some message properties are written with the model's named constants.
`SignInWithGoogle.Prefix + (SupabaseAuthRepository.SignInFailed + e)` is the
text "Google sign-in failed: Google sign-in failed: " followed by `e`.
`SignOut.Prefix + (SupabaseAuthRepository.SignOutFailed + e)` is
"Sign-out failed: Sign out failed: " followed by `e`.

`Results.Rethrown` cannot tell a thrown non-`Error` from an `Error` whose
message is `Unknown error`. Both give the same message, so the original value
is lost. The model keeps this behaviour, as the code has it.

## Model

| member | source | states |
|---|---|---|
| Results.Rethrown | src/features/auth/domain/use-cases/GetCurrentUser.ts:20-25 | The re-thrown message starts with the use-case prefix. Removing the prefix gives back the caught error's message, or `Unknown error` for a value that is not an `Error`. |
| UserEntity.Issues | src/features/auth/domain/entities/User.ts:4-9 | The schema rejects nothing exactly when the candidate is valid. Each rule is reported exactly when its field fails it: empty id, bad email, empty username, non-null avatar URL that fails the URL rule. Issues are listed in the schema's field order. |
| UserEntity.NewUser | src/features/auth/domain/entities/User.ts:18-41 | Construction succeeds exactly on valid arguments, and a constructed user is valid. The four getters return the constructor's arguments unchanged. A failure carries the non-empty list of failed rules. |
| GetCurrentUser.Execute | src/features/auth/domain/use-cases/GetCurrentUser.ts:13-26 | Takes the one awaited `getCurrentUser` result. It resolves exactly when the repository resolves, and passes the user through unchanged, null included. `isAuthenticated` is true exactly when the user is non-null. Errors are "Failed to get current user: " plus M, or plus `Unknown error`. |
| SignInWithGoogle.Execute | src/features/auth/domain/use-cases/SignInWithGoogle.ts:11-26 | Takes the one awaited `signInWithGoogle` result. It succeeds exactly when the repository returns a non-empty string URL, and returns that same URL. An empty, null or non-string URL fails with the prefixed "Invalid sign-in response" message. A repository error M becomes "Google sign-in failed: " plus M. Every error starts with the prefix. |
| SignOut.Execute | src/features/auth/domain/use-cases/SignOut.ts:11-21 | Takes the one awaited `signOut` result. It resolves exactly when the repository does, and then always with `success = true`. Errors are "Sign-out failed: " plus M, or plus `Unknown error`. |
| SupabaseAuthRepository.SignInWithGoogle | src/infrastructure/supabase/SupabaseAuthRepository.ts:21-38 | Calls OAuth once, with provider `google` and the redirect origin plus `/auth/callback`. A rejected OAuth call is passed on unchanged. Otherwise the provider error is checked first and gives "Google sign-in failed: " plus E. Then a missing or empty URL gives "Failed to get OAuth URL". Otherwise the URL is returned unchanged and is non-empty. |
| SupabaseAuthRepository.SignOut | src/infrastructure/supabase/SupabaseAuthRepository.ts:44-50 | Calls sign-out once. A rejected call is passed on unchanged. Otherwise it rejects exactly when the provider reports an error, with "Sign out failed: " plus E. |
| SupabaseAuthRepository.GetCurrentUser | src/infrastructure/supabase/SupabaseAuthRepository.ts:56-91 | The calls are exactly `getUser`, then the profile of the auth user's id only when `getUser` resolved with no auth error and a user. A rejected `getUser` or profile query is passed on unchanged. An auth error gives "Failed to get authenticated user: " plus E, and no user gives null. Profile code `PGRST116` gives null, and any other profile error gives "Failed to get user profile: " plus E. Otherwise the result is the user built from the auth id, the auth email (or `''`), and the profile's username and avatar URL, or the zod error when that user is invalid. A returned user is valid and has the auth user's id. |
| SupabaseAuthRepository.AuthStateHandler | src/infrastructure/supabase/SupabaseAuthRepository.ts:100-114 | On `SIGNED_OUT`, or with no session, it passes null to the callback and makes no client call. Otherwise it passes the `getCurrentUser` result, or null when that rejects. If the callback throws on that first value, it is called a second time, with null. The listener rejects exactly when the last call of the callback threw, so with a callback that accepts null it never rejects. Every user passed is valid. |
| SupabaseAuthRepository.AsRepository | src/features/auth/domain/repositories/AuthRepository.ts:4-9 | Used as an `AuthRepository`, the adapter keeps the interface's promises: the URL is a string and the user is valid. Its URL is non-empty. It rejects with a value that is not an `Error` only when a client call did. |
| AuthFlows.SignInProviderErrorPrefixedTwice | src/infrastructure/supabase/SupabaseAuthRepository.ts:29-31 | A provider sign-in error E reaches the caller as "Google sign-in failed: Google sign-in failed: E". |
| AuthFlows.SignInMissingUrlSurfaces | src/infrastructure/supabase/SupabaseAuthRepository.ts:33-35 | A missing OAuth URL reaches the caller as "Google sign-in failed: Failed to get OAuth URL". |
| AuthFlows.SupabaseNeverFailsUrlCheck | src/features/auth/domain/use-cases/SignInWithGoogle.ts:15-17 | Through the Supabase adapter, the caller sees the use-case's own "Invalid sign-in response" error exactly when the OAuth call itself rejected with an `Error` carrying that message. It never sees it for any response the provider gives. |
| AuthFlows.SignOutProviderErrorPrefixedTwice | src/infrastructure/supabase/SupabaseAuthRepository.ts:47-49 | A provider sign-out error E reaches the caller as "Sign-out failed: Sign out failed: E". |
| AuthFlows.RejectedGetUserPrefixedOnce | src/infrastructure/supabase/SupabaseAuthRepository.ts:58-59 | A rejected `auth.getUser` call with message M reaches the caller as "Failed to get current user: " plus M, with no adapter prefix. |
| AuthFlows.AbsentEmailFailsGetCurrentUser | src/infrastructure/supabase/SupabaseAuthRepository.ts:85-90 | Take a signed-in user with a profile but no email, where the email rule rejects `''`. The user is not reported as null: construction fails on the email rule, and the caller gets "Failed to get current user: " plus the zod error. |
| AuthFlows.MissingProfileReadsAsSignedOut | src/infrastructure/supabase/SupabaseAuthRepository.ts:76-80 | A signed-in user whose profile is not found (`PGRST116`) gets `{ user: null, isAuthenticated: false }`. |
| AuthFlows.AuthenticatedMeansProviderUser | src/features/auth/domain/use-cases/GetCurrentUser.ts:15-19 | Through the adapter, `isAuthenticated` implies that the provider has an authenticated user, and that the response carries a valid user with that user's id. |
| AuthFlows.PrefixesIdentifyUseCase | src/features/auth/domain/use-cases/SignOut.ts:16-19 | No message starts with the error prefixes of two different use-cases. |
| AuthFlows.ErrorsIdentifyUseCase | src/features/auth/domain/use-cases/SignInWithGoogle.ts:20-25 | Every error a use-case throws starts with its own prefix and with no other use-case's prefix. |
| AuthFlows.ConformingUrlPassesCheck | src/features/auth/domain/use-cases/SignInWithGoogle.ts:13-19 | Take a repository that keeps the interface's promises and resolves with a non-empty URL. The sign-in use-case then succeeds with exactly that URL. |

## Left out

- The Supabase client itself is not part of this model. That covers client
  construction, the environment-variable checks, and the cookie handling in
  `client.ts`, `server.ts` and `core/middleware.ts`. Each client answer is an
  input instead.
- `window.location.origin` is a parameter (`origin`).
- The subscription around the auth-state listener is left out: registering it
  with `auth.onAuthStateChange`, and the unsubscribe closure. These are
  callback and Promise plumbing. Only the listener's run for one event is
  modelled. What Supabase does with a listener that rejects is not part of
  this model.
- Asynchrony and scheduling are left out. Each awaited call is its settled
  value.
- zod's email and URL rules and the text of a `ZodError` message are
  uninterpreted, because they are a foreign library. That text is where the
  schema's per-rule messages (such as "Invalid email format") appear, so
  those messages are not modelled either. Where a property needs
  "zod rejects the empty email", it is a premise (`!zod.isEmail("")`).
- `index.ts` and `repositories.ts` only re-export and wire a singleton, so
  they are not modelled.
- The `profiles` query answers with either a row or an error, because
  `.single()` yields exactly one of the two. A response with neither is not
  modelled.
- `User` immutability is structural: a Dafny datatype value cannot change,
  and its destructors are the only getters. No separate contract states it.
