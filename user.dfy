/** The `User` entity: an immutable value validated against `UserSchema`
    when it is constructed. The email and URL format rules belong to zod and
    are kept uninterpreted. */
module UserEntity {
  import opened Results

  /** One field rule of `UserSchema` that a candidate failed. */
  datatype Issue = EmptyId | InvalidEmail | EmptyUsername | InvalidAvatarUrl {

    /** The position of the field in the schema: id, email, username, avatarUrl. */
    function Field(): nat {
      match this
      case EmptyId => 0
      case InvalidEmail => 1
      case EmptyUsername => 2
      case InvalidAvatarUrl => 3
    }
  }

  /** What the model takes from zod: its email rule, its URL rule, and the
      message of the `ZodError` it throws for a list of failed rules. */
  datatype Zod = Zod(isEmail: string -> bool, isUrl: string -> bool, errorMessage: seq<Issue> -> string)

  /** The four properties of a user; `avatarUrl` may be null. There are no
      setters: the getters are the datatype's destructors. */
  datatype User = User(id: string, email: string, username: string, avatarUrl: Option<string>)

  /** The rules of `UserSchema`. */
  predicate Valid(u: User, zod: Zod) {
    && |u.id| >= 1
    && zod.isEmail(u.email)
    && |u.username| >= 1
    && (u.avatarUrl.Some? ==> zod.isUrl(u.avatarUrl.value))
  }

  /** Every rule a candidate fails, in the schema's field order: zod checks
      every field before it throws. */
  function Issues(u: User, zod: Zod): (issues: seq<Issue>)
    ensures issues == [] <==> Valid(u, zod)
    ensures EmptyId in issues <==> u.id == ""
    ensures InvalidEmail in issues <==> !zod.isEmail(u.email)
    ensures EmptyUsername in issues <==> u.username == ""
    ensures InvalidAvatarUrl in issues <==> u.avatarUrl.Some? && !zod.isUrl(u.avatarUrl.value)
    ensures forall i, j :: 0 <= i < j < |issues| ==> issues[i].Field() < issues[j].Field()
  {
    (if |u.id| >= 1 then [] else [EmptyId])
    + (if zod.isEmail(u.email) then [] else [InvalidEmail])
    + (if |u.username| >= 1 then [] else [EmptyUsername])
    + (if u.avatarUrl.None? || zod.isUrl(u.avatarUrl.value) then [] else [InvalidAvatarUrl])
  }

  /** What `new User(...)` does: a user, or the `ZodError` thrown by
      `UserSchema.parse` with the rules that failed. */
  datatype Construction = Constructed(user: User) | Rejected(issues: seq<Issue>)

  /** The constructor. It succeeds exactly on valid arguments, and then every
      getter returns its argument unchanged. */
  function NewUser(id: string, email: string, username: string, avatarUrl: Option<string>, zod: Zod): (r: Construction)
    ensures r.Constructed? <==> Valid(User(id, email, username, avatarUrl), zod)
    ensures r.Constructed? ==> Valid(r.user, zod)
    ensures r.Constructed? ==>
      r.user.id == id && r.user.email == email && r.user.username == username && r.user.avatarUrl == avatarUrl
    ensures r.Rejected? ==> r.issues != [] && r.issues == Issues(User(id, email, username, avatarUrl), zod)
  {
    var props := User(id, email, username, avatarUrl);
    var issues := Issues(props, zod);
    if issues == [] then Constructed(props) else Rejected(issues)
  }
}
