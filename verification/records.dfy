/** The two document kinds the user controller reads and writes, the
    identity attributes an authenticated request carries, and the outcome
    tags the handlers answer with. */
module Records {

  datatype Option<T> = None | Some(value: T)

  /** A `User` document. Its `_id` is the key of the users table, so it is
      not repeated here; the relationship lists hold user ids. */
  datatype User = User(
    email: string,
    fullName: string,
    username: string,
    bio: string,
    profilePicture: string,
    coverPhoto: string,
    location: string,
    followers: seq<string>,
    following: seq<string>,
    connections: seq<string>)

  /** The state of a connection request: it is created pending and only
      ever moves to accepted. */
  datatype Status = Pending | Accepted

  /** A `Connection` document: a request from `from` to `to`, stamped with
      its creation time in milliseconds. */
  datatype Request = Request(from: string, to: string, status: Status, createdAt: int)

  /** What the identity provider says about the caller. A claim it leaves
      out is the empty string, as the `authData?.x || ''` reads make it. */
  datatype Auth = Auth(userId: string, email: string, fullName: string, username: string)

  /** The handler's answer: `Success` is `{success: true}`; every other tag
      is a `{success: false, message}` reply. `MissingUser` is the reply of
      a handler that dereferenced a user the store does not hold: the
      thrown TypeError is caught and reported with its message. */
  datatype Reply =
    | Success
    | AlreadyFollowing
    | RateLimited
    | AlreadyConnected
    | RequestPending
    | ConnectionNotFound
    | MissingUser

  /** The bio every auto-created user starts with. */
  const DefaultBio: string := "Hey there! I am using PingUp."

  /** Twenty-four hours in milliseconds: the span of the rate limit. */
  const Day: int := 24 * 60 * 60 * 1000

  /** How many requests one sender may have in the trailing window. */
  const RequestLimit: nat := 20

  /** A fresh user document with empty relationship lists and the default
      profile fields; only the three identity fields vary between the
      places that create users. */
  function NewUser(email: string, fullName: string, username: string): (u: User)
    ensures u.email == email && u.fullName == fullName && u.username == username
    ensures u.bio == DefaultBio && u.profilePicture == "" && u.coverPhoto == "" && u.location == ""
    ensures u.followers == [] && u.following == [] && u.connections == []
  {
    User(email, fullName, username, DefaultBio, "", "", "", [], [], [])
  }
}
