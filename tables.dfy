/** The two stored collections and the lookups the controller runs on them.
    A collection is an ordered sequence of documents, as a `find` query
    returns them; ids are unique by the service's invariant. */
module Tables {
  import opened Hex

  datatype Option<T> = None | Some(value: T)

  type UserId = nat
  type TokenId = nat
  type PasswordHash = string

  /** A stored account: the `User` document of the controller. */
  datatype User = User(id: UserId, email: string, username: string, passwordHash: PasswordHash, verified: bool)

  /** A stored verification token: the `Token` document. */
  datatype Token = Token(id: TokenId, userId: UserId, secret: string)

  /** The position of the first element satisfying `p`, which is what
      `findOne`, `findById` and `find(...)[0]` return. */
  function FirstIndex<T>(s: seq<T>, p: T -> bool): (r: Option<nat>)
    ensures r.Some? ==> r.value < |s| && p(s[r.value]) && forall j :: 0 <= j < r.value ==> !p(s[j])
    ensures r.None? ==> forall j :: 0 <= j < |s| ==> !p(s[j])
  {
    if s == [] then None
    else if p(s[0]) then Some(0)
    else match FirstIndex(s[1..], p)
      case None => None
      case Some(k) => Some(k + 1)
  }

  /** `User.findById(id)`. */
  function IndexOfUser(users: seq<User>, id: UserId): Option<nat> {
    FirstIndex(users, (u: User) => u.id == id)
  }

  /** `User.find({ username })[0]`: exact, case-sensitive match. */
  function IndexOfUsername(users: seq<User>, name: string): Option<nat> {
    FirstIndex(users, (u: User) => u.username == name)
  }

  /** `Token.findOne({ userId, token: secret })`. */
  function IndexOfToken(tokens: seq<Token>, userId: UserId, secret: string): Option<nat> {
    FirstIndex(tokens, (t: Token) => t.userId == userId && t.secret == secret)
  }

  predicate HasUser(users: seq<User>, id: UserId) {
    exists i | 0 <= i < |users| :: users[i].id == id
  }

  predicate HasTokenId(tokens: seq<Token>, id: TokenId) {
    exists k | 0 <= k < |tokens| :: tokens[k].id == id
  }

  /** Some token binds this user to this secret. */
  predicate HasPendingToken(tokens: seq<Token>, userId: UserId, secret: string) {
    exists k | 0 <= k < |tokens| :: tokens[k].userId == userId && tokens[k].secret == secret
  }

  /** Some token, whatever its secret, is bound to this user. */
  predicate HasTokenFor(tokens: seq<Token>, userId: UserId) {
    exists k | 0 <= k < |tokens| :: tokens[k].userId == userId
  }

  /** The collection with the element at `k` deleted: the elements before
      it keep their place, those after it move down by one. */
  function RemoveAt<T>(s: seq<T>, k: nat): (r: seq<T>)
    requires k < |s|
    ensures |r| == |s| - 1
    ensures forall j :: 0 <= j < k ==> r[j] == s[j]
    ensures forall j :: k <= j < |r| ==> r[j] == s[j + 1]
  {
    s[..k] + s[k + 1..]
  }
}
