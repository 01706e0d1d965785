/** The account lifecycle of the controller: registration, email
    verification, login, account lookup and the bulk wipe, over the user
    and token collections. Every outcome is a `Response`; HTTP status
    codes and JSON bodies are not modelled. */
module Auth {
  import opened Text
  import opened Hex
  import opened EmailFormat
  import opened Tables

  type Salt = seq<byte>

  /** The bcrypt cost factor passed to `bcrypt.hash` (rounds). */
  const HashCost: nat := 10

  /** `jsonwebtoken`'s `expiresIn: '3h'`, in seconds. */
  const SessionLifetime: nat := 3 * 60 * 60

  /** The password hasher: `hash(password, cost, salt)` and
      `compare(password, storedHash)`. Both are left abstract. */
  datatype Hasher = Hasher(hash: (string, nat, Salt) -> PasswordHash, compare: (string, PasswordHash) -> bool)

  /** What bcrypt guarantees and the model relies on: a password matches
      its own hash, whatever the cost and salt. */
  ghost predicate Sound(h: Hasher) {
    forall p, c, s :: h.compare(p, h.hash(p, c, s))
  }

  /** The claims the session credential carries, with the issue and expiry
      times (`iat`, `exp`, in seconds) that signing adds. */
  datatype Credential = Credential(email: string, userId: UserId, username: string, issuedAt: nat, expiresAt: nat)

  /** The link mailed at registration: the account id and token secret. */
  datatype VerifyLink = VerifyLink(userId: UserId, secret: string)

  /** An operation's outcome, with the message the controller sends. */
  datatype Response<T> =
    | Ok(message: string, value: T)
    | ValidationError(message: string)
    | Conflict(message: string)
    | NotFound(message: string)
    | Unauthorized(message: string)

  const FieldsCompulsoryMsg := "Failure: All Fields are Compulsory!"
  const InvalidEmailMsg := "Failure: Invalid Email Format!"
  const DuplicateMsg := "Failure: Duplicate Username/Email!"
  const EmailSentMsg := "An email has been sent to your account. Please verify."
  const InvalidLinkMsg := "Failure: Invalid Link!"
  const VerifiedMsg := "Email Verified. You can log in to your account now."
  const LoginFieldsMsg := "Authentication Failed: All Fields are Compulsory!"
  const WrongCredentialsMsg := "Authentication Failed: Wrong Username or Password!"
  const PleaseVerifyMsg := "Authentication Failed: Please verify account before continuing."
  const LoginSuccessMsg := "Authentication successful"
  const UserFoundMsg := "Success: User found!"
  const NoUserMsg := "Failure: Invalid ID. No User Found!"
  const DeletedMsg := "Success: All Users and Tokens Deleted"

  /** The duplicate check of registration: some stored user has the email,
      or the username, ignoring case. The controller builds an anchored,
      case-insensitive regular expression from the raw input, so that
      regular-expression characters in it (".", "+", "|", ...) act as
      operators: a "+" makes it miss a true duplicate ("^john+x@a.com$"
      does not match "john+x@a.com"). The model uses the case-insensitive
      equality that expression is meant to express. */
  predicate IdentityTaken(users: seq<User>, email: string, username: string) {
    exists i | 0 <= i < |users| :: EqualsIgnoreCase(users[i].email, email) || EqualsIgnoreCase(users[i].username, username)
  }

  /** `i` is the position of the first user whose username is `name`. */
  predicate FirstNamed(users: seq<User>, name: string, i: int) {
    0 <= i < |users| && users[i].username == name
    && forall j :: 0 <= j < i ==> users[j].username != name
  }

  // ---------------------------------------------------------------------
  // The invariant of the two collections.

  predicate UniqueIds(users: seq<User>, tokens: seq<Token>) {
    (forall a, b :: 0 <= a < b < |users| ==> users[a].id != users[b].id)
    && (forall a, b :: 0 <= a < b < |tokens| ==> tokens[a].id != tokens[b].id)
  }

  /** No two accounts share an email or a username, ignoring case. */
  predicate DistinctIdentities(users: seq<User>) {
    forall a, b :: 0 <= a < b < |users| ==>
      !EqualsIgnoreCase(users[a].email, users[b].email) && !EqualsIgnoreCase(users[a].username, users[b].username)
  }

  /** Stored fields are what registration accepted: a trimmed, valid email
      and a trimmed, non-empty username. */
  predicate WellFormedUser(u: User) {
    IsTrimmed(u.email) && ValidateEmail(u.email) && IsTrimmed(u.username) && u.username != []
  }

  /** Every token belongs to a stored account, carries a minted secret, and
      no account has two of them. */
  predicate TokensOwned(users: seq<User>, tokens: seq<Token>) {
    (forall k :: 0 <= k < |tokens| ==> HasUser(users, tokens[k].userId) && IsTokenSecret(tokens[k].secret))
    && (forall a, b :: 0 <= a < b < |tokens| ==> tokens[a].userId != tokens[b].userId)
  }

  /** An account is verified exactly when no token is pending for it. */
  predicate VerifiedIffRedeemed(users: seq<User>, tokens: seq<Token>) {
    forall i :: 0 <= i < |users| ==> (users[i].verified <==> !HasTokenFor(tokens, users[i].id))
  }

  predicate Consistent(users: seq<User>, tokens: seq<Token>) {
    UniqueIds(users, tokens) && DistinctIdentities(users)
    && (forall i :: 0 <= i < |users| ==> WellFormedUser(users[i]))
    && TokensOwned(users, tokens) && VerifiedIffRedeemed(users, tokens)
  }

  /** Every stored id is below the next one the store hands out. */
  predicate IdsBelow(users: seq<User>, tokens: seq<Token>, nextUserId: UserId, nextTokenId: TokenId) {
    (forall i :: 0 <= i < |users| ==> users[i].id < nextUserId)
    && (forall k :: 0 <= k < |tokens| ==> tokens[k].id < nextTokenId)
  }

  /** The service: the two collections, the hasher, and the ids the store
      assigns to the next inserted documents. */
  class AuthService {
    const hasher: Hasher
    var users: seq<User>
    var tokens: seq<Token>
    var nextUserId: UserId
    var nextTokenId: TokenId

    ghost predicate Valid()
      reads this
    {
      Sound(hasher) && Consistent(users, tokens) && IdsBelow(users, tokens, nextUserId, nextTokenId)
    }

    constructor (hasher: Hasher)
      requires Sound(hasher)
      ensures Valid() && this.hasher == hasher && users == [] && tokens == []
      ensures nextUserId == 0 && nextTokenId == 0
    {
      this.hasher := hasher;
      users := [];
      tokens := [];
      nextUserId := 0;
      nextTokenId := 0;
    }

    /** `createUser`. The checks run in the order of the controller: blank
        fields, email format, duplicate identity; only then are the user and
        its token stored, under the ids the store hands out next.
        `tokenBytes` stands for `randomBytes(16)`, `salt` for the salt bcrypt
        draws. */
    method Register(email: string, username: string, password: string, tokenBytes: seq<byte>, salt: Salt)
      returns (r: Response<VerifyLink>)
      requires Valid()
      requires |tokenBytes| == 16
      modifies this
      ensures Valid()
      ensures Trim(email) == [] || Trim(username) == [] || Trim(password) == [] ==>
        r == ValidationError(FieldsCompulsoryMsg)
      ensures Trim(email) != [] && Trim(username) != [] && Trim(password) != [] && !ValidateEmail(Trim(email)) ==>
        r == ValidationError(InvalidEmailMsg)
      ensures (Trim(email) != [] && Trim(username) != [] && Trim(password) != [] && ValidateEmail(Trim(email))
               && IdentityTaken(old(users), Trim(email), Trim(username))) ==>
        r == Conflict(DuplicateMsg)
      ensures r.Ok? <==>
        Trim(email) != [] && Trim(username) != [] && Trim(password) != [] && ValidateEmail(Trim(email))
        && !IdentityTaken(old(users), Trim(email), Trim(username))
      ensures !r.Ok? ==>
        && users == old(users) && tokens == old(tokens)
        && nextUserId == old(nextUserId) && nextTokenId == old(nextTokenId)
      ensures r.Ok? ==>
        var uid := old(nextUserId);
        && r == Ok(EmailSentMsg, VerifyLink(uid, ToHex(tokenBytes)))
        && users == old(users) + [User(uid, Trim(email), Trim(username), hasher.hash(Trim(password), HashCost, salt), false)]
        && tokens == old(tokens) + [Token(old(nextTokenId), uid, ToHex(tokenBytes))]
        && nextUserId == uid + 1 && nextTokenId == old(nextTokenId) + 1
    {
      var e, n, p := Trim(email), Trim(username), Trim(password);
      if e == [] || n == [] || p == [] {
        return ValidationError(FieldsCompulsoryMsg);
      }
      if !ValidateEmail(e) {
        return ValidationError(InvalidEmailMsg);
      }
      if IdentityTaken(users, e, n) {
        return Conflict(DuplicateMsg);
      }
      var user := User(nextUserId, e, n, hasher.hash(p, HashCost, salt), false);
      var token := Token(nextTokenId, nextUserId, ToHex(tokenBytes));
      assert WellFormedUser(user);
      assert IsTokenSecret(token.secret);
      FreshIds(users, tokens, nextUserId, nextTokenId);
      ghost var oldUsers, oldTokens := users, tokens;
      users := users + [user];
      tokens := tokens + [token];
      RegisterKeepsConsistent(oldUsers, oldTokens, user, token);
      RegisterKeepsIdsBelow(oldUsers, oldTokens, user, token, nextUserId, nextTokenId);
      r := Ok(EmailSentMsg, VerifyLink(nextUserId, token.secret));
      nextUserId, nextTokenId := nextUserId + 1, nextTokenId + 1;
    }

    /** `getEmailVerification`: the account is looked up, then a token bound
        to it with that secret; the token is deleted and the account marked
        verified. Either lookup failing gives the same "Invalid Link". */
    method Verify(id: UserId, secret: string) returns (r: Response<()>)
      requires Valid()
      modifies this
      ensures Valid()
      ensures r.Ok? <==> HasUser(old(users), id) && HasPendingToken(old(tokens), id, secret)
      ensures !r.Ok? ==> r == NotFound(InvalidLinkMsg) && users == old(users) && tokens == old(tokens)
      ensures r.Ok? ==>
        && r == Ok(VerifiedMsg, ())
        && IndexOfUser(old(users), id).Some? && IndexOfToken(old(tokens), id, secret).Some?
        && var i, k := IndexOfUser(old(users), id).value, IndexOfToken(old(tokens), id, secret).value;
          && users == old(users)[i := old(users)[i].(verified := true)]
          && tokens == RemoveAt(old(tokens), k)
      ensures r.Ok? ==> !HasTokenFor(tokens, id)
      ensures nextUserId == old(nextUserId) && nextTokenId == old(nextTokenId)
    {
      var ui := IndexOfUser(users, id);
      if ui.None? {
        return NotFound(InvalidLinkMsg);
      }
      var user := users[ui.value];
      var tk := IndexOfToken(tokens, user.id, secret);
      if tk.None? {
        return NotFound(InvalidLinkMsg);
      }
      ghost var oldUsers, oldTokens := users, tokens;
      tokens := RemoveAt(tokens, tk.value);
      users := users[ui.value := user.(verified := true)];
      VerifyKeepsConsistent(oldUsers, oldTokens, ui.value, tk.value);
      VerifyKeepsIdsBelow(oldUsers, oldTokens, ui.value, tk.value, nextUserId, nextTokenId);
      r := Ok(VerifiedMsg, ());
    }

    /** `userLogin`. No collection is changed. `compareFault` stands for
        `bcrypt.compare` reporting an error (a malformed stored hash); `now`
        is the signing time in seconds. */
    function Login(username: string, password: string, compareFault: bool, now: nat): (r: Response<Credential>)
      reads this
      ensures r.ValidationError? <==> Trim(username) == [] || Trim(password) == []
      ensures r.ValidationError? ==> r.message == LoginFieldsMsg
      ensures r.Ok? <==>
        Trim(username) != [] && Trim(password) != [] && !compareFault
        && exists i :: FirstNamed(users, Trim(username), i) && users[i].verified
             && hasher.compare(Trim(password), users[i].passwordHash)
      ensures r.Ok? ==>
        && r.message == LoginSuccessMsg
        && exists i :: FirstNamed(users, Trim(username), i)
             && r.value == Credential(users[i].email, users[i].id, users[i].username, now, now + SessionLifetime)
      ensures r == Unauthorized(PleaseVerifyMsg) <==>
        Trim(username) != [] && Trim(password) != [] && !compareFault
        && exists i :: FirstNamed(users, Trim(username), i) && !users[i].verified
      ensures r.Unauthorized? ==> r.message == WrongCredentialsMsg || r.message == PleaseVerifyMsg
      ensures !r.Conflict? && !r.NotFound?
    {
      var name, pass := Trim(username), Trim(password);
      if name == [] || pass == [] then ValidationError(LoginFieldsMsg)
      else
        IndexOfUsernameIsFirst(users, name);
        match IndexOfUsername(users, name)
        case None => Unauthorized(WrongCredentialsMsg)
        case Some(i) =>
          var u := users[i];
          if compareFault then Unauthorized(WrongCredentialsMsg)
          else if u.verified && hasher.compare(pass, u.passwordHash) then
            Ok(LoginSuccessMsg, Credential(u.email, u.id, u.username, now, now + SessionLifetime))
          else if !u.verified then Unauthorized(PleaseVerifyMsg)
          else Unauthorized(WrongCredentialsMsg)
    }

    /** `getUser`: the stored account with that id, or "No User Found". */
    function GetUser(id: UserId): (r: Response<User>)
      reads this
      ensures r.Ok? <==> HasUser(users, id)
      ensures r.Ok? ==> r.message == UserFoundMsg && r.value in users && r.value.id == id
      ensures !r.Ok? ==> r == NotFound(NoUserMsg)
    {
      match IndexOfUser(users, id)
      case None => NotFound(NoUserMsg)
      case Some(i) => Ok(UserFoundMsg, users[i])
    }

    /** `deleteAllUsers`: both collections are emptied. */
    method DeleteAll() returns (r: Response<()>)
      requires Valid()
      modifies this
      ensures Valid() && users == [] && tokens == []
      ensures nextUserId == old(nextUserId) && nextTokenId == old(nextTokenId)
      ensures r == Ok(DeletedMsg, ())
    {
      users := [];
      tokens := [];
      r := Ok(DeletedMsg, ());
    }
  }

  /** The lookup by username finds exactly the first user of that name. */
  lemma IndexOfUsernameIsFirst(users: seq<User>, name: string)
    ensures IndexOfUsername(users, name).Some? ==> FirstNamed(users, name, IndexOfUsername(users, name).value)
    ensures IndexOfUsername(users, name).None? <==> forall i :: !FirstNamed(users, name, i)
    ensures forall i, j :: FirstNamed(users, name, i) && FirstNamed(users, name, j) ==> i == j
  {
    var p := (u: User) => u.username == name;
    match FirstIndex(users, p)
    case None =>
      forall i | 0 <= i < |users| ensures users[i].username != name {
        assert !p(users[i]);
      }
    case Some(k) =>
      forall j | 0 <= j < k ensures users[j].username != name {
        assert !p(users[j]);
      }
      assert FirstNamed(users, name, k);
  }

  // ---------------------------------------------------------------------
  // What login promises.

  /** No account of that name, a failed hash comparison, and a wrong
      password on a verified account all get the same answer, so the
      response does not tell which usernames exist. */
  lemma LoginDoesNotRevealAccounts(s: AuthService, username: string, password: string, compareFault: bool, now: nat)
    requires Trim(username) != [] && Trim(password) != []
    requires || (forall i :: !FirstNamed(s.users, Trim(username), i))
             || compareFault
             || exists i :: FirstNamed(s.users, Trim(username), i) && s.users[i].verified
                  && !s.hasher.compare(Trim(password), s.users[i].passwordHash)
    ensures s.Login(username, password, compareFault, now) == Unauthorized(WrongCredentialsMsg)
  {
    IndexOfUsernameIsFirst(s.users, Trim(username));
  }

  /** An unverified account is told to verify, whatever password is given. */
  lemma LoginUnverifiedIgnoresPassword(s: AuthService, username: string, p1: string, p2: string, now: nat)
    requires Trim(username) != [] && Trim(p1) != [] && Trim(p2) != []
    requires exists i :: FirstNamed(s.users, Trim(username), i) && !s.users[i].verified
    ensures s.Login(username, p1, false, now) == s.Login(username, p2, false, now) == Unauthorized(PleaseVerifyMsg)
  {
  }

  /** In a consistent store the account a login finds is the only one with
      that username, so taking the first match decides nothing. */
  lemma LoginFindsTheOnlyAccount(s: AuthService, name: string, i: nat)
    requires s.Valid() && i < |s.users| && s.users[i].username == name
    ensures FirstNamed(s.users, name, i)
    ensures forall j :: 0 <= j < |s.users| && j != i ==> s.users[j].username != name
  {
    forall j | 0 <= j < |s.users| && j != i
      ensures s.users[j].username != name
    {
      if j < i {
        assert !EqualsIgnoreCase(s.users[j].username, s.users[i].username);
      } else {
        assert !EqualsIgnoreCase(s.users[i].username, s.users[j].username);
      }
    }
  }

  /** A credential is only ever issued for a verified account whose stored
      hash accepts the password, and it lives exactly three hours. */
  lemma LoginCredentialIsSound(s: AuthService, username: string, password: string, compareFault: bool, now: nat)
    requires s.Login(username, password, compareFault, now).Ok?
    ensures var c := s.Login(username, password, compareFault, now).value;
      && c.expiresAt == c.issuedAt + SessionLifetime
      && exists i :: 0 <= i < |s.users| && s.users[i].verified && s.users[i].id == c.userId
           && s.users[i].email == c.email && s.users[i].username == c.username == Trim(username)
           && s.hasher.compare(Trim(password), s.users[i].passwordHash)
  {
  }

  // ---------------------------------------------------------------------
  // The invariant is kept by every operation that writes.

  lemma RegisterKeepsConsistent(users: seq<User>, tokens: seq<Token>, u: User, t: Token)
    requires Consistent(users, tokens)
    requires !HasUser(users, u.id) && !HasTokenId(tokens, t.id)
    requires WellFormedUser(u) && !u.verified
    requires !IdentityTaken(users, u.email, u.username)
    requires t.userId == u.id && IsTokenSecret(t.secret)
    ensures Consistent(users + [u], tokens + [t])
  {
    NewUserHasNoToken(users, tokens, u.id);
    RegisterKeepsUniqueIds(users, tokens, u, t);
    RegisterKeepsDistinct(users, u);
    RegisterKeepsWellFormed(users, u);
    RegisterKeepsTokensOwned(users, tokens, u, t);
    RegisterKeepsVerifiedIff(users, tokens, u, t);
  }

  lemma RegisterKeepsUniqueIds(users: seq<User>, tokens: seq<Token>, u: User, t: Token)
    requires UniqueIds(users, tokens) && !HasUser(users, u.id) && !HasTokenId(tokens, t.id)
    ensures UniqueIds(users + [u], tokens + [t])
  {
    var us, ts := users + [u], tokens + [t];
    forall a, b | 0 <= a < b < |us| ensures us[a].id != us[b].id {
      if b == |users| {
        assert us[a] == users[a];
      }
    }
    forall a, b | 0 <= a < b < |ts| ensures ts[a].id != ts[b].id {
      if b == |tokens| {
        assert ts[a] == tokens[a];
      }
    }
  }

  lemma RegisterKeepsDistinct(users: seq<User>, u: User)
    requires DistinctIdentities(users) && !IdentityTaken(users, u.email, u.username)
    ensures DistinctIdentities(users + [u])
  {
    var us := users + [u];
    forall a, b | 0 <= a < b < |us|
      ensures !EqualsIgnoreCase(us[a].email, us[b].email) && !EqualsIgnoreCase(us[a].username, us[b].username)
    {
      if b == |users| {
        assert !(EqualsIgnoreCase(users[a].email, u.email) || EqualsIgnoreCase(users[a].username, u.username));
      }
    }
  }

  lemma RegisterKeepsWellFormed(users: seq<User>, u: User)
    requires forall i :: 0 <= i < |users| ==> WellFormedUser(users[i])
    requires WellFormedUser(u)
    ensures forall i :: 0 <= i < |users + [u]| ==> WellFormedUser((users + [u])[i])
  {
    var us := users + [u];
    forall i | 0 <= i < |us| ensures WellFormedUser(us[i]) {
      if i < |users| { assert us[i] == users[i]; }
    }
  }

  /** The next ids are taken by no stored document. */
  lemma FreshIds(users: seq<User>, tokens: seq<Token>, nextUserId: UserId, nextTokenId: TokenId)
    requires IdsBelow(users, tokens, nextUserId, nextTokenId)
    ensures !HasUser(users, nextUserId) && !HasTokenId(tokens, nextTokenId)
  {
  }

  lemma RegisterKeepsIdsBelow(users: seq<User>, tokens: seq<Token>, u: User, t: Token, nextUserId: UserId, nextTokenId: TokenId)
    requires IdsBelow(users, tokens, nextUserId, nextTokenId) && u.id == nextUserId && t.id == nextTokenId
    ensures IdsBelow(users + [u], tokens + [t], nextUserId + 1, nextTokenId + 1)
  {
    var us, ts := users + [u], tokens + [t];
    forall i | 0 <= i < |us| ensures us[i].id < nextUserId + 1 {
      if i < |users| { assert us[i] == users[i]; }
    }
    forall k | 0 <= k < |ts| ensures ts[k].id < nextTokenId + 1 {
      if k < |tokens| { assert ts[k] == tokens[k]; }
    }
  }

  lemma VerifyKeepsIdsBelow(users: seq<User>, tokens: seq<Token>, i: nat, k: nat, nextUserId: UserId, nextTokenId: TokenId)
    requires IdsBelow(users, tokens, nextUserId, nextTokenId) && i < |users| && k < |tokens|
    ensures IdsBelow(users[i := users[i].(verified := true)], RemoveAt(tokens, k), nextUserId, nextTokenId)
  {
    var ts := RemoveAt(tokens, k);
    forall m | 0 <= m < |ts| ensures ts[m].id < nextTokenId {
      RemoveAtSource(tokens, k, m);
    }
  }

  /** A fresh id has no token yet, since every token belongs to a stored user. */
  lemma NewUserHasNoToken(users: seq<User>, tokens: seq<Token>, id: UserId)
    requires TokensOwned(users, tokens) && !HasUser(users, id)
    ensures !HasTokenFor(tokens, id)
  {
  }

  lemma RegisterKeepsTokensOwned(users: seq<User>, tokens: seq<Token>, u: User, t: Token)
    requires TokensOwned(users, tokens) && !HasTokenFor(tokens, u.id)
    requires t.userId == u.id && IsTokenSecret(t.secret)
    ensures TokensOwned(users + [u], tokens + [t])
  {
    var us, ts := users + [u], tokens + [t];
    forall k | 0 <= k < |ts| ensures HasUser(us, ts[k].userId) {
      if k < |tokens| {
        assert HasUser(users, tokens[k].userId);
        var i :| 0 <= i < |users| && users[i].id == tokens[k].userId;
        assert us[i].id == ts[k].userId;
      } else {
        assert us[|users|].id == ts[k].userId;
      }
    }
    forall a, b | 0 <= a < b < |ts| ensures ts[a].userId != ts[b].userId {
      if b == |tokens| {
        assert tokens[a].userId != u.id;
      }
    }
  }

  lemma RegisterKeepsVerifiedIff(users: seq<User>, tokens: seq<Token>, u: User, t: Token)
    requires VerifiedIffRedeemed(users, tokens) && !HasUser(users, u.id)
    requires !u.verified && t.userId == u.id
    ensures VerifiedIffRedeemed(users + [u], tokens + [t])
  {
    var us, ts := users + [u], tokens + [t];
    forall i | 0 <= i < |us| ensures us[i].verified <==> !HasTokenFor(ts, us[i].id) {
      if i < |users| {
        assert users[i].id != u.id;
        if HasTokenFor(ts, us[i].id) {
          var k :| 0 <= k < |ts| && ts[k].userId == us[i].id;
          assert k < |tokens| && tokens[k].userId == users[i].id;
        }
        if HasTokenFor(tokens, users[i].id) {
          var k :| 0 <= k < |tokens| && tokens[k].userId == users[i].id;
          assert ts[k].userId == us[i].id;
        }
      } else {
        assert ts[|tokens|].userId == us[i].id;
      }
    }
  }

  lemma VerifyKeepsConsistent(users: seq<User>, tokens: seq<Token>, i: nat, k: nat)
    requires Consistent(users, tokens)
    requires i < |users| && k < |tokens| && tokens[k].userId == users[i].id
    ensures var us, ts := users[i := users[i].(verified := true)], RemoveAt(tokens, k);
      Consistent(us, ts) && !HasTokenFor(ts, users[i].id)
  {
    VerifyKeepsUsers(users, i);
    VerifyKeepsUniqueTokenIds(tokens, k);
    VerifyKeepsTokensOwned(users, tokens, i, k);
    RedeemedTokenWasTheOnlyOne(tokens, k);
    VerifyKeepsVerifiedIff(users, tokens, i, k);
  }

  /** Marking an account verified changes no id, email or username. */
  lemma VerifyKeepsUsers(users: seq<User>, i: nat)
    requires i < |users| && forall a, b :: 0 <= a < b < |users| ==> users[a].id != users[b].id
    requires DistinctIdentities(users) && forall j :: 0 <= j < |users| ==> WellFormedUser(users[j])
    ensures var us := users[i := users[i].(verified := true)];
      && (forall a, b :: 0 <= a < b < |us| ==> us[a].id != us[b].id)
      && DistinctIdentities(us)
      && forall j :: 0 <= j < |us| ==> WellFormedUser(us[j])
  {
    var us := users[i := users[i].(verified := true)];
    assert forall j :: 0 <= j < |us| ==> us[j].id == users[j].id && us[j].email == users[j].email && us[j].username == users[j].username;
    forall j | 0 <= j < |us| ensures WellFormedUser(us[j]) {
      assert WellFormedUser(users[j]);
    }
  }

  lemma VerifyKeepsUniqueTokenIds(tokens: seq<Token>, k: nat)
    requires k < |tokens| && forall a, b :: 0 <= a < b < |tokens| ==> tokens[a].id != tokens[b].id
    ensures var ts := RemoveAt(tokens, k); forall a, b :: 0 <= a < b < |ts| ==> ts[a].id != ts[b].id
  {
    var ts := RemoveAt(tokens, k);
    forall a, b | 0 <= a < b < |ts| ensures ts[a].id != ts[b].id {
      RemoveAtSource(tokens, k, a);
      RemoveAtSource(tokens, k, b);
    }
  }

  /** Where an element of `RemoveAt(s, k)` came from in `s`. */
  lemma RemoveAtSource<T>(s: seq<T>, k: nat, m: nat)
    requires k < |s| && m < |s| - 1
    ensures RemoveAt(s, k)[m] == s[if m < k then m else m + 1]
  {
  }

  /** With at most one token per user, deleting a user's token leaves none. */
  lemma RedeemedTokenWasTheOnlyOne(tokens: seq<Token>, k: nat)
    requires k < |tokens|
    requires forall a, b :: 0 <= a < b < |tokens| ==> tokens[a].userId != tokens[b].userId
    ensures !HasTokenFor(RemoveAt(tokens, k), tokens[k].userId)
  {
    var ts := RemoveAt(tokens, k);
    if HasTokenFor(ts, tokens[k].userId) {
      var m :| 0 <= m < |ts| && ts[m].userId == tokens[k].userId;
      RemoveAtSource(tokens, k, m);
    }
  }

  lemma VerifyKeepsTokensOwned(users: seq<User>, tokens: seq<Token>, i: nat, k: nat)
    requires TokensOwned(users, tokens) && i < |users| && k < |tokens|
    ensures TokensOwned(users[i := users[i].(verified := true)], RemoveAt(tokens, k))
  {
    var us, ts := users[i := users[i].(verified := true)], RemoveAt(tokens, k);
    forall m | 0 <= m < |ts| ensures HasUser(us, ts[m].userId) && IsTokenSecret(ts[m].secret) {
      RemoveAtSource(tokens, k, m);
      var src := if m < k then m else m + 1;
      var j :| 0 <= j < |users| && users[j].id == tokens[src].userId;
      assert us[j].id == ts[m].userId;
    }
    forall a, b | 0 <= a < b < |ts| ensures ts[a].userId != ts[b].userId {
      RemoveAtSource(tokens, k, a);
      RemoveAtSource(tokens, k, b);
    }
  }

  lemma VerifyKeepsVerifiedIff(users: seq<User>, tokens: seq<Token>, i: nat, k: nat)
    requires VerifiedIffRedeemed(users, tokens) && i < |users| && k < |tokens| && tokens[k].userId == users[i].id
    requires forall a, b :: 0 <= a < b < |users| ==> users[a].id != users[b].id
    requires !HasTokenFor(RemoveAt(tokens, k), users[i].id)
    ensures VerifiedIffRedeemed(users[i := users[i].(verified := true)], RemoveAt(tokens, k))
  {
    var us, ts := users[i := users[i].(verified := true)], RemoveAt(tokens, k);
    forall j | 0 <= j < |us| && j != i ensures us[j].verified <==> !HasTokenFor(ts, us[j].id) {
      assert users[j].id != users[i].id;
      if HasTokenFor(ts, us[j].id) {
        var m :| 0 <= m < |ts| && ts[m].userId == us[j].id;
        RemoveAtSource(tokens, k, m);
        assert tokens[if m < k then m else m + 1].userId == users[j].id;
      }
      if HasTokenFor(tokens, users[j].id) {
        var m :| 0 <= m < |tokens| && tokens[m].userId == users[j].id;
        assert m != k;
        var dst := if m < k then m else m - 1;
        RemoveAtSource(tokens, k, dst);
        assert ts[dst].userId == us[j].id;
      }
    }
  }
}
