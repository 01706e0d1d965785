/** Runs of the service from an empty store, proved from the operations'
    contracts alone. */
module Scenarios {
  import opened Text
  import opened Hex
  import opened EmailFormat
  import opened Tables
  import opened Auth

  /** Register, then follow a forged link, the real link, and the real link
      once more. The first account of an empty store gets id 0. */
  method RegisterThenVerify(hasher: Hasher, email: string, username: string, password: string,
                            wrongSecret: string, tokenBytes: seq<byte>, salt: Salt)
    returns (registered: Response<VerifyLink>, stored: Response<User>,
             forged: Response<()>, verified: Response<()>, replayed: Response<()>)
    requires Sound(hasher)
    requires Trim(email) != [] && Trim(username) != [] && Trim(password) != [] && ValidateEmail(Trim(email))
    requires |tokenBytes| == 16 && wrongSecret != ToHex(tokenBytes)
    ensures registered == Ok(EmailSentMsg, VerifyLink(0, ToHex(tokenBytes)))
    ensures stored.Ok? && stored.value.email == Trim(email) && stored.value.username == Trim(username)
    ensures stored.Ok? && !stored.value.verified && hasher.compare(Trim(password), stored.value.passwordHash)
    ensures forged == NotFound(InvalidLinkMsg)
    ensures verified == Ok(VerifiedMsg, ())
    ensures replayed == NotFound(InvalidLinkMsg)
  {
    var service := new AuthService(hasher);
    registered := service.Register(email, username, password, tokenBytes, salt);
    assert registered.Ok? by { assert !IdentityTaken([], Trim(email), Trim(username)); }
    assert |service.users| == 1 && service.users[0].id == 0;
    assert |service.tokens| == 1 && service.tokens[0].userId == 0 && service.tokens[0].secret == registered.value.secret;
    stored := service.GetUser(0);
    assert !HasPendingToken(service.tokens, 0, wrongSecret);
    forged := service.Verify(0, wrongSecret);
    verified := service.Verify(0, registered.value.secret);
    replayed := service.Verify(0, registered.value.secret);
  }

  /** Logging in before verifying is refused with a reminder; after
      verifying, the right password gets a three-hour credential and a
      wrong one is refused. */
  method LoginAroundVerify(hasher: Hasher, email: string, username: string, password: string,
                           wrongPassword: string, tokenBytes: seq<byte>, salt: Salt, now: nat)
    returns (early: Response<Credential>, login: Response<Credential>, refused: Response<Credential>)
    requires Sound(hasher)
    requires Trim(email) != [] && Trim(username) != [] && Trim(password) != [] && ValidateEmail(Trim(email))
    requires |tokenBytes| == 16
    requires Trim(wrongPassword) != [] && !hasher.compare(Trim(wrongPassword), hasher.hash(Trim(password), HashCost, salt))
    ensures early == Unauthorized(PleaseVerifyMsg)
    ensures login == Ok(LoginSuccessMsg, Credential(Trim(email), 0, Trim(username), now, now + SessionLifetime))
    ensures refused == Unauthorized(WrongCredentialsMsg)
  {
    var service := new AuthService(hasher);
    var link := service.Register(email, username, password, tokenBytes, salt);
    assert link.Ok? by { assert !IdentityTaken([], Trim(email), Trim(username)); }
    assert |service.users| == 1 && service.users[0].id == 0;
    assert |service.tokens| == 1 && service.tokens[0].userId == 0 && service.tokens[0].secret == link.value.secret;
    assert FirstNamed(service.users, Trim(username), 0);
    early := service.Login(username, password, false, now);
    var verified := service.Verify(0, link.value.secret);
    assert FirstNamed(service.users, Trim(username), 0);
    login := service.Login(username, password, false, now);
    refused := service.Login(username, wrongPassword, false, now);
  }

  /** A second registration whose email differs from the first only in
      case is a conflict, and the store still holds one account. */
  method RegisterSameEmailTwice(hasher: Hasher, email: string, username: string, password: string,
                                otherEmail: string, otherUsername: string, otherPassword: string,
                                tokenBytes: seq<byte>, otherBytes: seq<byte>, salt: Salt)
    returns (first: Response<VerifyLink>, second: Response<VerifyLink>, accounts: nat)
    requires Sound(hasher)
    requires Trim(email) != [] && Trim(username) != [] && Trim(password) != [] && ValidateEmail(Trim(email))
    requires EqualsIgnoreCase(Trim(otherEmail), Trim(email))
    requires Trim(otherUsername) != [] && Trim(otherPassword) != []
    requires |tokenBytes| == 16 && |otherBytes| == 16
    ensures first.Ok? && second == Conflict(DuplicateMsg) && accounts == 1
  {
    var service := new AuthService(hasher);
    first := service.Register(email, username, password, tokenBytes, salt);
    ValidateEmailIgnoresCase(Trim(otherEmail), Trim(email));
    assert IdentityTaken(service.users, Trim(otherEmail), Trim(otherUsername)) by {
      assert EqualsIgnoreCase(service.users[0].email, Trim(otherEmail));
    }
    second := service.Register(otherEmail, otherUsername, otherPassword, otherBytes, salt);
    accounts := |service.users|;
  }
}
