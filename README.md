# Account controller of the PeerPrep server, modelled in Dafny

This project models the account controller of the PeerPrep server:
`server/src/controllers/authController.js`. It covers two things.

- **The email-format check** `validateEmail`. The check tests one anchored
  regular expression against the lower-cased input. Module `EmailFormat`
  spells that expression out as a grammar of predicates: atom, dot-atom,
  quoted local part, bracketed dotted quad, and label list. It then proves
  that the grammar accepts exactly the strings of a reference description
  written character by character, with no recursion. The quoted local part
  is already written that way, and the reference shares it.
- **The account lifecycle.** `createUser`, `getEmailVerification`,
  `userLogin`, `getUser` and `deleteAllUsers` become the members of class
  `Auth.AuthService`. The class holds:
  - the user collection and the token collection, as ordered sequences of
    documents (a login takes the first document a `find` returns, so order
    matters);
  - the password hasher;
  - the ids the store hands out next.

  Registration, verification and the bulk wipe are methods with
  `modifies this`. Login and lookup are functions: they read the state and
  change nothing.

Every operation ends in a `Response` value: `Ok`, `ValidationError`,
`Conflict`, `NotFound` or `Unauthorized`. Each carries the controller's own
message text. `Valid()` is the class invariant, and every writing operation
preserves it. It states that:
- ids are unique;
- no two accounts share an email or a username, ignoring case;
- stored emails and usernames are trimmed, and stored emails pass the
  format check;
- every token belongs to a stored account and carries a 32-digit hex
  secret;
- no account has two tokens;
- an account is verified exactly when no token is pending for it.

Supporting modules:
- `Text`: ECMAScript `trim`, with its whitespace set, and lower-casing.
- `Hex`: the hex rendering of the 16 random token bytes, with both round
  trips proved.
- `Tables`: the lookups `findById`, `findOne` and `find(...)[0]` as "first
  index satisfying a predicate", and document deletion.
- `Scenarios`: three end-to-end runs from an empty store, proved from the
  contracts alone.

## Model

| member | source | states |
|---|---|---|
| Text.Trim | server/src/controllers/authController.js:55-57 | `trim` leaves no whitespace (ECMAScript WhiteSpace or LineTerminator) at either end of its result |
| Text.TrimIsSlice | server/src/controllers/authController.js:55-57 | the trimmed field is a slice of the input, and only whitespace is cut away before and after it |
| Text.TrimEmptyIff | server/src/controllers/authController.js:60 | a trimmed field is empty (the `!field` test) exactly when the raw field is all whitespace |
| Text.TrimOfTrimmed | server/src/controllers/authController.js:55-57 | trimming a string that has no whitespace at either end gives it back unchanged |
| Text.TrimIdempotent | server/src/controllers/authController.js:55-57 | trimming an already trimmed field changes nothing |
| Text.ToLower | server/src/controllers/authController.js:11 | lower-casing keeps the length and lower-cases every character in place (ASCII letters) |
| Text.ToLowerIdempotent | server/src/controllers/authController.js:11 | lower-casing twice is lower-casing once |
| Hex.ToHex | server/src/controllers/authController.js:103 | `toString('hex')` gives two lower-case hex digits per byte |
| Hex.FromHexToHex | server/src/controllers/authController.js:103 | decoding the hex rendering gives back the bytes |
| Hex.ToHexFromHex | server/src/controllers/authController.js:103 | any even-length lower-case hex string is the rendering of the bytes it decodes to |
| EmailFormat.ValidateEmailIff | server/src/controllers/authController.js:9-12 | `validateEmail` accepts exactly the inputs whose lower-cased form has some "@" with a flat dot-atom or quoted local part before it and a dotted quad or flat host name after it |
| EmailFormat.DotAtomIff | server/src/controllers/authController.js:10 | the local-part alternative `atom(\.atom)*` accepts exactly the non-empty strings of atom characters and dots with no dot at either end and no two dots in a row |
| EmailFormat.HostNameIff | server/src/controllers/authController.js:10 | `([a-zA-Z\-0-9]+\.)+[a-zA-Z]{2,}` accepts exactly the strings of label characters and dots with no leading dot, no two dots in a row, and a last dot followed by two or more letters |
| EmailFormat.ValidateEmailIgnoresCase | server/src/controllers/authController.js:11 | inputs that lower-case alike are accepted or refused alike, and an input is accepted exactly when its lower-cased form is |
| EmailFormat.MatchesAddressOfParts | server/src/controllers/authController.js:10 | any local part, "@" and domain joined together match the expression |
| EmailFormat.Ipv4LiteralIff | server/src/controllers/authController.js:10 | `\[[0-9]{1,3}\.[0-9]{1,3}\.[0-9]{1,3}\.[0-9]{1,3}\]` accepts exactly the strings with a bracket at each end and, between them, digits and exactly three dots, with one to three digits before, between and after the dots |
| EmailFormat.Ipv4LiteralOfGroups | server/src/controllers/authController.js:10 | any four groups of one to three digits, dotted and bracketed, form an accepted literal |
| EmailFormat.UncheckedLiteral | server/src/controllers/authController.js:10 | the literal `[999.999.999.999]` is accepted: group values are not range-checked |
| EmailFormat.ValidateEmailExample | server/src/controllers/authController.js:9-12 | `a@b.com` is accepted |
| EmailFormat.ValidateEmailRefusesBareHost | server/src/controllers/authController.js:10 | `a@b` is refused: a host name needs a dot and a top label of two or more letters |
| Tables.FirstIndex | server/src/controllers/authController.js:195-203 | a lookup returns the position of the first matching document, or reports that none matches |
| Tables.RemoveAt | server/src/controllers/authController.js:152 | deleting one document keeps the earlier ones in place and moves the later ones down by one |
| Auth.AuthService.Register | server/src/controllers/authController.js:54-122 | the checks run in the controller's order and each has its own message: blank field, bad email format, then duplicate email or username ignoring case. Success happens exactly when all three pass. After any refusal both collections and the id counters are unchanged. On success exactly one unverified user is added, with the trimmed email and username and the hash of the trimmed password under cost 10, together with exactly one token bound to it whose secret is the hex of the random bytes; the returned link carries the new id and that secret. `Valid()` is kept |
| Auth.AuthService.Verify | server/src/controllers/authController.js:125-185 | succeeds exactly when the account exists and some token binds it to that secret. Otherwise it returns "Invalid Link" and nothing changes. On success it removes exactly that token and sets exactly that account verified, after which no token is left for the account, so the link works only once. `Valid()` is kept |
| Auth.AuthService.Login | server/src/controllers/authController.js:187-241 | a blank trimmed field is a validation error. A credential is issued exactly when the first account with that exact username is verified, its hash accepts the password, and no comparison error occurs. The credential's claims come from that account and it expires three hours after issue. "Please verify" is returned exactly when that account is unverified. Only the two `Unauthorized` messages and the validation error are ever refused answers |
| Auth.AuthService.GetUser | server/src/controllers/authController.js:32-51 | succeeds exactly when an account with that id is stored, and returns that stored account; otherwise "No User Found" |
| Auth.AuthService.DeleteAll | server/src/controllers/authController.js:244-266 | both collections become empty, the success message is returned, and `Valid()` is kept |
| Auth.IndexOfUsernameIsFirst | server/src/controllers/authController.js:195-203 | `find({ username })[0]` is the first account of that exact name, it is absent exactly when no account has that name, and the first such account is unique |
| Auth.LoginDoesNotRevealAccounts | server/src/controllers/authController.js:198-208 | an unknown username, a comparison error and a wrong password on a verified account all get the identical "Wrong Username or Password" answer |
| Auth.LoginUnverifiedIgnoresPassword | server/src/controllers/authController.js:225-228 | an unverified account is told to verify, whatever password is given |
| Auth.LoginFindsTheOnlyAccount | server/src/controllers/authController.js:195-203 | in a valid store, the account a login finds is the only one with that username, so taking `user[0]` hides no other candidate |
| Auth.LoginCredentialIsSound | server/src/controllers/authController.js:209-219 | an issued credential names a stored, verified account whose hash accepts the password, and it lives exactly three hours |
| Auth.RegisterKeepsConsistent | server/src/controllers/authController.js:88-105 | adding a well-formed, unverified account that has no duplicate, plus one fresh token for it, keeps the store invariant |
| Auth.RegisterKeepsUniqueIds | server/src/controllers/authController.js:88-105 | inserting documents under unused ids keeps ids unique |
| Auth.RegisterKeepsDistinct | server/src/controllers/authController.js:72-79 | passing the duplicate check means no two accounts share an email or username, ignoring case |
| Auth.RegisterKeepsTokensOwned | server/src/controllers/authController.js:101-105 | the new token belongs to the new account, which had no token before |
| Auth.RegisterKeepsVerifiedIff | server/src/controllers/authController.js:88-105 | the new account is unverified and has a pending token, and every other account keeps its status |
| Auth.NewUserHasNoToken | server/src/controllers/authController.js:101-105 | an id that names no stored account has no token |
| Auth.FreshIds | server/src/controllers/authController.js:88-105 | the ids the store hands out next are held by no stored document |
| Auth.VerifyKeepsConsistent | server/src/controllers/authController.js:151-174 | removing the redeemed token and setting its account verified keeps the store invariant, and leaves no token for that account |
| Auth.VerifyKeepsUsers | server/src/controllers/authController.js:162 | setting `verify` on one account keeps ids unique, emails and usernames distinct ignoring case, and every account well-formed |
| Auth.RedeemedTokenWasTheOnlyOne | server/src/controllers/authController.js:152 | when an account holds at most one token, removing the redeemed one leaves none for it |
| Auth.VerifyKeepsTokensOwned | server/src/controllers/authController.js:152 | after a token is removed, every remaining token still belongs to a stored account and no account has two |
| Auth.VerifyKeepsVerifiedIff | server/src/controllers/authController.js:151-174 | after redemption, every other account's verified status still matches whether a token is pending for it |
| Scenarios.RegisterThenVerify | server/src/controllers/authController.js:54-185 | from an empty store: registration stores the account unverified, with a hash that accepts the password. A forged secret is refused. The real link verifies the account, and following it a second time is refused |
| Scenarios.LoginAroundVerify | server/src/controllers/authController.js:125-241 | from an empty store: logging in before verifying gets "Please verify". After verifying, the right password gets the three-hour credential of the account and a wrong password gets "Wrong Username or Password" |
| Scenarios.RegisterSameEmailTwice | server/src/controllers/authController.js:72-79 | a second registration whose email differs only in case is a conflict, and the store still holds one account |

## Left out

- HTTP plumbing is not modelled: `req`, `res`, status codes and JSON bodies. Each outcome is a `Response` constructor carrying the controller's message.
- `getUser` answers a missing account with status 400. The model maps that case to the `NotFound` constructor and keeps the controller's message.
- Every storage-fault branch (status 500) is left out, along with the 404 "Invalid Token" answer to a failing token query. Store calls are modelled as succeeding synchronously.
- Un-awaited storage calls are modelled as completed in program order. The races they allow in the controller are not modelled: `user.save()` against `token.save()`, the token removal against the `verify` update, and the wipe reported before it completes.
- The model is sequential, so concurrent double registration and double redemption are not covered.
- `sendEmail` has no effect on the collections. The link it would mail is returned as the value of a successful registration.
- `jwt.sign` and `SECRET_KEY` are not modelled. The credential is the unsigned claims record plus issue and expiry times. The signing time `now` is a parameter.
- bcrypt is modelled as an abstract `Hasher`, a hash function and a compare function. The only property relied on is `Sound`: a password matches its own hash. bcrypt's truncation of long inputs and its hashing-error branch are not modelled.
- The comparison error of `bcrypt.compare` is the parameter `compareFault` of `Login`.
- `randomBytes(16)` is the parameter `tokenBytes`, and the bcrypt salt is the parameter `salt`.
- Mongoose ObjectId generation is modelled as two counters in the service, `nextUserId` and `nextTokenId`. The model relies only on a new id being unused. The counters are not reset by `DeleteAll`.
- Lower-casing and case-insensitive comparison cover ASCII letters only. Unicode case mapping in `toLowerCase` and in the regular-expression `i` flag is not modelled.
- Auth.AuthService.Register: the duplicate check is modelled as case-insensitive equality (`IdentityTaken`). The controller instead builds a regular expression from the raw trimmed input without escaping it. So `.` or `+` in an email or username acts as an operator, and a `(` can make the constructor throw. A `+` makes the check miss a true duplicate. For `john+x@a.com` the controller builds `^john+x@a.com$`, which does not match the stored `john+x@a.com`; a username `a+` is missed the same way. The same email or username can therefore be registered twice. `DistinctIdentities` and `LoginFindsTheOnlyAccount` hold only for the intended check, which is the one modelled.
- MongoDB's `find` without a sort returns documents in no guaranteed order. The model takes the result order to be insertion order, and `RemoveAt` keeps that order, so "the first account of that name" means the earliest inserted.
- `getAllUsers` is not modelled. It only reads the whole user collection and returns it.
- Missing request-body fields are not modelled: `trim` on an undefined field throws. Every field is a string.
- Ids that fail to parse as ObjectIds are not modelled. Ids are natural numbers.
- `String(email)` coercion is not modelled, because the email is always a string.
