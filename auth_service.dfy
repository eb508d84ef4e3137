/**
 * The authentication service: registration, login, token issue and validation, and lookup
 * of the token's subject, over the user repository.
 *
 * The clock is the parameter `now` (seconds), the serialisation of tokens a `TokenCodec`,
 * the password check a `PasswordCheck`, and each store call takes the driver fault it meets.
 */
module Service {
  import opened Wrappers
  import opened Model
  import opened Repository
  import opened Jwt

  /** The HMAC key every token is signed and verified with. */
  const JwtSecret: string := "your-secret-key-here"

  /** Token lifetime: 24 hours, in seconds. */
  const TokenTTL: nat := 24 * 60 * 60

  /** The operation a wrapped store error (`fmt.Errorf("…: %w", err)`) was raised in. */
  datatype Op = CheckingEmail | CreatingUser | SearchingUser

  /** The service's error values: the five sentinels, wrapped store errors, and library errors passed through. */
  datatype Error =
    | ErrEmailAlreadyExists
    | ErrInvalidCredentials
    | ErrUserNotFound
    | ErrTokenGenerationFail
    | ErrInvalidToken
    | Wrapped(op: Op, cause: DbError)
    | TokenError(reason: JwtError)
    | SigningError

  /** The claims GenerateJWTToken puts in a token issued at `now`, under HS256 with the service key. */
  function IssuedToken(userID: nat, now: nat): (t: Token) {
    Token(userID, Some(now), Some(now), Some(now + TokenTTL), HS256, JwtSecret)
  }

  /** `GenerateJWTToken`: the signed token for `userID`, or the signer's error when signing fails. */
  function GenerateJWTToken(userID: nat, now: nat, codec: TokenCodec, signFault: bool): (r: Result<string, Error>)
    ensures r.Failure? <==> signFault
    ensures r.Failure? ==> r.error == SigningError
    ensures r.Success? && RoundTrips(codec) ==>
      codec.decode(r.value) == Some(IssuedToken(userID, now))
  {
    if signFault then Failure(SigningError) else Success(codec.encode(IssuedToken(userID, now)))
  }

  /** The key function passed to the parser: the service key for an HMAC token, an error otherwise. */
  function KeyFunc(t: Token): (key: Option<string>)
    ensures key.Some? <==> IsHmac(t.alg)
    ensures key.Some? ==> key.value == JwtSecret
  {
    if IsHmac(t.alg) then Some(JwtSecret) else None
  }

  /** A token the service accepts at `now`: HMAC-signed with the service key and inside its `nbf`..`exp` window. */
  predicate Accepts(t: Token, now: nat) {
    IsHmac(t.alg) && t.key == JwtSecret && !Expired(t, now) && !NotValidYet(t, now)
  }

  /**
   * `ValidateJWTToken`: the token's `UserID` exactly when the string decodes to a token the
   * service accepts; every failure is the parser's own error.
   */
  function ValidateJWTToken(s: string, codec: TokenCodec, now: nat): (r: Result<nat, Error>)
    ensures r.Success? <==> codec.decode(s).Some? && Accepts(codec.decode(s).value, now)
    ensures r.Success? ==> r.value == codec.decode(s).value.userID
    ensures r.Failure? ==> r.error.TokenError?
  {
    match ParseWithClaims(s, codec, now, KeyFunc)
    case Failure(e) => Failure(TokenError(e))
    case Success(p) => if p.valid then Success(p.claims.userID) else Failure(ErrInvalidToken)
  }

  /** The result of `RegisterUser` on a table holding `rows` whose AUTO_INCREMENT counter is `nextID`. */
  function RegisterOutcome(rows: seq<User>, nextID: nat, email: string, password: string,
                           existsFault: Option<nat>, createFault: Option<nat>): (r: Result<User, Error>)
    ensures r.Success? ==> !HasEmail(rows, email) && r.value.ID == nextID && r.value.Email == email
    ensures r.Failure? ==> r.error == ErrEmailAlreadyExists || r.error.Wrapped?
  {
    if existsFault.Some? then Failure(Wrapped(CheckingEmail, DriverError(existsFault.value)))
    else if HasEmail(rows, email) then Failure(ErrEmailAlreadyExists)
    else if createFault.Some? then Failure(Wrapped(CreatingUser, DriverError(createFault.value)))
    else Success(User(nextID, email, password))
  }

  /** The result of `LoginUser` on a table holding `rows`. */
  function LoginOutcome(rows: seq<User>, email: string, password: string, check: PasswordCheck,
                        now: nat, codec: TokenCodec, findFault: Option<nat>, signFault: bool): (r: Result<(User, string), Error>)
    ensures r.Success? ==> FirstByEmail(rows, email) == Some(r.value.0) && check(r.value.0, password)
    ensures r.Failure? ==>
      || r.error == ErrInvalidCredentials || r.error == ErrTokenGenerationFail
      || (findFault.Some? && r.error == Wrapped(SearchingUser, DriverError(findFault.value)))
  {
    if findFault.Some? then Failure(Wrapped(SearchingUser, DriverError(findFault.value)))
    else
      match FirstByEmail(rows, email)
      case None => Failure(ErrInvalidCredentials)
      case Some(u) =>
        if !check(u, password) then Failure(ErrInvalidCredentials)
        else
          match GenerateJWTToken(u.ID, now, codec, signFault)
          case Failure(_) => Failure(ErrTokenGenerationFail)
          case Success(token) => Success((u, token))
  }

  /** `GetUserByID` on a table holding `rows`: the row with that key, `ErrUserNotFound`, or the wrapped store error. */
  function UserByID(rows: seq<User>, id: nat, fault: Option<nat>): (r: Result<User, Error>)
    ensures fault.Some? ==> r == Failure(Wrapped(SearchingUser, DriverError(fault.value)))
    ensures fault.None? ==> (r == Failure(ErrUserNotFound) <==> !HasID(rows, id))
    ensures r.Success? <==> fault.None? && HasID(rows, id)
    ensures r.Success? ==> Lookup(rows, id) == Some(r.value) && r.value in rows && r.value.ID == id
  {
    if fault.Some? then Failure(Wrapped(SearchingUser, DriverError(fault.value)))
    else
      match Lookup(rows, id)
      case None => Failure(ErrUserNotFound)
      case Some(u) => Success(u)
  }

  /** The service over one repository. */
  class AuthService {
    const repo: UserRepository

    constructor (repo: UserRepository)
      ensures this.repo == repo
    {
      this.repo := repo;
    }

    /**
     * `RegisterUser`: checks the e-mail, then creates the record.  The table gains the new
     * record on success and is unchanged on every failure.
     */
    method RegisterUser(email: string, password: string, existsFault: Option<nat>, createFault: Option<nat>)
      returns (r: Result<User, Error>)
      requires repo.Valid()
      modifies repo
      ensures repo.Valid()
      ensures r == RegisterOutcome(old(repo.rows), old(repo.nextID), email, password, existsFault, createFault)
      ensures r.Success? ==> repo.rows == old(repo.rows) + [r.value] && repo.nextID == old(repo.nextID) + 1
      ensures r.Failure? ==> repo.rows == old(repo.rows) && repo.nextID == old(repo.nextID)
    {
      var found, err := repo.ExistsByEmail(email, existsFault);
      if err.Some? {
        return Failure(Wrapped(CheckingEmail, err.value));
      }
      if found {
        return Failure(ErrEmailAlreadyExists);
      }
      var user := User(0, email, password);
      var saved, createErr := repo.Create(user, createFault);
      if createErr.Some? {
        return Failure(Wrapped(CreatingUser, createErr.value));
      }
      return Success(saved);
    }

    /** `LoginUser`: reads the table and never changes it. */
    method LoginUser(email: string, password: string, check: PasswordCheck, now: nat, codec: TokenCodec,
                     findFault: Option<nat>, signFault: bool)
      returns (r: Result<(User, string), Error>)
      ensures r == LoginOutcome(repo.rows, email, password, check, now, codec, findFault, signFault)
    {
      var user, err := repo.FindByEmail(email, findFault);
      if err.Some? {
        return Failure(Wrapped(SearchingUser, err.value));
      }
      if user.None? {
        return Failure(ErrInvalidCredentials);
      }
      if !check(user.value, password) {
        return Failure(ErrInvalidCredentials);
      }
      var token := GenerateJWTToken(user.value.ID, now, codec, signFault);
      if token.Failure? {
        return Failure(ErrTokenGenerationFail);
      }
      return Success((user.value, token.value));
    }

    /** `GetUserByID`: reads the table and never changes it. */
    method GetUserByID(id: nat, fault: Option<nat>) returns (r: Result<User, Error>)
      ensures r == UserByID(repo.rows, id, fault)
    {
      var user, err := repo.FindByID(id, fault);
      if err.Some? {
        return Failure(Wrapped(SearchingUser, err.value));
      }
      if user.None? {
        return Failure(ErrUserNotFound);
      }
      return Success(user.value);
    }
  }

  // ---- Properties of registration ----

  /** A taken e-mail blocks creation; a failed existence check is wrapped and is not the duplicate error. */
  lemma RegisterFailures(rows: seq<User>, nextID: nat, email: string, password: string,
                         existsFault: Option<nat>, createFault: Option<nat>)
    ensures existsFault.None? && HasEmail(rows, email) ==>
      RegisterOutcome(rows, nextID, email, password, existsFault, createFault) == Failure(ErrEmailAlreadyExists)
    ensures existsFault.Some? ==>
      RegisterOutcome(rows, nextID, email, password, existsFault, createFault)
        == Failure(Wrapped(CheckingEmail, DriverError(existsFault.value)))
    ensures RegisterOutcome(rows, nextID, email, password, existsFault, createFault) == Failure(ErrEmailAlreadyExists)
      <==> existsFault.None? && HasEmail(rows, email)
  {
  }

  /** A successful registration stores exactly the given e-mail and password under the next key. */
  lemma RegisterSuccess(rows: seq<User>, nextID: nat, email: string, password: string,
                        existsFault: Option<nat>, createFault: Option<nat>)
    ensures RegisterOutcome(rows, nextID, email, password, existsFault, createFault).Success? <==>
      existsFault.None? && createFault.None? && !HasEmail(rows, email)
    ensures RegisterOutcome(rows, nextID, email, password, existsFault, createFault).Success? ==>
      RegisterOutcome(rows, nextID, email, password, existsFault, createFault).value == User(nextID, email, password)
  {
  }

  /** Registration keeps e-mail addresses unique (in a single-threaded store). */
  lemma {:induction false} RegisterKeepsEmailsUnique(rows: seq<User>, nextID: nat, email: string, password: string,
                                 existsFault: Option<nat>, createFault: Option<nat>)
    requires UniqueEmails(rows)
    requires RegisterOutcome(rows, nextID, email, password, existsFault, createFault).Success?
    ensures UniqueEmails(rows + [RegisterOutcome(rows, nextID, email, password, existsFault, createFault).value])
  {
    var u := RegisterOutcome(rows, nextID, email, password, existsFault, createFault).value;
    var all := rows + [u];
    forall i, j | 0 <= i < j < |all| ensures all[i].Email != all[j].Email {
      if j == |rows| {
        assert all[i] == rows[i];
      }
    }
  }

  /** Registering an e-mail a second time, after the first registration succeeded, is a conflict. */
  lemma {:induction false} RegisterTwiceConflicts(rows: seq<User>, nextID: nat, email: string, p1: string, p2: string,
                              f1: Option<nat>, f2: Option<nat>, g2: Option<nat>)
    requires RegisterOutcome(rows, nextID, email, p1, None, f1).Success?
    ensures RegisterOutcome(rows + [RegisterOutcome(rows, nextID, email, p1, None, f1).value],
                            nextID + 1, email, p2, None, g2) == Failure(ErrEmailAlreadyExists)
  {
    var u := RegisterOutcome(rows, nextID, email, p1, None, f1).value;
    assert (rows + [u])[|rows|].Email == email;
  }

  // ---- Properties of login ----

  /** The four outcomes of LoginUser and exactly when each occurs. */
  lemma LoginOutcomes(rows: seq<User>, email: string, password: string, check: PasswordCheck,
                      now: nat, codec: TokenCodec, findFault: Option<nat>, signFault: bool)
    ensures findFault.Some? ==>
      LoginOutcome(rows, email, password, check, now, codec, findFault, signFault)
        == Failure(Wrapped(SearchingUser, DriverError(findFault.value)))
    ensures LoginOutcome(rows, email, password, check, now, codec, findFault, signFault) == Failure(ErrInvalidCredentials)
      <==> findFault.None? && (!HasEmail(rows, email) || !check(FirstByEmail(rows, email).value, password))
    ensures LoginOutcome(rows, email, password, check, now, codec, findFault, signFault) == Failure(ErrTokenGenerationFail)
      <==> findFault.None? && HasEmail(rows, email) && check(FirstByEmail(rows, email).value, password) && signFault
    ensures LoginOutcome(rows, email, password, check, now, codec, findFault, signFault).Success? <==>
      findFault.None? && HasEmail(rows, email) && check(FirstByEmail(rows, email).value, password) && !signFault
    ensures (LoginOutcome(rows, email, password, check, now, codec, findFault, signFault).Failure?
             && LoginOutcome(rows, email, password, check, now, codec, findFault, signFault).error.Wrapped?)
      <==> findFault.Some?
    ensures LoginOutcome(rows, email, password, check, now, codec, findFault, signFault).Success? ==>
      var (u, token) := LoginOutcome(rows, email, password, check, now, codec, findFault, signFault).value;
      && FirstByEmail(rows, email) == Some(u) && check(u, password)
      && token == codec.encode(IssuedToken(u.ID, now))
  {
  }

  /**
   * An unknown e-mail and a wrong password give the identical result, whatever the tables,
   * addresses and passwords involved: the caller cannot tell the two apart.
   */
  lemma LoginIndistinguishable(rows1: seq<User>, email1: string, password1: string,
                               rows2: seq<User>, email2: string, password2: string, u: User,
                               check: PasswordCheck, now1: nat, now2: nat, codec: TokenCodec, sign1: bool, sign2: bool)
    requires forall i :: 0 <= i < |rows1| ==> rows1[i].Email != email1
    requires FirstByEmail(rows2, email2) == Some(u) && !check(u, password2)
    ensures LoginOutcome(rows1, email1, password1, check, now1, codec, None, sign1)
         == LoginOutcome(rows2, email2, password2, check, now2, codec, None, sign2)
         == Failure(ErrInvalidCredentials)
  {
  }

  /** After a successful registration, logging in with that e-mail succeeds iff the password check passes, for that user. */
  lemma {:induction false} RegisterThenLogin(rows: seq<User>, nextID: nat, email: string, password: string, attempt: string,
                         createFault: Option<nat>, check: PasswordCheck, now: nat, codec: TokenCodec)
    requires RegisterOutcome(rows, nextID, email, password, None, createFault).Success?
    ensures var u := RegisterOutcome(rows, nextID, email, password, None, createFault).value;
      && (LoginOutcome(rows + [u], email, attempt, check, now, codec, None, false).Success? <==> check(u, attempt))
      && (check(u, attempt) ==> LoginOutcome(rows + [u], email, attempt, check, now, codec, None, false).value.0 == u)
  {
    var u := RegisterOutcome(rows, nextID, email, password, None, createFault).value;
    var all := rows + [u];
    assert all[|rows|] == u;
    var f := FirstByEmail(all, email);
    assert f.Some?;
    assert f.value == u by {
      var k :| 0 <= k < |all| && all[k] == f.value;
      if k < |rows| {
        assert rows[k].Email == email;
      }
    }
  }

  // ---- Properties of tokens ----

  /** An issued token lives TokenTTL seconds from its issue time, and is accepted exactly inside that window. */
  lemma IssuedTokenWindow(userID: nat, issuedAt: nat, now: nat)
    ensures IssuedToken(userID, issuedAt).exp.value - IssuedToken(userID, issuedAt).iat.value == TokenTTL
    ensures IssuedToken(userID, issuedAt).nbf == IssuedToken(userID, issuedAt).iat
    ensures Accepts(IssuedToken(userID, issuedAt), now) <==> issuedAt <= now < issuedAt + TokenTTL
  {
  }

  /**
   * Validating a freshly generated token gives back its user ID inside the 24-hour window;
   * outside it the parser reports the claim that failed.
   */
  lemma GenerateThenValidate(userID: nat, issuedAt: nat, now: nat, codec: TokenCodec)
    requires RoundTrips(codec)
    ensures var s := GenerateJWTToken(userID, issuedAt, codec, false).value;
      && (issuedAt <= now < issuedAt + TokenTTL ==> ValidateJWTToken(s, codec, now) == Success(userID))
      && (now >= issuedAt + TokenTTL ==> ValidateJWTToken(s, codec, now) == Failure(TokenError(TokenInvalidClaims(true, false))))
      && (now < issuedAt ==> ValidateJWTToken(s, codec, now) == Failure(TokenError(TokenInvalidClaims(false, true))))
  {
  }

  /** Tokens under a non-HMAC algorithm, or signed with another key, are never accepted. */
  lemma OnlyHmacWithServiceKey(s: string, codec: TokenCodec, now: nat)
    requires codec.decode(s).Some?
    requires !IsHmac(codec.decode(s).value.alg) || codec.decode(s).value.key != JwtSecret
    ensures ValidateJWTToken(s, codec, now).Failure?
  {
  }

  /** ErrInvalidToken is never produced: a parse without error always marks the token valid. */
  lemma InvalidTokenUnreachable(s: string, codec: TokenCodec, now: nat)
    ensures ValidateJWTToken(s, codec, now) != Failure(ErrInvalidToken)
  {
  }
}
