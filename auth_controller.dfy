/**
 * The signup and login handlers: bind and validate the JSON body, call the service, and map
 * the outcome to a status code and a response body.
 */
module Controller {
  import opened Wrappers
  import opened Model
  import opened Repository
  import opened Service
  import opened Dto
  import opened Http

  /** Why binding the body failed: it is not JSON of the request's shape, or a field breaks its rule. */
  datatype BindError = MalformedJson | ValidationFailed

  /** The error body's message: a binding failure or the service error's text. */
  datatype Message = InvalidRequest(cause: BindError) | ServiceMessage(err: Error)

  datatype Body = ErrorBody(message: Message) | SignupBody(signup: SignupResponse) | LoginBody(login: LoginResponse)

  datatype Response = Response(status: nat, body: Body)

  /** `ShouldBindJSON` for a signup body; `json` is None when the body does not decode. */
  function BindSignup(json: Option<SignupRequest>, isEmail: EmailFormat): (r: Result<SignupRequest, BindError>)
    ensures r.Success? <==> json.Some? && ValidSignup(json.value, isEmail)
    ensures r.Success? ==> r.value == json.value
  {
    match json
    case None => Failure(MalformedJson)
    case Some(req) => if ValidSignup(req, isEmail) then Success(req) else Failure(ValidationFailed)
  }

  /** `ShouldBindJSON` for a login body. */
  function BindLogin(json: Option<LoginRequest>, isEmail: EmailFormat): (r: Result<LoginRequest, BindError>)
    ensures r.Success? <==> json.Some? && ValidLogin(json.value, isEmail)
    ensures r.Success? ==> r.value == json.value
  {
    match json
    case None => Failure(MalformedJson)
    case Some(req) => if ValidLogin(req, isEmail) then Success(req) else Failure(ValidationFailed)
  }

  /** The 400 answer to a body that does not bind. */
  function BadRequest(e: BindError): (resp: Response) {
    Response(StatusBadRequest, ErrorBody(InvalidRequest(e)))
  }

  /**
   * Signup's answer to the service outcome: 201 with exactly the new user's key and e-mail,
   * 409 for the duplicate-email error, 500 for every other error.
   */
  function SignupReply(r: Result<User, Error>): (resp: Response)
    ensures resp.status == StatusCreated <==> r.Success?
    ensures resp.status == StatusConflict <==> r == Failure(ErrEmailAlreadyExists)
    ensures resp.status == StatusInternalServerError <==> r.Failure? && r.error != ErrEmailAlreadyExists
    ensures r.Success? ==> resp.body == SignupBody(SignupResponse(r.value.ID, r.value.Email))
    ensures r.Failure? ==> resp.body == ErrorBody(ServiceMessage(r.error))
  {
    match r
    case Success(user) => Response(StatusCreated, SignupBody(SignupResponse(user.ID, user.Email)))
    case Failure(err) =>
      if err == ErrEmailAlreadyExists then Response(StatusConflict, ErrorBody(ServiceMessage(err)))
      else Response(StatusInternalServerError, ErrorBody(ServiceMessage(err)))
  }

  /**
   * Login's answer to the service outcome: 200 with the token and the user's key and e-mail,
   * 401 for invalid credentials, 500 for every other error.
   */
  function LoginReply(r: Result<(User, string), Error>): (resp: Response)
    ensures resp.status == StatusOK <==> r.Success?
    ensures resp.status == StatusUnauthorized <==> r == Failure(ErrInvalidCredentials)
    ensures resp.status == StatusInternalServerError <==> r.Failure? && r.error != ErrInvalidCredentials
    ensures r.Success? ==>
      resp.body == LoginBody(LoginResponse(r.value.1, UserResponse(r.value.0.ID, r.value.0.Email)))
    ensures r.Failure? ==> resp.body == ErrorBody(ServiceMessage(r.error))
  {
    match r
    case Success((user, token)) =>
      Response(StatusOK, LoginBody(LoginResponse(token, UserResponse(user.ID, user.Email))))
    case Failure(err) =>
      if err == ErrInvalidCredentials then Response(StatusUnauthorized, ErrorBody(ServiceMessage(err)))
      else Response(StatusInternalServerError, ErrorBody(ServiceMessage(err)))
  }

  /** The handlers over one service. */
  class AuthController {
    const service: AuthService

    constructor (service: AuthService)
      ensures this.service == service
    {
      this.service := service;
    }

    /** `Signup`: a body that does not bind is answered 400 without touching the table. */
    method Signup(json: Option<SignupRequest>, isEmail: EmailFormat, existsFault: Option<nat>, createFault: Option<nat>)
      returns (resp: Response)
      requires service.repo.Valid()
      modifies service.repo
      ensures service.repo.Valid()
      ensures BindSignup(json, isEmail).Failure? ==>
        && resp == BadRequest(BindSignup(json, isEmail).error)
        && service.repo.rows == old(service.repo.rows) && service.repo.nextID == old(service.repo.nextID)
      ensures BindSignup(json, isEmail).Success? ==>
        var r := RegisterOutcome(old(service.repo.rows), old(service.repo.nextID),
                                 json.value.Email, json.value.Password, existsFault, createFault);
        && resp == SignupReply(r)
        && service.repo.rows == (if r.Success? then old(service.repo.rows) + [r.value] else old(service.repo.rows))
        && service.repo.nextID == (if r.Success? then old(service.repo.nextID) + 1 else old(service.repo.nextID))
    {
      var req := BindSignup(json, isEmail);
      if req.Failure? {
        return BadRequest(req.error);
      }
      var user := service.RegisterUser(req.value.Email, req.value.Password, existsFault, createFault);
      if user.Failure? {
        if user.error == ErrEmailAlreadyExists {
          return Response(StatusConflict, ErrorBody(ServiceMessage(user.error)));
        }
        return Response(StatusInternalServerError, ErrorBody(ServiceMessage(user.error)));
      }
      return Response(StatusCreated, SignupBody(SignupResponse(user.value.ID, user.value.Email)));
    }

    /** `Login`: a body that does not bind is answered 400 and the service is not asked. */
    method Login(json: Option<LoginRequest>, isEmail: EmailFormat, check: PasswordCheck, now: nat,
                 codec: Jwt.TokenCodec, findFault: Option<nat>, signFault: bool)
      returns (resp: Response)
      ensures BindLogin(json, isEmail).Failure? ==> resp == BadRequest(BindLogin(json, isEmail).error)
      ensures BindLogin(json, isEmail).Success? ==>
        resp == LoginReply(LoginOutcome(service.repo.rows, json.value.Email, json.value.Password,
                                        check, now, codec, findFault, signFault))
    {
      var req := BindLogin(json, isEmail);
      if req.Failure? {
        return BadRequest(req.error);
      }
      var result := service.LoginUser(req.value.Email, req.value.Password, check, now, codec, findFault, signFault);
      if result.Failure? {
        if result.error == ErrInvalidCredentials {
          return Response(StatusUnauthorized, ErrorBody(ServiceMessage(result.error)));
        }
        return Response(StatusInternalServerError, ErrorBody(ServiceMessage(result.error)));
      }
      var (user, token) := result.value;
      return Response(StatusOK, LoginBody(LoginResponse(token, UserResponse(user.ID, user.Email))));
    }
  }

  /** Signing up with an address already in the table is answered 409, whatever the password. */
  lemma SignupDuplicateIsConflict(rows: seq<User>, nextID: nat, email: string, password: string, createFault: Option<nat>)
    requires HasEmail(rows, email)
    ensures SignupReply(RegisterOutcome(rows, nextID, email, password, None, createFault)).status == StatusConflict
  {
  }

  /** A store error during signup is answered 500, never 409. */
  lemma SignupStoreErrorIsInternal(rows: seq<User>, nextID: nat, email: string, password: string,
                                   existsFault: Option<nat>, createFault: Option<nat>)
    requires existsFault.Some? || (createFault.Some? && !HasEmail(rows, email))
    ensures SignupReply(RegisterOutcome(rows, nextID, email, password, existsFault, createFault)).status
      == StatusInternalServerError
  {
  }

  /**
   * An unknown address and a wrong password produce the identical HTTP answer (401 with the
   * same body), and a store or signing failure is answered 500.
   */
  lemma LoginAnswers(rows: seq<User>, email: string, password: string, check: PasswordCheck, now: nat,
                     codec: Jwt.TokenCodec, findFault: Option<nat>, signFault: bool)
    ensures findFault.Some? ==>
      LoginReply(LoginOutcome(rows, email, password, check, now, codec, findFault, signFault)).status
        == StatusInternalServerError
    ensures findFault.None? && (!HasEmail(rows, email) || !check(FirstByEmail(rows, email).value, password)) ==>
      LoginReply(LoginOutcome(rows, email, password, check, now, codec, findFault, signFault))
        == Response(StatusUnauthorized, ErrorBody(ServiceMessage(ErrInvalidCredentials)))
    ensures findFault.None? && HasEmail(rows, email) && check(FirstByEmail(rows, email).value, password) && signFault ==>
      LoginReply(LoginOutcome(rows, email, password, check, now, codec, findFault, signFault)).status
        == StatusInternalServerError
  {
    LoginOutcomes(rows, email, password, check, now, codec, findFault, signFault);
  }
}
