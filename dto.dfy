/** The request and response records of the auth endpoints, and the binding rules on the requests. */
module Dto {

  /** The `email` validator's verdict on a string; its grammar is not part of this model. */
  type EmailFormat = string -> bool

  datatype SignupRequest = SignupRequest(Email: string, Password: string)

  /** The signup answer: the new user's key and e-mail, and nothing else. */
  datatype SignupResponse = SignupResponse(ID: nat, Email: string)

  datatype LoginRequest = LoginRequest(Email: string, Password: string)

  /** The login answer: the issued token and the user it was issued for. */
  datatype LoginResponse = LoginResponse(Token: string, User: UserResponse)

  /** A user as returned to the client: key and e-mail, and nothing else. */
  datatype UserResponse = UserResponse(ID: nat, Email: string)

  /** `binding:"required"` on a string: it is present and not empty. */
  predicate Required(s: string) {
    s != ""
  }

  /** `binding:"required,email"` on the e-mail and `binding:"required,min=6"` (characters) on the password. */
  predicate ValidSignup(r: SignupRequest, isEmail: EmailFormat) {
    Required(r.Email) && isEmail(r.Email) && Required(r.Password) && |r.Password| >= 6
  }

  /** `binding:"required,email"` on the e-mail and `binding:"required"` on the password, with no minimum length. */
  predicate ValidLogin(r: LoginRequest, isEmail: EmailFormat) {
    Required(r.Email) && isEmail(r.Email) && Required(r.Password)
  }

  /**
   * Every valid signup is a valid login, but not conversely: a present five-character password
   * passes the login rules and fails the signup rules.
   */
  lemma SignupStricterThanLogin(email: string, password: string, isEmail: EmailFormat)
    ensures ValidSignup(SignupRequest(email, password), isEmail) ==> ValidLogin(LoginRequest(email, password), isEmail)
    ensures ValidSignup(SignupRequest(email, password), isEmail) ==> |password| >= 6
    ensures Required(email) && isEmail(email) ==>
      ValidLogin(LoginRequest(email, "12345"), isEmail) && !ValidSignup(SignupRequest(email, "12345"), isEmail)
  {
  }
}
