/** The user record the service reads and writes (the shape `app/service` uses it in). */
module Model {

  /** A row of the users table: primary key, e-mail address and stored password. */
  datatype User = User(ID: nat, Email: string, Password: string)

  /** `user.CheckPassword(plain)`: the password hook is not visible, so it is a parameter of the model. */
  type PasswordCheck = (User, string) -> bool
}
