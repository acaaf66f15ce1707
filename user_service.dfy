/** The account service (`services/user_service.py`): lookup by e-mail, login and the guard
    clauses of user creation. The `users` table is a map from e-mail to the stored row; the
    bcrypt check and the token issuer are parameters, as they are outside code. */
module UserService {
  import opened Common

  /** A `users` row: name, bcrypt hash of the password, and the admin flag as stored (0 or 1). */
  datatype StoredUser = StoredUser(name: string, passwordHash: string, admin: int)

  type Users = map<string, StoredUser>

  /** What the service shows of a user: no password. */
  datatype PublicUser = PublicUser(name: string, email: string, admin: bool)

  datatype LookupReply = LookupError(error: string) | Profile(user: PublicUser)

  datatype LoginReply =
    | LoginError(error: string)
    | LoggedIn(message: string, accessToken: string, user: PublicUser)

  /** Either the error dictionary, or the arguments `User.create` is called with. */
  datatype CreateReply =
    | CreateError(error: string)
    | CreateCalled(name: string, email: string, password: string, admin: bool)

  const UserNotFound := "User not found"
  const UnknownLogin := "Usuário não encontrado"
  const WrongPassword := "Senha incorreta"
  const LoginSucceeded := "Login bem-sucedido"
  const FieldsRequired := "Nome, email e senha são obrigatórios"
  const PasswordTooShort := "Senha deve ter pelo menos 6 caracteres"
  const InvalidEmail := "Email inválido"
  const MinPasswordLength := 6

  /** The public projection of a stored row: `bool(user["admin"])` is true for any non-zero flag. */
  function Public(email: string, u: StoredUser): (p: PublicUser)
    ensures p.name == u.name && p.email == email && (p.admin <==> u.admin != 0)
  {
    PublicUser(u.name, email, u.admin != 0)
  }

  /** `get_by_email` (lines 8-17). */
  function GetByEmail(users: Users, email: string): (r: LookupReply)
    ensures r.LookupError? <==> email !in users
    ensures r.LookupError? ==> r.error == UserNotFound
    ensures r.Profile? ==> r.user.email == email && r.user.name == users[email].name
  {
    if email !in users then LookupError(UserNotFound) else Profile(Public(email, users[email]))
  }

  /** `login` (lines 19-38); `checkpw(password, hash)` is bcrypt's check and `issue(email)` the
      token `create_access_token` returns for that identity. */
  function Login(users: Users, email: string, password: string,
                 checkpw: (string, string) -> bool, issue: string -> string): (r: LoginReply)
    ensures r.LoggedIn? <==> email in users && checkpw(password, users[email].passwordHash)
    ensures r.LoginError? ==> r.error == (if email in users then WrongPassword else UnknownLogin)
    ensures r.LoggedIn? ==> r.accessToken == issue(email) && r.message == LoginSucceeded
  {
    if email !in users then LoginError(UnknownLogin)
    else
      var u := users[email];
      if checkpw(password, u.passwordHash) then LoggedIn(LoginSucceeded, issue(email), Public(email, u))
      else LoginError(WrongPassword)
  }

  /** A successful login returns the same user the lookup returns. */
  lemma LoginAgreesWithLookup(users: Users, email: string, password: string,
                              checkpw: (string, string) -> bool, issue: string -> string)
    requires Login(users, email, password, checkpw, issue).LoggedIn?
    ensures GetByEmail(users, email) == Profile(Login(users, email, password, checkpw, issue).user)
  {
  }

  /** Two successful logins for one e-mail give the same reply, whatever password each gave:
      the user and the token depend only on the e-mail. */
  lemma SuccessfulLoginsAgree(users: Users, email: string, p1: string, p2: string,
                             checkpw: (string, string) -> bool, issue: string -> string)
    requires Login(users, email, p1, checkpw, issue).LoggedIn? && Login(users, email, p2, checkpw, issue).LoggedIn?
    ensures Login(users, email, p1, checkpw, issue) == Login(users, email, p2, checkpw, issue)
  {
  }

  /** `create_user` (lines 40-54); `None` is a missing argument. */
  function CreateUser(name: Option<string>, email: Option<string>, password: Option<string>, admin: bool): (r: CreateReply)
    ensures r.CreateError? <==>
      !Truthy(name) || !Truthy(email) || !Truthy(password)
      || |password.value| < MinPasswordLength || '@' !in email.value
  {
    if !Truthy(name) || !Truthy(email) || !Truthy(password) then CreateError(FieldsRequired)
    else if |password.value| < MinPasswordLength then CreateError(PasswordTooShort)
    else if '@' !in email.value then CreateError(InvalidEmail)
    else CreateCalled(name.value, email.value, password.value, admin)
  }

  /** The guards apply in order: missing fields first, then a short password, then an e-mail
      without '@'; only input that passes all three reaches `User.create`, with the arguments
      unchanged. */
  lemma CreateUserGuardOrder(name: Option<string>, email: Option<string>, password: Option<string>, admin: bool)
    ensures CreateUser(name, email, password, admin) == CreateError(FieldsRequired) <==>
      !Truthy(name) || !Truthy(email) || !Truthy(password)
    ensures CreateUser(name, email, password, admin) == CreateError(PasswordTooShort) <==>
      Truthy(name) && Truthy(email) && Truthy(password) && |password.value| < MinPasswordLength
    ensures CreateUser(name, email, password, admin) == CreateError(InvalidEmail) <==>
      Truthy(name) && Truthy(email) && Truthy(password) && |password.value| >= MinPasswordLength && '@' !in email.value
    ensures CreateUser(name, email, password, admin).CreateCalled? ==>
      CreateUser(name, email, password, admin) == CreateCalled(name.value, email.value, password.value, admin)
  {
    assert FieldsRequired != PasswordTooShort && FieldsRequired != InvalidEmail && PasswordTooShort != InvalidEmail by {
      assert FieldsRequired[0] == 'N' && PasswordTooShort[0] == 'S' && InvalidEmail[0] == 'E';
    }
  }
}
