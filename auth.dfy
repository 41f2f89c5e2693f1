/** The login decision of `AuthService.LoginAsync` and the HTTP mapping of
    `AuthController.Login`. The directory bind-and-search and the token
    signer are outside the model: they are the function parameters
    `directory` and `generateToken`. */
module Auth {
  import opened Wrappers
  import opened Users

  datatype LoginRequest = LoginRequest(username: string, password: string)

  /** The identity block of a login response. */
  datatype UserInfo = UserInfo(
    fullName: string,
    username: string,
    employeeId: string,
    title: string,
    department: string,
    mail: string)

  datatype LoginResponse = LoginResponse(accessToken: string, user: UserInfo)

  /** The directory: the user for a username and password that bind, or
      none. */
  type Directory = (string, string) -> Option<User>

  /** The token service: a signed token for a user. */
  type TokenIssuer = User -> string

  /** The synthetic identity behind the hard-coded bypass. */
  const AdminUser: User := User("admin", "Administrator", "ADMIN-001", "", "", "", "", None)

  /** Exact, case-sensitive match of both fields with `admin`. */
  predicate IsAdminBypass(request: LoginRequest)
  {
    request.username == "admin" && request.password == "admin"
  }

  /** The response for an authenticated user: the token and three identity
      fields; title, department and mail stay empty. */
  function ResponseFor(user: User, generateToken: TokenIssuer): (r: LoginResponse)
    ensures r.accessToken == generateToken(user)
    ensures r.user.fullName == user.fullName && r.user.username == user.username
    ensures r.user.employeeId == user.employeeId
    ensures r.user.title == "" && r.user.department == "" && r.user.mail == ""
  {
    LoginResponse(generateToken(user), UserInfo(user.fullName, user.username, user.employeeId, "", "", ""))
  }

  /** `LoginAsync`: the bypass answers for the admin identity; any other
      request is decided by the directory alone. */
  function Login(request: LoginRequest, directory: Directory, generateToken: TokenIssuer): (r: Option<LoginResponse>)
    ensures IsAdminBypass(request) ==>
      r == Some(LoginResponse(generateToken(AdminUser),
                              UserInfo("Administrator", "admin", "ADMIN-001", "", "", "")))
    ensures !IsAdminBypass(request) ==>
      (r.None? <==> directory(request.username, request.password).None?)
    ensures !IsAdminBypass(request) && r.Some? ==>
      var user := directory(request.username, request.password).value;
      && r.value.accessToken == generateToken(user)
      && r.value.user.fullName == user.fullName
      && r.value.user.username == user.username
      && r.value.user.employeeId == user.employeeId
  {
    if IsAdminBypass(request) then
      Some(ResponseFor(AdminUser, generateToken))
    else
      match directory(request.username, request.password)
      case None => None
      case Some(user) => Some(ResponseFor(user, generateToken))
  }

  /** The bypass never consults the directory: any two directories give
      the same answer. */
  lemma AdminBypassIgnoresDirectory(request: LoginRequest, d1: Directory, d2: Directory, generateToken: TokenIssuer)
    requires IsAdminBypass(request)
    ensures Login(request, d1, generateToken) == Login(request, d2, generateToken)
  {
  }

  /** The outcome of the login endpoint. */
  datatype LoginResult =
    | BadRequest(message: string)
    | Unauthorized(message: string)
    | Ok(response: LoginResponse)

  const MissingFieldsMessage := "Username and password are required"
  const InvalidCredentialsMessage := "Invalid credentials"

  /** `AuthController.Login`: reject an empty (or null) field before the
      service is called, map no response to Unauthorized and pass a
      response through unchanged. */
  function LoginEndpoint(request: LoginRequest, authService: LoginRequest -> Option<LoginResponse>): (r: LoginResult)
    ensures r.BadRequest? <==> request.username == "" || request.password == ""
    ensures r.BadRequest? ==> r.message == MissingFieldsMessage
    ensures r.Unauthorized? <==> !r.BadRequest? && authService(request).None?
    ensures r.Unauthorized? ==> r.message == InvalidCredentialsMessage
    ensures r.Ok? ==> authService(request) == Some(r.response)
  {
    if request.username == "" || request.password == "" then
      BadRequest(MissingFieldsMessage)
    else
      match authService(request)
      case None => Unauthorized(InvalidCredentialsMessage)
      case Some(response) => Ok(response)
  }

  /** A request with an empty field does not depend on the service: it is
      never called. */
  lemma EmptyFieldNeverReachesService(request: LoginRequest, s1: LoginRequest -> Option<LoginResponse>,
                                      s2: LoginRequest -> Option<LoginResponse>)
    requires request.username == "" || request.password == ""
    ensures LoginEndpoint(request, s1) == LoginEndpoint(request, s2)
  {
  }

  /** End to end: `admin`/`admin` through the endpoint is always accepted
      as the administrator, whatever the directory says, while any other
      request with both fields filled is accepted exactly when the
      directory accepts it. */
  lemma EndpointDecision(request: LoginRequest, directory: Directory, generateToken: TokenIssuer)
    ensures var r := LoginEndpoint(request, req => Login(req, directory, generateToken));
      && (IsAdminBypass(request) ==>
            r.Ok? && r.response.user.username == "admin" &&
            r.response.user.fullName == "Administrator" && r.response.user.employeeId == "ADMIN-001")
      && (!IsAdminBypass(request) && request.username != "" && request.password != "" ==>
            (r.Ok? <==> directory(request.username, request.password).Some?))
  {
  }
}
