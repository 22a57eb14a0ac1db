/** Admin login (server/server/controllers/auth.controller.ts). The configured
    credentials and secret are parameters, and so is the token library's sign
    call: a function from claims, secret and lifetime to a token. */
module AuthController {
  import opened Common

  /** The three settings the login reads from the environment. */
  datatype Config = Config(adminEmail: Option<string>, adminPassword: Option<string>, jwtSecret: Option<string>)

  /** The claims of an issued token. */
  datatype Claims = Claims(role: string, email: string)

  const AdminRole: string := "admin"
  const TokenLifetime: string := "1d"

  const ConfigErrorMessage: string := "Server configuration error"
  const SuccessMessage: string := "Logged in successfully"
  const BadCredentialsMessage: string := "Invalid credentials"

  /** The answer: status, `success`, the token (when issued) and the message. */
  datatype LoginResponse = LoginResponse(status: nat, success: bool, token: Option<string>, message: string)

  /** Each setting is present and non-empty. */
  predicate Configured(config: Config) {
    Truthy(config.adminEmail) && Truthy(config.adminPassword) && Truthy(config.jwtSecret)
  }

  /** loginAdmin. A submitted member is None when it is absent or not a string
      (strict equality never matches it then). */
  function LoginAdmin(email: Option<string>, password: Option<string>, config: Config,
                      sign: (Claims, string, string) -> string): (r: LoginResponse)
    ensures !Configured(config) ==> r == LoginResponse(500, false, None, ConfigErrorMessage)
    ensures r.success <==> Configured(config) && email == config.adminEmail && password == config.adminPassword
    ensures r.success <==> r.status == 200
    ensures r.token.Some? <==> r.success
    ensures r.success ==>
              r.token == Some(sign(Claims(AdminRole, email.value), config.jwtSecret.value, TokenLifetime))
    ensures Configured(config) && !r.success ==> r == LoginResponse(401, false, None, BadCredentialsMessage)
  {
    if !Configured(config) then
      LoginResponse(500, false, None, ConfigErrorMessage)
    else if email == config.adminEmail && password == config.adminPassword then
      var token := sign(Claims(AdminRole, email.value), config.jwtSecret.value, TokenLifetime);
      LoginResponse(200, true, Some(token), SuccessMessage)
    else
      LoginResponse(401, false, None, BadCredentialsMessage)
  }

  /** With a setting missing, the submitted credentials make no difference. */
  lemma MissingConfigIgnoresCredentials(e1: Option<string>, p1: Option<string>,
                                        e2: Option<string>, p2: Option<string>,
                                        config: Config, sign: (Claims, string, string) -> string)
    requires !Configured(config)
    ensures LoginAdmin(e1, p1, config, sign) == LoginAdmin(e2, p2, config, sign)
  {
  }
}
