/** How the two halves of the admin authentication fit together: a token that
    loginAdmin issues, sent back in a bearer header, passes the middleware. */
module AuthFlow {
  import opened Common
  import AuthController
  import AuthMiddleware

  /** If the library's verify gives back the claims of a token that sign just
      produced with the same secret (and the token has no space, as the
      library's tokens do not), then the header "Bearer <token>" lets the
      request through with the admin claims. */
  lemma IssuedTokenPassesGate(email: Option<string>, password: Option<string>,
                              config: AuthController.Config,
                              sign: (AuthController.Claims, string, string) -> string,
                              verify: (string, string) -> Option<AuthController.Claims>)
    requires AuthController.LoginAdmin(email, password, config, sign).success
    requires var token := AuthController.LoginAdmin(email, password, config, sign).token.value;
             && ' ' !in token
             && verify(token, config.jwtSecret.value) == Some(AuthController.Claims(AuthController.AdminRole, email.value))
    ensures var token := AuthController.LoginAdmin(email, password, config, sign).token.value;
            AuthMiddleware.Gate(Some(AuthMiddleware.BearerPrefix + token), config.jwtSecret, verify)
              == AuthMiddleware.Proceed(AuthController.Claims(AuthController.AdminRole, email.value))
  {
    var token := AuthController.LoginAdmin(email, password, config, sign).token.value;
    var header := AuthMiddleware.BearerPrefix + token;
    assert StartsWith(header, AuthMiddleware.BearerPrefix);
    var got := AuthMiddleware.BearerToken(header);
    var n := |AuthMiddleware.BearerPrefix|;
    assert header[n..] == token;
    assert got == token;
  }
}
