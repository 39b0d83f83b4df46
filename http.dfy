/**
 * The results a controller action can produce (the ASP.NET Core `IActionResult`
 * helpers the actions return), with the problem title reduced to a kind.
 */
module Http {

  /** The distinct `ProblemDetails` titles the core returns. */
  datatype Problem =
    | ValidationFailed              // automatic model-state validation of the request body
    | DuplicateIdentity             // "Usuário ou e-mail já cadastrado."
    | VersionConflict               // "Conflito de concorrência. Recarregue e tente novamente."
    | CurrentPasswordInvalid        // "Senha atual inválida."
    | ConfirmationMismatch          // "Nova senha e confirmação não coincidem."
    | PasswordTooShort              // "A senha deve ter pelo menos 8 caracteres."
    | PasswordUnchanged             // "Nova senha deve ser diferente da atual."
    | InvalidCredentials            // "Usuário ou senha inválidos."
    | MalformedRefreshToken         // "Refresh token inválido."
    | RefreshTokenExpiredOrRevoked  // "Refresh token expirado ou revogado."

  datatype Response<+T> =
    | Ok(body: T)                   // 200
    | Created(body: T)              // 201
    | NoContent                     // 204
    | BadRequest(problem: Problem)  // 400
    | Unauthorized(problem: Problem)// 401
    | Forbid                        // 403
    | NotFound                      // 404
    | Conflict(problem: Problem)    // 409
    | ServerError                   // 500: an exception the action does not catch
}
