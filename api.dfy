/** The outcomes the request handlers report. Each error carries the HTTP status
    the handler answers with; a success is 200, or 201 for the handlers that create a row
    (registration, a new message, a new comment, a new public message). */
module Api {

  /** A server-assigned UTC timestamp. Only the order of timestamps matters. */
  type Timestamp = int

  datatype ApiError =
    | MissingField(campo: string) // 400 "El campo <campo> es obligatorio"
    | EmailTaken                  // 400 "El email ya está registrado"
    | InvalidDate                 // 400 "Fecha de nacimiento inválida"
    | InvalidCredentials          // 401 "Credenciales inválidas"
    | Unauthorized                // 401 "No autorizado", the session guard
    | Forbidden                   // 403 "No autorizado", not the author
    | NotFound                    // 404, no message with that id
    | EmptyText                   // 400 "El mensaje no puede estar vacío."
    | TextTooLong                 // 400 "El mensaje supera el máximo de 2000 caracteres."
    | UserNotFound                // 404 "Usuario no encontrado."
    | CommitFailed                // 500, the commit breaks a NOT NULL column

  datatype Result<+T> = Ok(value: T) | Err(error: ApiError)
}
