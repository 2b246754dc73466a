/** The two tables of the notes backend and the error responses its handlers raise.
    `User` and `Note` follow the two SQLModel table classes; `id` is optional because
    a record sent by a client may leave it unset until the store assigns one. */
module Models {

  datatype Option<+T> = None | Some(value: T)

  datatype Result<+T> = Ok(value: T) | Err(error: HttpError)

  datatype User = User(id: Option<int>, name: string, age: int, password: string)

  datatype Note = Note(id: Option<int>, title: string, content: string, owner_id: Option<int>)

  /** An HTTPException (or an unhandled exception turned into a 500): its status code,
      its detail message, and whether it carries the `WWW-Authenticate: Bearer` header. */
  datatype HttpError = HttpError(status: int, detail: string, bearerChallenge: bool)

  /** Raised by the identity check for every kind of bad token or unknown subject. */
  const CredentialsError := HttpError(401, "Token tidak valid atau sudah kadaluarsa", true)
  /** Raised by login for an unknown name or a wrong password alike. */
  const LoginError := HttpError(401, "Username atau password salah", true)
  /** Note update: no note has that id. */
  const NoteNotFound := HttpError(404, "notes not found", false)
  /** Note update: the caller does not own the note. */
  const NotAllowed := HttpError(403, "youre not allowed", false)
  /** Note delete: no note has that id (status 403, unlike update's 404). */
  const DeleteNoteNotFound := HttpError(403, "notes not found", false)
  /** Note delete: the caller does not own the note. */
  const NotYourNotes := HttpError(403, "Not your own notes", false)
  /** User update or delete: no user has that id. */
  const UserNotFound := HttpError(404, "user not found", false)
  /** An exception the handler does not catch (an unbound local, a store constraint). */
  const InternalError := HttpError(500, "Internal Server Error", false)

  const NotesDeleted := "notes deleted"
  const UserDeleted := "data has deleted succsesfully "

  /** A non-empty string is the only truthy `Optional[str]`. */
  predicate Truthy(q: Option<string>) {
    q.Some? && q.value != ""
  }
}
