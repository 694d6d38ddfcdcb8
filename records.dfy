/**
 The records of the notes service: the two stored tables' rows, the request
 bodies with their validation rules, the response bodies, and the outcome of a
 request handler. Passwords are hashed by an abstract credential scheme.
 */
module Records {

  datatype Option<T> = None | Some(value: T)

  /** A row of the `users` table. */
  datatype User = User(id: int, email: string, passwordHash: string)

  /** A row of the `notes` table; `userId` refers to the owning user's `id`. */
  datatype Note = Note(id: int, title: string, content: string, userId: int)

  /** Request body of register and login. */
  datatype UserCreate = UserCreate(email: string, password: string)

  /** Request body of note creation. */
  datatype NoteIn = NoteIn(title: string, content: string)

  /** Response body of register: the stored user without its password hash. */
  datatype UserOut = UserOut(id: int, email: string)

  /** A verified bearer token; only its subject claim is modelled. */
  datatype Token = Token(subject: string)

  /** Response body of login. */
  datatype TokenOut = TokenOut(accessToken: Token, tokenType: string)

  /** Response body of note deletion. */
  datatype Message = Message(message: string)

  /**
   The outcome of one request: a 200 response carrying a body, an HTTP error
   raised by a handler (400, 401, 404), a request body rejected by input
   validation before the handler runs (422), or an unguarded crash (500).
   */
  datatype Response<T> =
    | Ok(value: T)
    | Err400(detail: string)
    | Err401(detail: string)
    | Err404(detail: string)
    | Err422
    | Err500
  {
    function Status(): (code: nat)
      ensures code == 200 <==> Ok?
      ensures 400 <= code < 600 <==> !Ok?
    {
      match this
      case Ok(_) => 200
      case Err400(_) => 400
      case Err401(_) => 401
      case Err404(_) => 404
      case Err422 => 422
      case Err500 => 500
    }
  }

  const MinPasswordLength: nat := 6
  const MinTextLength: nat := 1

  const EmailTaken := "User with this email already exists"
  const BadCredentials := "Bad email or password"
  const InvalidUser := "Invalid user"
  const NoteNotFound := "Note not found"
  const NoteNotFoundOrNotOwner := "Note not found or you are not owner"
  const NoteDeleted := "Note deleted successfully"
  const Bearer := "bearer"

  /** The password of a register or login body must have at least six characters. */
  predicate ValidUserCreate(req: UserCreate) {
    |req.password| >= MinPasswordLength
  }

  /** Both the title and the content of a new note must be non-empty. */
  predicate ValidNoteIn(req: NoteIn) {
    |req.title| >= MinTextLength && |req.content| >= MinTextLength
  }

  /**
   The credential scheme: `hash(password, salt)` produces the stored hash and
   `verify(password, stored)` checks a password against it. The salt stands for
   the randomness the hashing library draws on each call.
   */
  datatype Crypt = Crypt(hash: (string, string) -> string, verify: (string, string) -> bool)

  /** The one property assumed of the scheme: a password verifies against its own hash. */
  ghost predicate RoundTrips(c: Crypt) {
    forall password, salt :: c.verify(password, c.hash(password, salt))
  }
}
