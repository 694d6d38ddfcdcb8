/**
 The request handlers of the notes service over an in-memory store of the two
 tables. Register, note creation and note deletion change the tables; login,
 listing and single-note retrieval only read them. Protected handlers receive
 the already verified bearer token and use only its subject claim.
 */
module NotesApi {
  import opened Records
  import opened Tables

  class NotesApp {
    /** The credential scheme used to hash and check passwords. */
    const crypt: Crypt
    /** The `users` table, in insertion order. */
    var users: seq<User>
    /** The `notes` table, in insertion order. */
    var notes: seq<Note>

    /**
     The store invariant: unique emails, valid primary keys on both tables,
     every note owned by an existing user, every note's text non-empty.
     */
    ghost predicate Valid()
      reads this
      ensures Valid() ==> forall i, j :: 0 <= i < j < |notes| ==> notes[i] != notes[j]
      ensures Valid() ==> forall i, j :: 0 <= i < j < |users| ==> users[i] != users[j]
    {
      && UniqueEmails(users)
      && ValidKeys(UserIds(users))
      && ValidKeys(NoteIds(notes))
      && OwnersExist(users, notes)
      && NotesWellFormed(notes)
    }

    /** An empty store, as the schema is first created. */
    constructor (crypt: Crypt)
      ensures Valid()
      ensures this.crypt == crypt
      ensures users == [] && notes == []
    {
      this.crypt := crypt;
      users := [];
      notes := [];
    }

    /**
     POST /auth/register. Rejects a short password (422) and an email already
     registered (400); otherwise stores one new user with a fresh id and the
     salted hash of the password, and returns that user without the hash.
     */
    method Register(req: UserCreate, salt: string) returns (r: Response<UserOut>)
      requires Valid()
      modifies this
      ensures Valid()
      ensures notes == old(notes)
      ensures !ValidUserCreate(req) ==> r == Err422 && users == old(users)
      ensures ValidUserCreate(req) && FindUserByEmail(old(users), req.email).Some? ==>
                r == Err400(EmailTaken) && users == old(users)
      ensures r.Ok? <==> ValidUserCreate(req) && FindUserByEmail(old(users), req.email).None?
      ensures r.Ok? ==>
                var u := User(r.value.id, req.email, crypt.hash(req.password, salt));
                && users == old(users) + [u]
                && r.value == UserOut(u.id, u.email)
                && u.id !in UserIds(old(users))
                && FindUserByEmail(users, req.email) == Some(u)
    {
      if !ValidUserCreate(req) {
        return Err422;
      }
      var existing := FindUserByEmail(users, req.email);
      if existing.Some? {
        return Err400(EmailTaken);
      }
      var u := User(NextId(UserIds(users)), req.email, crypt.hash(req.password, salt));
      NextIdIsFresh(UserIds(users));
      AppendFreshEmail(users, u);
      FindUserAfterAppend(users, u, req.email);
      assert UserIds(users + [u]) == UserIds(users) + [u.id];
      users := users + [u];
      r := Ok(UserOut(u.id, u.email));
    }

    /**
     POST /auth/login. Rejects a short password (422); fails with 401 when no
     user has the email or the password does not verify against that user's
     hash; otherwise issues a bearer token whose subject is the user's email.
     */
    function Login(req: UserCreate): (r: Response<TokenOut>)
      reads this
      ensures !ValidUserCreate(req) ==> r == Err422
      ensures ValidUserCreate(req) && (forall i :: 0 <= i < |users| ==> users[i].email != req.email) ==>
                r == Err401(BadCredentials)
      ensures r.Ok? || r == Err422 || r == Err401(BadCredentials)
      ensures ValidUserCreate(req) && !r.Ok? ==> r == Err401(BadCredentials)
      ensures ValidUserCreate(req) && FindUserByEmail(users, req.email).Some? &&
              !crypt.verify(req.password, FindUserByEmail(users, req.email).value.passwordHash) ==>
                r == Err401(BadCredentials)
      ensures r.Ok? ==> r.value == TokenOut(Token(req.email), Bearer)
      ensures r.Ok? ==> exists i :: 0 <= i < |users| && users[i].email == req.email &&
                                    crypt.verify(req.password, users[i].passwordHash)
      ensures UniqueEmails(users) && ValidUserCreate(req) ==>
                (r.Ok? <==> exists i :: 0 <= i < |users| && users[i].email == req.email &&
                                        crypt.verify(req.password, users[i].passwordHash))
    {
      if !ValidUserCreate(req) then Err422
      else
        match FindUserByEmail(users, req.email)
        case None => Err401(BadCredentials)
        case Some(u) =>
          if !crypt.verify(req.password, u.passwordHash) then Err401(BadCredentials)
          else
            ghost var k :| 0 <= k < |users| && users[k] == u &&
                           forall j :: 0 <= j < k ==> users[j].email != req.email;
            assert UniqueEmails(users) ==> forall i :: 0 <= i < |users| && users[i].email == req.email ==> i == k;
            Ok(TokenOut(Token(u.email), Bearer))
    }

    /**
     POST /notes/. Rejects an empty title or content (422); fails with 401 when
     the token's subject is no user; otherwise stores one new note with a fresh
     id owned by that user, leaving every existing note as it was.
     */
    method CreateNote(token: Token, req: NoteIn) returns (r: Response<Note>)
      requires Valid()
      modifies this
      ensures Valid()
      ensures users == old(users)
      ensures !ValidNoteIn(req) ==> r == Err422 && notes == old(notes)
      ensures ValidNoteIn(req) && FindUserByEmail(users, token.subject).None? ==>
                r == Err401(InvalidUser) && notes == old(notes)
      ensures r.Ok? <==> ValidNoteIn(req) && FindUserByEmail(users, token.subject).Some?
      ensures r.Ok? ==>
                && r.value.userId == FindUserByEmail(users, token.subject).value.id
                && r.value.title == req.title && r.value.content == req.content
                && r.value.id !in NoteIds(old(notes))
                && notes == old(notes) + [r.value]
      ensures r.Ok? ==> NotesOf(notes, r.value.userId) == NotesOf(old(notes), r.value.userId) + [r.value]
      ensures r.Ok? ==> forall uid :: uid != r.value.userId ==> NotesOf(notes, uid) == NotesOf(old(notes), uid)
    {
      if !ValidNoteIn(req) {
        return Err422;
      }
      var user := FindUserByEmail(users, token.subject);
      if user.None? {
        return Err401(InvalidUser);
      }
      var u := user.value;
      ghost var k :| 0 <= k < |users| && users[k] == u && forall j :: 0 <= j < k ==> users[j].email != token.subject;
      assert UserIds(users)[k] == u.id;
      var n := Note(NextId(NoteIds(notes)), req.title, req.content, u.id);
      AppendNoteKeepsTables(users, notes, n);
      AppendNoteListing(notes, n);
      notes := notes + [n];
      r := Ok(n);
    }

    /**
     GET /notes/. Returns exactly the notes owned by the token's subject, in
     table order. A subject that is no user crashes the handler (500).
     */
    function GetNotes(token: Token): (r: Response<seq<Note>>)
      reads this
      ensures r.Err500? <==> FindUserByEmail(users, token.subject).None?
      ensures r.Ok? || r.Err500?
      ensures r.Ok? ==> exists u :: u in users && u.email == token.subject &&
                                    forall n :: n in r.value <==> n in notes && n.userId == u.id
      ensures r.Ok? ==> r.value == NotesOf(notes, FindUserByEmail(users, token.subject).value.id)
    {
      match FindUserByEmail(users, token.subject)
      case None => Err500
      case Some(u) =>
        ghost var k :| 0 <= k < |users| && users[k] == u && forall j :: 0 <= j < k ==> users[j].email != token.subject;
        Ok(NotesOf(notes, u.id))
    }

    /**
     GET /notes/{noteId}. Returns the note only when both its id and its owner
     match; a missing note and another user's note both give the same 404. A
     subject that is no user crashes the handler (500).
     */
    function GetNote(token: Token, noteId: int): (r: Response<Note>)
      reads this
      ensures r.Err500? <==> FindUserByEmail(users, token.subject).None?
      ensures r.Ok? || r.Err500? || r == Err404(NoteNotFound)
      ensures r.Ok? ==> r.value in notes && r.value.id == noteId &&
                        r.value.userId == FindUserByEmail(users, token.subject).value.id
      ensures FindUserByEmail(users, token.subject).Some? ==>
                (r.Ok? <==> exists i :: 0 <= i < |notes| && notes[i].id == noteId &&
                                        notes[i].userId == FindUserByEmail(users, token.subject).value.id)
    {
      match FindUserByEmail(users, token.subject)
      case None => Err500
      case Some(u) =>
        match OwnedNote(notes, noteId, u.id)
        case None => Err404(NoteNotFound)
        case Some(n) => Ok(n)
    }

    /**
     DELETE /notes/{noteId}. Deletes the note only when both its id and its
     owner match, and then nothing else; a missing note and another user's note
     both give the same 404 and change nothing. A subject that is no user
     crashes the handler (500) and changes nothing.
     */
    method DeleteNote(token: Token, noteId: int) returns (r: Response<Message>)
      requires Valid()
      modifies this
      ensures Valid()
      ensures users == old(users)
      ensures r.Err500? <==> FindUserByEmail(users, token.subject).None?
      ensures r.Ok? || r.Err500? || r == Err404(NoteNotFoundOrNotOwner)
      ensures !r.Ok? ==> notes == old(notes)
      ensures FindUserByEmail(users, token.subject).Some? ==>
                var uid := FindUserByEmail(users, token.subject).value.id;
                (r.Ok? <==> exists i :: 0 <= i < |old(notes)| && Matches(old(notes)[i], noteId, uid))
      ensures r.Ok? ==> r.value == Message(NoteDeleted)
      ensures r.Ok? ==> |notes| == |old(notes)| - 1
      ensures r.Ok? ==>
                var uid := FindUserByEmail(users, token.subject).value.id;
                notes == RemoveAt(old(notes), FindOwnedNote(old(notes), noteId, uid).value)
      ensures r.Ok? ==> forall n :: n in notes <==> n in old(notes) && n.id != noteId
      ensures r.Ok? ==>
                var uid := FindUserByEmail(users, token.subject).value.id;
                forall v :: v != uid ==> NotesOf(notes, v) == NotesOf(old(notes), v)
    {
      var user := FindUserByEmail(users, token.subject);
      if user.None? {
        return Err500;
      }
      var k := FindOwnedNote(notes, noteId, user.value.id);
      if k.None? {
        return Err404(NoteNotFoundOrNotOwner);
      }
      var i := k.value;
      RemoveAtExactlyOne(notes, i);
      forall v | v != user.value.id ensures NotesOf(RemoveAt(notes, i), v) == NotesOf(notes, v) {
        RemoveAtOthersUnchanged(notes, i, v);
      }
      ghost var removed := RemoveAt(notes, i);
      assert OwnersExist(users, removed) by {
        forall j | 0 <= j < |removed| ensures removed[j].userId in UserIds(users) {
          if j < i { assert removed[j] == notes[j]; } else { assert removed[j] == notes[j + 1]; }
        }
      }
      assert NotesWellFormed(removed) by {
        forall j | 0 <= j < |removed|
          ensures ValidNoteIn(NoteIn(removed[j].title, removed[j].content))
        {
          if j < i { assert removed[j] == notes[j]; } else { assert removed[j] == notes[j + 1]; }
        }
      }
      notes := RemoveAt(notes, i);
      r := Ok(Message(NoteDeleted));
    }
  }

  /**
   The single-note handler answers a caller from the caller's own notes alone:
   two stores with the same users that agree on that caller's notes give the
   same response, however the other users' notes differ.
   */
  lemma GetNoteIgnoresOtherUsers(a: NotesApp, b: NotesApp, token: Token, noteId: int)
    requires a.users == b.users
    requires FindUserByEmail(a.users, token.subject).Some?
    requires NotesOf(a.notes, FindUserByEmail(a.users, token.subject).value.id) ==
             NotesOf(b.notes, FindUserByEmail(a.users, token.subject).value.id)
    ensures a.GetNote(token, noteId) == b.GetNote(token, noteId)
  {
    var uid := FindUserByEmail(a.users, token.subject).value.id;
    ForeignNotesInvisible(a.notes, b.notes, noteId, uid);
  }

  /**
   Register followed by login: once a user has been appended to a table where
   its email was free, as a successful register does, logging in with the same
   email and password yields a bearer token for that email.
   */
  lemma RegisteredUserCanLogIn(app: NotesApp, before: seq<User>, req: UserCreate, id: int, salt: string)
    requires RoundTrips(app.crypt)
    requires ValidUserCreate(req)
    requires FindUserByEmail(before, req.email).None?
    requires app.users == before + [User(id, req.email, app.crypt.hash(req.password, salt))]
    ensures app.Login(req) == Ok(TokenOut(Token(req.email), Bearer))
  {
    FindUserAfterAppend(before, User(id, req.email, app.crypt.hash(req.password, salt)), req.email);
  }

  /**
   Create followed by get: with distinct note ids, every stored note is
   returned to its owner when asked for by its id.
   */
  lemma OwnerCanGetStoredNote(app: NotesApp, token: Token, k: nat)
    requires ValidKeys(NoteIds(app.notes))
    requires k < |app.notes|
    requires FindUserByEmail(app.users, token.subject).Some?
    requires FindUserByEmail(app.users, token.subject).value.id == app.notes[k].userId
    ensures app.GetNote(token, app.notes[k].id) == Ok(app.notes[k])
  {
  }

  /**
   The sign-up flow: register, fail to register the same email again, log in
   and receive a bearer token for that email, and be refused with a wrong
   password.
   */
  method SignUpScenario(crypt: Crypt, salt: string)
    requires RoundTrips(crypt)
    requires !crypt.verify("wrong-password", crypt.hash("secret1", salt))
  {
    var app := new NotesApp(crypt);
    var alice := UserCreate("a@x.com", "secret1");
    var registered := app.Register(alice, salt);
    assert registered.Ok?;
    var again := app.Register(alice, salt);
    assert again == Err400(EmailTaken);
    var short := app.Register(UserCreate("c@x.com", "12345"), salt);
    assert short == Err422;

    assert app.users[0].email == "a@x.com";
    var login := app.Login(alice);
    assert login == Ok(TokenOut(Token("a@x.com"), Bearer));
    var refused := app.Login(UserCreate("a@x.com", "wrong-password"));
    assert refused == Err401(BadCredentials) && refused.Status() == 401;
  }

  /**
   The note flow: create a note, list it, see that a second user can neither
   read nor delete it, delete it, and find it gone.
   */
  method NoteScenario(crypt: Crypt, salt: string, salt2: string)
  {
    var app := new NotesApp(crypt);
    var registered := app.Register(UserCreate("a@x.com", "secret1"), salt);
    assert registered.Ok?;
    var token := Token("a@x.com");

    var created := app.CreateNote(token, NoteIn("title", "content"));
    assert created.Ok? && created.value.userId == registered.value.id;
    var note := created.value;
    assert NotesOf([], note.userId) == [];
    assert app.notes == [note];
    assert NotesOf(app.notes, note.userId) == [note];
    var listed := app.GetNotes(token);
    assert listed.Ok?;
    assert listed.value == NotesOf(app.notes, note.userId);
    assert listed == Ok([note]);

    var other := app.Register(UserCreate("b@x.com", "secret2"), salt2);
    assert other.Ok?;
    var bobToken := Token("b@x.com");
    var peek := app.GetNote(bobToken, note.id);
    assert peek == Err404(NoteNotFound);
    var steal := app.DeleteNote(bobToken, note.id);
    assert steal == Err404(NoteNotFoundOrNotOwner);

    var deleted := app.DeleteNote(token, note.id);
    assert deleted.Ok?;
    var gone := app.GetNote(token, note.id);
    assert gone == Err404(NoteNotFound) && gone.Status() == 404;
  }
}
