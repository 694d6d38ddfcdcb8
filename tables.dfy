/**
 The queries the handlers run against the two tables, over the tables as
 sequences of rows in insertion order: a lookup by email (`filter(...).first()`
 on users), the caller's notes (`filter(...).all()` on notes), a lookup of a
 note by id and owner (`filter(...).first()` on notes), removal of one row, and
 the id the store gives a new row. Each comes with the lemmas the handlers'
 contracts rest on.
 */
module Tables {
  import opened Records

  // ---------------------------------------------------------------------
  // Table invariants

  ghost predicate UniqueEmails(users: seq<User>) {
    forall i, j :: 0 <= i < j < |users| ==> users[i].email != users[j].email
  }

  function UserIds(users: seq<User>): (ids: seq<int>)
    ensures |ids| == |users|
    ensures forall i :: 0 <= i < |users| ==> ids[i] == users[i].id
  {
    seq(|users|, i requires 0 <= i < |users| => users[i].id)
  }

  function NoteIds(notes: seq<Note>): (ids: seq<int>)
    ensures |ids| == |notes|
    ensures forall i :: 0 <= i < |notes| ==> ids[i] == notes[i].id
  {
    seq(|notes|, i requires 0 <= i < |notes| => notes[i].id)
  }

  /** Primary keys: positive and pairwise distinct. */
  ghost predicate ValidKeys(ids: seq<int>) {
    && (forall i :: 0 <= i < |ids| ==> ids[i] >= 1)
    && (forall i, j :: 0 <= i < j < |ids| ==> ids[i] != ids[j])
  }

  /** Every note's `userId` is the id of some user (the foreign key). */
  ghost predicate OwnersExist(users: seq<User>, notes: seq<Note>) {
    forall i :: 0 <= i < |notes| ==> notes[i].userId in UserIds(users)
  }

  /** Every stored note passed note validation when it was created. */
  ghost predicate NotesWellFormed(notes: seq<Note>) {
    forall i :: 0 <= i < |notes| ==> ValidNoteIn(NoteIn(notes[i].title, notes[i].content))
  }

  // ---------------------------------------------------------------------
  // Id assignment

  function Max(ids: seq<int>): (m: int)
    requires |ids| > 0
    ensures m in ids
    ensures forall i :: 0 <= i < |ids| ==> ids[i] <= m
  {
    if |ids| == 1 then ids[0]
    else
      var rest := Max(ids[1..]);
      if ids[0] >= rest then ids[0] else rest
  }

  /**
   The key the store gives a new row of an integer primary key table: one more
   than the largest key present, or 1 for an empty table.
   */
  function NextId(ids: seq<int>): (r: int)
    ensures |ids| == 0 ==> r == 1
    ensures |ids| > 0 ==> r - 1 in ids
    ensures forall i :: 0 <= i < |ids| ==> ids[i] < r
  {
    if |ids| == 0 then 1 else Max(ids) + 1
  }

  /** A new key is not in use and keeps the keys valid. */
  lemma NextIdIsFresh(ids: seq<int>)
    requires ValidKeys(ids)
    ensures NextId(ids) >= 1
    ensures NextId(ids) !in ids
    ensures ValidKeys(ids + [NextId(ids)])
  {

  }

  // ---------------------------------------------------------------------
  // Users: lookup by email

  /** The first user with the given email, as `filter(User.email == email).first()`. */
  function FindUserByEmail(users: seq<User>, email: string): (r: Option<User>)
    ensures r.None? <==> forall i :: 0 <= i < |users| ==> users[i].email != email
    ensures r.Some? ==> r.value.email == email
    ensures r.Some? ==> exists k :: 0 <= k < |users| && users[k] == r.value &&
                                    forall j :: 0 <= j < k ==> users[j].email != email
  {
    if |users| == 0 then None
    else if users[0].email == email then Some(users[0])
    else
      var rest := FindUserByEmail(users[1..], email);
      assert forall j :: 1 <= j < |users| ==> users[j] == users[1..][j - 1];
      if rest.Some? then
        ghost var k :| 0 <= k < |users[1..]| && users[1..][k] == rest.value &&
                       forall j :: 0 <= j < k ==> users[1..][j].email != email;
        assert users[k + 1] == rest.value;
        rest
      else rest
  }

  /** With unique emails, the lookup finds every stored user by its email. */
  lemma FindStoredUser(users: seq<User>, k: nat)
    requires UniqueEmails(users)
    requires k < |users|
    ensures FindUserByEmail(users, users[k].email) == Some(users[k])
  {

  }

  /** Looking up an email in a table with one user appended. */
  lemma {:induction false} FindUserAfterAppend(users: seq<User>, u: User, email: string)
    ensures FindUserByEmail(users + [u], email) ==
            if FindUserByEmail(users, email).Some? then FindUserByEmail(users, email)
            else if u.email == email then Some(u)
            else None
  {
    if |users| > 0 {
      assert (users + [u])[1..] == users[1..] + [u];
      FindUserAfterAppend(users[1..], u, email);
    }
  }

  /** Appending a user whose email is not taken keeps emails unique. */
  lemma AppendFreshEmail(users: seq<User>, u: User)
    requires UniqueEmails(users)
    requires FindUserByEmail(users, u.email).None?
    ensures UniqueEmails(users + [u])
  {

  }

  // ---------------------------------------------------------------------
  // Notes: listing the caller's notes

  /** The notes whose owner is `uid`, in table order, as `filter(NoteDB.user_id == uid).all()`. */
  function NotesOf(notes: seq<Note>, uid: int): (r: seq<Note>)
    ensures forall n :: n in r <==> n in notes && n.userId == uid
    ensures |r| <= |notes|
  {
    if |notes| == 0 then []
    else
      var rest := NotesOf(notes[1..], uid);
      assert notes == [notes[0]] + notes[1..];
      if notes[0].userId == uid then [notes[0]] + rest else rest
  }

  /** Listing distributes over a table split in two. */
  lemma {:induction false} NotesOfConcat(a: seq<Note>, b: seq<Note>, uid: int)
    ensures NotesOf(a + b, uid) == NotesOf(a, uid) + NotesOf(b, uid)
  {
    if |a| > 0 {
      assert (a + b)[0] == a[0];
      assert (a + b)[1..] == a[1..] + b;
      NotesOfConcat(a[1..], b, uid);
    } else {
      assert a + b == b;
    }
  }

  /** A single note is listed for its owner and for nobody else. */
  lemma NotesOfSingle(n: Note, uid: int)
    ensures NotesOf([n], uid) == if n.userId == uid then [n] else []
  {

  }

  /** Appending a note adds it to its owner's listing and to nobody else's. */
  lemma AppendNoteListing(notes: seq<Note>, n: Note)
    ensures NotesOf(notes + [n], n.userId) == NotesOf(notes, n.userId) + [n]
    ensures forall uid :: uid != n.userId ==> NotesOf(notes + [n], uid) == NotesOf(notes, uid)
  {
    forall uid ensures NotesOf(notes + [n], uid) == NotesOf(notes, uid) + NotesOf([n], uid) {
      NotesOfConcat(notes, [n], uid);
    }
    forall uid ensures NotesOf([n], uid) == if n.userId == uid then [n] else [] {
      NotesOfSingle(n, uid);
    }
  }

  /**
   Appending a well-formed note with the next key, owned by an existing user,
   keeps the notes' keys, owners and texts valid.
   */
  lemma AppendNoteKeepsTables(users: seq<User>, notes: seq<Note>, n: Note)
    requires ValidKeys(NoteIds(notes)) && OwnersExist(users, notes) && NotesWellFormed(notes)
    requires n.id == NextId(NoteIds(notes))
    requires n.userId in UserIds(users)
    requires ValidNoteIn(NoteIn(n.title, n.content))
    ensures ValidKeys(NoteIds(notes + [n]))
    ensures OwnersExist(users, notes + [n])
    ensures NotesWellFormed(notes + [n])
    ensures n.id !in NoteIds(notes)
  {

  }

  // ---------------------------------------------------------------------
  // Notes: lookup by id and owner

  /** A note matches a lookup when both its id and its owner match. */
  predicate Matches(n: Note, noteId: int, uid: int) {
    n.id == noteId && n.userId == uid
  }

  /**
   The position of the first note with this id and this owner, as
   `filter(NoteDB.id == noteId, NoteDB.user_id == uid).first()`.
   */
  function FindOwnedNote(notes: seq<Note>, noteId: int, uid: int): (r: Option<nat>)
    ensures r.None? <==> forall i :: 0 <= i < |notes| ==> !Matches(notes[i], noteId, uid)
    ensures r.Some? ==> r.value < |notes| && Matches(notes[r.value], noteId, uid)
    ensures r.Some? ==> forall j :: 0 <= j < r.value ==> !Matches(notes[j], noteId, uid)
  {
    if |notes| == 0 then None
    else if Matches(notes[0], noteId, uid) then Some(0)
    else
      match FindOwnedNote(notes[1..], noteId, uid)
      case None => None
      case Some(k) => Some(k + 1)
  }

  /** The first note with the given id in a sequence. */
  function FindById(notes: seq<Note>, noteId: int): (r: Option<Note>)
    ensures r.None? <==> forall i :: 0 <= i < |notes| ==> notes[i].id != noteId
    ensures r.Some? ==> r.value in notes && r.value.id == noteId
  {
    if |notes| == 0 then None
    else if notes[0].id == noteId then Some(notes[0])
    else
      var rest := FindById(notes[1..], noteId);
      assert forall j :: 1 <= j < |notes| ==> notes[j] == notes[1..][j - 1];
      rest
  }

  /** The note a lookup by id and owner yields, if any: the row `.first()` returns. */
  function OwnedNote(notes: seq<Note>, noteId: int, uid: int): (r: Option<Note>)
    ensures r.None? <==> forall i :: 0 <= i < |notes| ==> !Matches(notes[i], noteId, uid)
    ensures r.Some? ==> r.value in notes && Matches(r.value, noteId, uid)
  {
    match FindOwnedNote(notes, noteId, uid)
    case None => None
    case Some(k) => Some(notes[k])
  }

  /**
   A lookup by id and owner sees exactly the owner's own listing: it yields
   what a search by id alone in `NotesOf(notes, uid)` yields. So a note of
   another user can never be the answer, nor change it.
   */
  lemma {:induction false} OwnedNoteSeesOnlyOwnList(notes: seq<Note>, noteId: int, uid: int)
    ensures OwnedNote(notes, noteId, uid) == FindById(NotesOf(notes, uid), noteId)
  {
    if |notes| > 0 {
      assert notes == [notes[0]] + notes[1..];
      NotesOfConcat([notes[0]], notes[1..], uid);
      NotesOfSingle(notes[0], uid);
      OwnedNoteSeesOnlyOwnList(notes[1..], noteId, uid);
      if !Matches(notes[0], noteId, uid) {
        match FindOwnedNote(notes[1..], noteId, uid)
        case None =>
        case Some(k) => assert notes[k + 1] == notes[1..][k];
      }
    }
  }

  /**
   Two note tables that agree on one user's notes answer every lookup by that
   user alike: another user's note is handled exactly as an absent one.
   */
  lemma ForeignNotesInvisible(notes: seq<Note>, other: seq<Note>, noteId: int, uid: int)
    requires NotesOf(notes, uid) == NotesOf(other, uid)
    ensures OwnedNote(notes, noteId, uid) == OwnedNote(other, noteId, uid)
    ensures FindOwnedNote(notes, noteId, uid).None? <==> FindOwnedNote(other, noteId, uid).None?
  {
    OwnedNoteSeesOnlyOwnList(notes, noteId, uid);
    OwnedNoteSeesOnlyOwnList(other, noteId, uid);
  }

  /** Inserting another user's note anywhere leaves that user's lookups unchanged. */
  lemma InsertForeignNote(before: seq<Note>, n: Note, after: seq<Note>, noteId: int, uid: int)
    requires n.userId != uid
    ensures OwnedNote(before + [n] + after, noteId, uid) == OwnedNote(before + after, noteId, uid)
  {
    NotesOfConcat(before + [n], after, uid);
    NotesOfConcat(before, [n], uid);
    NotesOfConcat(before, after, uid);
    NotesOfSingle(n, uid);
    ForeignNotesInvisible(before + [n] + after, before + after, noteId, uid);
  }

  // ---------------------------------------------------------------------
  // Notes: removing one row

  function RemoveAt(notes: seq<Note>, k: nat): (r: seq<Note>)
    requires k < |notes|
    ensures |r| == |notes| - 1
    ensures forall i :: 0 <= i < k ==> r[i] == notes[i]
    ensures forall i :: k <= i < |r| ==> r[i] == notes[i + 1]
  {
    notes[..k] + notes[k + 1..]
  }

  /**
   With distinct note ids, removing the note at `k` removes exactly the note
   with that id: every other note stays, and the keys stay valid.
   */
  lemma RemoveAtExactlyOne(notes: seq<Note>, k: nat)
    requires ValidKeys(NoteIds(notes))
    requires k < |notes|
    ensures forall n :: n in RemoveAt(notes, k) <==> n in notes && n.id != notes[k].id
    ensures notes[k] !in RemoveAt(notes, k)
    ensures ValidKeys(NoteIds(RemoveAt(notes, k)))
  {

  }

  /** Removing a note leaves the listing of every other user unchanged. */
  lemma RemoveAtOthersUnchanged(notes: seq<Note>, k: nat, uid: int)
    requires k < |notes|
    ensures NotesOf(RemoveAt(notes, k), uid) ==
            if notes[k].userId == uid then NotesOf(notes[..k], uid) + NotesOf(notes[k + 1..], uid)
            else NotesOf(notes, uid)
  {
    assert notes == notes[..k] + [notes[k]] + notes[k + 1..];
    NotesOfConcat(notes[..k] + [notes[k]], notes[k + 1..], uid);
    NotesOfConcat(notes[..k], [notes[k]], uid);
    NotesOfConcat(notes[..k], notes[k + 1..], uid);
    NotesOfSingle(notes[k], uid);
  }
}
