/** The handlers of backend/main.py over one in-memory store. The two tables are maps from
    primary key to record; a handler that changes them is a method of `Store`, a handler
    that only reads them is a function of the tables. Every protected handler first runs
    `Identity.CurrentUser` on the bearer token at the request's time `now`. */
module Backend {
  import opened Models
  import opened Security
  import opened Identity
  import opened NoteAccess
  import Tables

  /** GET /my_notes: the caller's notes, narrowed by the optional query. */
  function ReadMyNotes(users: map<int, User>, notes: map<int, Note>, token: Jwt, now: int,
                       q: Option<string>): (r: Result<map<int, Note>>)
    ensures CurrentUser(users, token, now).Err? ==> r == Err(CredentialsError)
    ensures CurrentUser(users, token, now).Ok? ==>
              r == Ok(Listing(notes, CurrentUser(users, token, now).value, q))
  {
    match CurrentUser(users, token, now)
    case Err(e) => Err(e)
    case Ok(caller) => Ok(Listing(notes, caller, q))
  }

  /** PUT /notes/{notes_id}: the existence and ownership checks and nothing else; the new
      note is never written, so the tables are the same after every outcome. */
  function UpdateNotes(users: map<int, User>, notes: map<int, Note>, token: Jwt, now: int,
                       notesId: int, newNotes: Note): (r: Result<()>)
    ensures CurrentUser(users, token, now).Err? ==> r == Err(CredentialsError)
    ensures CurrentUser(users, token, now).Ok? && notesId !in notes ==> r == Err(NoteNotFound)
    ensures (CurrentUser(users, token, now).Ok? && notesId in notes
             && notes[notesId].owner_id != CurrentUser(users, token, now).value.id) ==> r == Err(NotAllowed)
    ensures r.Ok? <==> CurrentUser(users, token, now).Ok? && notesId in notes
                       && notes[notesId].owner_id == CurrentUser(users, token, now).value.id
  {
    match CurrentUser(users, token, now)
    case Err(e) => Err(e)
    case Ok(caller) =>
      match UpdateCheck(notes, caller, notesId)
      case Some(e) => Err(e)
      case None => Ok(())
  }

  /** GET /user: every user, to any resolved caller. */
  function ReadUser(users: map<int, User>, token: Jwt, now: int): (r: Result<map<int, User>>)
    ensures r.Err? <==> CurrentUser(users, token, now).Err?
    ensures r.Err? ==> r.error == CredentialsError
    ensures r.Ok? ==> r.value == users
  {
    match CurrentUser(users, token, now)
    case Err(e) => Err(e)
    case Ok(_) => Ok(users)
  }

  /** An update of a user may move it to another key: the new key must be given and must
      not belong to another user, or the store refuses the write. */
  predicate RekeyAllowed(keys: set<int>, from: int, to: Option<int>) {
    to.Some? && (to.value == from || to.value !in keys)
  }

  /** Deleting a user leaves its notes in place. When that user held the largest key and
      the keys below it have no gap, the next user registered without a key gets the same
      key, and with it the deleted user's notes. */
  lemma OrphanedNotesPassToNextUser(users: map<int, User>, notes: map<int, Note>, k: int, next: User)
    requires k in users
    requires forall x :: x in users ==> 1 <= x <= k
    requires forall x :: 1 <= x <= k ==> x in users
    requires next.id == Some(Tables.FreshKey((users - {k}).Keys))
    ensures next.id == Some(k)
    ensures forall i :: i in notes && notes[i].owner_id == Some(k) ==> i in Listing(notes, next, None)
  {
    assert (users - {k}).Keys == users.Keys - {k};
    Tables.DeletedGreatestKeyIsReused(users.Keys, k);
  }

  class Store {
    var users: map<int, User>
    var notes: map<int, Note>
    /** The password hasher (bcrypt), as a fixed function: it does not model bcrypt's
        random salt, so equal passwords get equal hashes here. */
    const hash: string -> string

    /** Every row is stored under its own id. */
    ghost predicate Valid()
      reads this
    {
      && (forall k :: k in users ==> users[k].id == Some(k))
      && (forall k :: k in notes ==> notes[k].id == Some(k))
    }

    constructor (hash: string -> string)
      ensures Valid() && users == map[] && notes == map[] && this.hash == hash
    {
      this.hash := hash;
      users, notes := map[], map[];
    }

    /** POST /my_notes: store the note under its own key or a fresh one, owned by the
        caller whatever owner the client sent; since every user is stored under its own
        id, the owner is the key of the first user the token's subject names. */
    method CheckMyNotes(token: Jwt, now: int, note: Note) returns (r: Result<Note>)
      requires Valid()
      modifies this
      ensures Valid() && users == old(users)
      ensures CurrentUser(users, token, now).Err? ==> r == Err(CredentialsError) && notes == old(notes)
      ensures CurrentUser(users, token, now).Ok? && Tables.AllocateKey(old(notes).Keys, note.id).None? ==>
                r == Err(InternalError) && notes == old(notes)
      ensures CurrentUser(users, token, now).Ok? && Tables.AllocateKey(old(notes).Keys, note.id).Some? ==>
                var k := Tables.AllocateKey(old(notes).Keys, note.id).value;
                && r == Ok(Stamp(note, k, CurrentUser(users, token, now).value))
                && k !in old(notes)
                && notes == old(notes)[k := r.value]
                && r.value.owner_id == Some(FirstUserKey(users, Subject(token, now).value).value)
    {
      var caller := CurrentUser(users, token, now);
      if caller.Err? {
        return Err(caller.error);
      }
      var key := Tables.AllocateKey(notes.Keys, note.id);
      if key.None? {
        return Err(InternalError);
      }
      var stored := Stamp(note, key.value, caller.value);
      notes := notes[key.value := stored];
      r := Ok(stored);
    }

    /** DELETE /notes/{notes_id}: only the owner removes a note, and only that note. */
    method DeleteNotes(token: Jwt, now: int, notesId: int) returns (r: Result<string>)
      requires Valid()
      modifies this
      ensures Valid() && users == old(users)
      ensures CurrentUser(users, token, now).Err? ==> r == Err(CredentialsError) && notes == old(notes)
      ensures CurrentUser(users, token, now).Ok? && notesId !in old(notes) ==>
                r == Err(DeleteNoteNotFound) && notes == old(notes)
      ensures (CurrentUser(users, token, now).Ok? && notesId in old(notes)
               && old(notes)[notesId].owner_id != CurrentUser(users, token, now).value.id) ==>
                r == Err(NotYourNotes) && notes == old(notes)
      ensures (CurrentUser(users, token, now).Ok? && notesId in old(notes)
               && old(notes)[notesId].owner_id == CurrentUser(users, token, now).value.id) ==>
                r == Ok(NotesDeleted) && notes == old(notes) - {notesId}
    {
      var caller := CurrentUser(users, token, now);
      if caller.Err? {
        return Err(caller.error);
      }
      var check := DeleteCheck(notes, caller.value, notesId);
      if check.Some? {
        return Err(check.value);
      }
      notes := notes - {notesId};
      r := Ok(NotesDeleted);
    }

    /** POST /user: store the user with its password replaced by its hash. */
    method CreateUser(user: User) returns (r: Result<User>)
      requires Valid()
      modifies this
      ensures Valid() && notes == old(notes)
      ensures Tables.AllocateKey(old(users).Keys, user.id).None? ==>
                r == Err(InternalError) && users == old(users)
      ensures Tables.AllocateKey(old(users).Keys, user.id).Some? ==>
                var k := Tables.AllocateKey(old(users).Keys, user.id).value;
                && r == Ok(User(Some(k), user.name, user.age, hash(user.password)))
                && k !in old(users)
                && users == old(users)[k := r.value]
    {
      var key := Tables.AllocateKey(users.Keys, user.id);
      if key.None? {
        return Err(InternalError);
      }
      var stored := user.(id := Some(key.value), password := hash(user.password));
      users := users[key.value := stored];
      r := Ok(stored);
    }

    /** PUT /user/{user_id}: replace every field, the id included, with a fresh hash of the
        new password. An empty password reaches an unbound local variable. */
    method UpdateUser(userId: int, newData: User) returns (r: Result<User>)
      requires Valid()
      modifies this
      ensures Valid() && notes == old(notes)
      ensures userId !in old(users) ==> r == Err(UserNotFound) && users == old(users)
      ensures userId in old(users) && newData.password == "" ==>
                r == Err(InternalError) && users == old(users)
      ensures (userId in old(users) && newData.password != ""
               && !RekeyAllowed(old(users).Keys, userId, newData.id)) ==>
                r == Err(InternalError) && users == old(users)
      ensures (userId in old(users) && newData.password != ""
               && RekeyAllowed(old(users).Keys, userId, newData.id)) ==>
                && r == Ok(User(newData.id, newData.name, newData.age, hash(newData.password)))
                && users == (old(users) - {userId})[newData.id.value := r.value]
    {
      if userId !in users {
        return Err(UserNotFound);
      }
      if newData.password == "" {
        return Err(InternalError);
      }
      var newHashedPassword := hash(newData.password);
      if !RekeyAllowed(users.Keys, userId, newData.id) {
        return Err(InternalError);
      }
      var stored := User(newData.id, newData.name, newData.age, newHashedPassword);
      users := (users - {userId})[newData.id.value := stored];
      r := Ok(stored);
    }

    /** DELETE /user/{user_id}: remove that user only; its notes stay. */
    method DeleteUser(userId: int) returns (r: Result<string>)
      requires Valid()
      modifies this
      ensures Valid() && notes == old(notes)
      ensures userId !in old(users) ==> r == Err(UserNotFound) && users == old(users)
      ensures userId in old(users) ==> r == Ok(UserDeleted) && users == old(users) - {userId}
    {
      if userId !in users {
        return Err(UserNotFound);
      }
      users := users - {userId};
      r := Ok(UserDeleted);
    }
  }
}
