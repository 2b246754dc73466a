/** A client of the store, in the manner of a request sequence: what callers can conclude
    from the contracts of the handlers alone. */
module Scenario {
  import opened Models
  import opened Security
  import opened Identity
  import opened NoteAccess
  import opened Backend
  import Tables

  /** Two users register; alice logs in and creates a note that claims bob as owner; the
      note is hers, bob can neither update nor delete it, and she can delete it. */
  method ForgedOwnerScenario(hash: string -> string, verify: (string, string) -> bool, now: int)
    requires forall p :: verify(p, hash(p))
  {
    var store := new Store(hash);
    assert store.users.Keys == {};
    var alice := store.CreateUser(User(None, "alice", 30, "pw1"));
    assert alice == Ok(User(Some(1), "alice", 30, hash("pw1")));
    assert store.users.Keys == {1};
    assert Tables.FreshKey({1}) == 2 by { assert Tables.Greatest({1}) in {1}; }
    var bob := store.CreateUser(User(None, "bob", 25, "pw2"));
    assert 1 in store.users && bob == Ok(User(Some(2), "bob", 25, hash("pw2")));
    assert store.users == map[1 := alice.value, 2 := bob.value];

    StoredHashAdmitsLogin(store.users, hash, verify, 1, "pw1", now);
    var aliceLogin := Login(store.users, verify, "alice", "pw1", now);
    var aliceToken := aliceLogin.value.access_token;
    LoginThenResolve(store.users, verify, "alice", "pw1", now, now);
    assert FirstUserKey(store.users, "alice") == Some(1);
    assert CurrentUser(store.users, aliceToken, now) == Ok(alice.value);

    StoredHashAdmitsLogin(store.users, hash, verify, 2, "pw2", now);
    var bobToken := Login(store.users, verify, "bob", "pw2", now).value.access_token;
    LoginThenResolve(store.users, verify, "bob", "pw2", now, now);
    assert FirstUserKey(store.users, "bob") == Some(2);
    assert CurrentUser(store.users, bobToken, now) == Ok(bob.value);

    var created := store.CheckMyNotes(aliceToken, now, Note(None, "Alpha", "x", Some(2)));
    assert created == Ok(Note(Some(1), "Alpha", "x", Some(1)));

    assert UpdateNotes(store.users, store.notes, bobToken, now, 1, Note(None, "y", "z", None))
           == Err(NotAllowed);
    var bobDelete := store.DeleteNotes(bobToken, now, 1);
    assert bobDelete == Err(NotYourNotes) && 1 in store.notes;

    var aliceDelete := store.DeleteNotes(aliceToken, now, 1);
    assert aliceDelete == Ok(NotesDeleted) && store.notes == map[];
  }
}
