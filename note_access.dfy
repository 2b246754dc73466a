/** Ownership rules for notes. backend/main.py and backend/routers/notes.py define the note
    handlers twice, with the same statements; both sets are modelled by these functions and
    by the note methods of `Backend.Store`. */
module NoteAccess {
  import opened Models
  import opened SqlLike

  /** The note create stores: the key it was given and the caller as owner, whatever
      owner the client sent. */
  function Stamp(note: Note, key: int, caller: User): (r: Note)
    ensures r.owner_id == caller.id
    ensures r.id == Some(key) && r.title == note.title && r.content == note.content
  {
    note.(id := Some(key), owner_id := caller.id)
  }

  /** Title OR content passes the text filter of the query. */
  predicate Matches(note: Note, q: string) {
    Contains(note.title, q) || Contains(note.content, q)
  }

  /** The notes the listing returns: those of the caller, narrowed by the text filter only
      when the query is a non-empty string. */
  function Listing(notes: map<int, Note>, caller: User, q: Option<string>): (r: map<int, Note>)
    ensures forall k :: k in r ==> k in notes && r[k] == notes[k] && r[k].owner_id == caller.id
    ensures !Truthy(q) ==> forall k :: k in notes && notes[k].owner_id == caller.id ==> k in r
    ensures Truthy(q) ==> forall k :: k in notes && notes[k].owner_id == caller.id ==>
                                      (k in r <==> Matches(notes[k], q.value))
  {
    map k | k in notes && notes[k].owner_id == caller.id && (!Truthy(q) || Matches(notes[k], q.value))
      :: notes[k]
  }

  /** With a non-empty query free of `%` and `_`, the listing holds exactly the caller's
      notes whose title or content contains the query up to ASCII case. */
  lemma ListingBySubstring(notes: map<int, Note>, caller: User, q: string)
    requires q != "" && NoWildcards(q)
    ensures forall k :: k in Listing(notes, caller, Some(q)) <==>
                        k in notes && notes[k].owner_id == caller.id
                        && (OccursFolded(q, notes[k].title) || OccursFolded(q, notes[k].content))
  {
    forall k | k in notes
      ensures Matches(notes[k], q) <==> OccursFolded(q, notes[k].title) || OccursFolded(q, notes[k].content)
    {
      ContainsIsFoldedSubstring(notes[k].title, q);
      ContainsIsFoldedSubstring(notes[k].content, q);
    }
  }

  /** Every note of the caller whose title or content holds the query verbatim is listed,
      whatever characters the query holds. */
  lemma ListingKeepsExactMatches(notes: map<int, Note>, caller: User, q: string)
    ensures forall k :: k in notes && notes[k].owner_id == caller.id
                        && (Occurs(q, notes[k].title) || Occurs(q, notes[k].content))
                        ==> k in Listing(notes, caller, Some(q))
  {
    forall k | k in notes && notes[k].owner_id == caller.id
                 && (Occurs(q, notes[k].title) || Occurs(q, notes[k].content))
      ensures k in Listing(notes, caller, Some(q))
    {
      if Occurs(q, notes[k].title) {
        OccurrencePassesFilter(notes[k].title, q);
      } else {
        OccurrencePassesFilter(notes[k].content, q);
      }
    }
  }

  /** The checks of the note update handler, in its order: existence (404), then
      ownership (403). `None` means both pass. */
  function UpdateCheck(notes: map<int, Note>, caller: User, id: int): (r: Option<HttpError>)
    ensures id !in notes ==> r == Some(NoteNotFound)
    ensures id in notes && notes[id].owner_id != caller.id ==> r == Some(NotAllowed)
    ensures r.None? <==> id in notes && notes[id].owner_id == caller.id
  {
    if id !in notes then Some(NoteNotFound)
    else if notes[id].owner_id != caller.id then Some(NotAllowed)
    else None
  }

  /** The checks of the note delete handler: existence, then ownership, both 403. */
  function DeleteCheck(notes: map<int, Note>, caller: User, id: int): (r: Option<HttpError>)
    ensures id !in notes ==> r == Some(DeleteNoteNotFound)
    ensures id in notes && notes[id].owner_id != caller.id ==> r == Some(NotYourNotes)
    ensures r.None? <==> id in notes && notes[id].owner_id == caller.id
  {
    if id !in notes then Some(DeleteNoteNotFound)
    else if notes[id].owner_id != caller.id then Some(NotYourNotes)
    else None
  }

  /** The two handlers let the same callers through, yet answer a missing note with
      different status codes: 404 on update, 403 on delete. */
  lemma ChecksDifferOnlyOnMissingNote(notes: map<int, Note>, caller: User, id: int)
    ensures UpdateCheck(notes, caller, id).None? <==> DeleteCheck(notes, caller, id).None?
    ensures id !in notes ==> UpdateCheck(notes, caller, id).value.status == 404
                             && DeleteCheck(notes, caller, id).value.status == 403
    ensures id in notes ==> UpdateCheck(notes, caller, id).Some? ==>
                              UpdateCheck(notes, caller, id).value.status
                              == DeleteCheck(notes, caller, id).value.status
  {
  }
}
