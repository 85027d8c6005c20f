/** The `ShortNotes` screen of pages/notes.js: its two pieces of state and the
    handlers that overwrite them.

    The document store and the auth library are not modelled. What a
    handler asks of the store is returned as a `StoreCall`; what the store
    answers is a parameter (`None` or `false` when the call rejects, in which
    case the awaiting handler throws and changes nothing after it). */
module Screen {
  import opened Wrappers
  import opened NoteList

  /** A request sent to the "notes" collection of the document store. */
  datatype StoreCall =
    | GetDocs(userId: string)             // documents whose userId equals the given id
    | AddDoc(data: Record)
    | UpdateDoc(id: string, data: Record)
    | DeleteDoc(id: string)

  class ShortNotes {
    var notes: seq<Record>
    var newNote: string

    /** The note shape every handler keeps: each note has a string id and a
        boolean editing flag, so the card's Edit/Done choice reads a boolean. */
    ghost predicate Valid()
      reads this
    {
      WellFormed(notes)
    }

    constructor ()
      ensures Valid() && notes == [] && newNote == ""
    {
      notes := [];
      newNote := "";
    }

    /** The auth-state callback registered on mount: without a user the screen
        navigates to the login route, with one it loads that user's notes. */
    method OnAuthStateChanged(user: Option<string>, result: Option<seq<Doc>>)
      returns (toLogin: bool, call: Option<StoreCall>)
      requires Valid()
      modifies this
      ensures Valid()
      ensures toLogin <==> user.None?
      ensures call == if user.Some? then Some(GetDocs(user.value)) else None
      ensures notes == if user.Some? && result.Some? then FromDocs(result.value) else old(notes)
      ensures newNote == old(newNote)
    {
      match user {
        case None =>
          toLogin, call := true, None;
        case Some(uid) =>
          var c := FetchNotes(uid, result);
          toLogin, call := false, Some(c);
      }
    }

    /** Queries the user's documents and replaces the whole list with one
        note per document; a rejected query leaves the list as it was. */
    method FetchNotes(userId: string, result: Option<seq<Doc>>) returns (call: StoreCall)
      requires Valid()
      modifies this
      ensures Valid()
      ensures call == GetDocs(userId)
      ensures notes == if result.Some? then FromDocs(result.value) else old(notes)
      ensures newNote == old(newNote)
    {
      call := GetDocs(userId);
      if result.Some? {
        FromDocsSpec(result.value);
        notes := FromDocs(result.value);
      }
    }

    /** The new-note input's change handler. */
    method SetNewNote(value: string)
      requires Valid()
      modifies this
      ensures Valid()
      ensures notes == old(notes) && newNote == value
    {
      newNote := value;
    }

    /** Does nothing when the pending text is empty or nobody is signed in.
        Otherwise creates `{text, userId}` in the store and, once the store
        returns the new id, appends the note and clears the pending text. */
    method AddNote(currentUser: Option<string>, created: Option<string>) returns (call: Option<StoreCall>)
      requires Valid()
      modifies this
      ensures Valid()
      ensures old(newNote) == "" || currentUser.None? ==>
                call == None && notes == old(notes) && newNote == old(newNote)
      ensures old(newNote) != "" && currentUser.Some? ==>
                call == Some(AddDoc(map[TextKey := Str(old(newNote)), UserIdKey := Str(currentUser.value)]))
      ensures old(newNote) != "" && currentUser.Some? && created.Some? ==>
                notes == old(notes) + [Added(old(newNote), created.value)] && newNote == ""
      ensures created.None? ==> notes == old(notes) && newNote == old(newNote)
    {
      if newNote == "" || currentUser.None? {
        return None;
      }
      call := Some(AddDoc(map[TextKey := Str(newNote), UserIdKey := Str(currentUser.value)]));
      if created.Some? {
        AddedSpec(notes, newNote, created.value);
        notes := notes + [Added(newNote, created.value)];
        newNote := "";
      }
    }

    /** Deletes the document and, once the store confirms, drops every note
        with that id from the list. */
    method DeleteNote(id: string, deleted: bool) returns (call: StoreCall)
      requires Valid()
      modifies this
      ensures Valid()
      ensures call == DeleteDoc(id)
      ensures notes == if deleted then RemoveById(old(notes), id) else old(notes)
      ensures newNote == old(newNote)
    {
      call := DeleteDoc(id);
      if deleted {
        RemoveByIdSpec(notes, id);
        notes := RemoveById(notes, id);
      }
    }

    /** Puts the matching notes into editing mode; local only. */
    method SetEditing(id: string)
      requires Valid()
      modifies this
      ensures Valid()
      ensures notes == BeginEdit(old(notes), id) && newNote == old(newNote)
    {
      BeginEditSpec(notes, id);
      notes := BeginEdit(notes, id);
    }

    /** The edit input's change handler: replaces the text of the matching
        notes; local only, nothing is persisted per keystroke. */
    method HandleEditChange(value: string, id: string)
      requires Valid()
      modifies this
      ensures Valid()
      ensures notes == EditText(old(notes), id, value) && newNote == old(newNote)
    {
      EditTextSpec(notes, id, value);
      notes := EditText(notes, id, value);
    }

    /** Persists the text of the first note with the id and, once the store
        confirms, leaves editing mode on the matching notes. Without such a
        note, reading its text throws before any store call. */
    method SubmitEdit(id: string, updated: bool) returns (call: Option<StoreCall>)
      requires Valid()
      modifies this
      ensures Valid()
      ensures FindById(old(notes), id).None? ==> call == None && notes == old(notes)
      ensures FindById(old(notes), id).Some? ==>
                call == Some(UpdateDoc(id, map[TextKey := Get(FindById(old(notes), id).value, TextKey)]))
      ensures FindById(old(notes), id).Some? ==>
                notes == if updated then FinishEdit(old(notes), id) else old(notes)
      ensures newNote == old(newNote)
    {
      var edited := FindById(notes, id);
      if edited.None? {
        return None;
      }
      call := Some(UpdateDoc(id, map[TextKey := Get(edited.value, TextKey)]));
      if updated {
        FinishEditSpec(notes, id);
        notes := FinishEdit(notes, id);
      }
    }
  }

  // -----------------------------------------------------------------------
  // What a caller can derive from the handler contracts alone.

  /** Load, begin editing a loaded note, type `value`, press Done: the store
      is asked to save `value`, and every note with that id shows `value` and
      is no longer editing, while the other loaded notes are as loaded. */
  method EditThenSubmit(userId: string, docs: seq<Doc>, id: string, value: string)
    returns (call: Option<StoreCall>, shown: seq<Record>)
    requires exists i :: 0 <= i < |docs| && docs[i].id == id
    ensures call == Some(UpdateDoc(id, map[TextKey := Str(value)]))
    ensures |shown| == |docs|
    ensures forall i :: 0 <= i < |docs| && docs[i].id == id ==>
              HasId(shown[i], id) && Get(shown[i], TextKey) == Str(value) && Get(shown[i], EditingKey) == Bool(false)
    ensures forall i :: 0 <= i < |docs| && docs[i].id != id ==> shown[i] == Loaded(docs[i])
  {
    var screen := new ShortNotes();
    var _ := screen.FetchNotes(userId, Some(docs));
    screen.SetEditing(id);
    screen.HandleEditChange(value, id);
    EditLoadedNote(docs, id, value);
    call := screen.SubmitEdit(id, true);
    shown := screen.notes;
  }

  /** Load, type a non-empty text, press Add while signed in: the store gets
      exactly `{text, userId}`, and the loaded notes are followed by exactly
      one new note with the returned id; the pending text is cleared. */
  method AddAfterLoad(userId: string, docs: seq<Doc>, text: string, docId: string)
    returns (call: Option<StoreCall>, shown: seq<Record>, pending: string)
    requires text != ""
    ensures call == Some(AddDoc(map[TextKey := Str(text), UserIdKey := Str(userId)]))
    ensures |shown| == |docs| + 1 && shown[..|docs|] == FromDocs(docs)
    ensures HasId(shown[|docs|], docId) && Get(shown[|docs|], TextKey) == Str(text)
    ensures Get(shown[|docs|], EditingKey) == Bool(false)
    ensures pending == ""
  {
    var screen := new ShortNotes();
    var _ := screen.FetchNotes(userId, Some(docs));
    FromDocsAt(docs);
    screen.SetNewNote(text);
    call := screen.AddNote(Some(userId), Some(docId));
    shown, pending := screen.notes, screen.newNote;
    AddedSpec(FromDocs(docs), text, docId);
  }

  /** Pressing Add with an empty pending text sends nothing and keeps the
      loaded list. */
  method AddEmptyAfterLoad(userId: string, docs: seq<Doc>, docId: string)
    returns (call: Option<StoreCall>, shown: seq<Record>, pending: string)
    ensures call == None
    ensures shown == FromDocs(docs) && pending == ""
    ensures |shown| == |docs|
    ensures forall i :: 0 <= i < |docs| ==> HasId(shown[i], docs[i].id)
  {
    var screen := new ShortNotes();
    var _ := screen.FetchNotes(userId, Some(docs));
    call := screen.AddNote(Some(userId), Some(docId));
    shown, pending := screen.notes, screen.newNote;
    FromDocsSpec(docs);
  }

  /** Loading the same documents again, after local edits, gives the same
      list as the first load: no duplicates and no local edits survive. */
  method ReloadDiscardsEdits(userId: string, docs: seq<Doc>, id: string, value: string)
    returns (first: seq<Record>, second: seq<Record>)
    ensures first == second
    ensures |second| == |docs|
    ensures forall i :: 0 <= i < |docs| ==> Get(second[i], EditingKey) == Bool(false)
  {
    var screen := new ShortNotes();
    var _ := screen.FetchNotes(userId, Some(docs));
    first := screen.notes;
    screen.SetEditing(id);
    screen.HandleEditChange(value, id);
    var _ := screen.FetchNotes(userId, Some(docs));
    second := screen.notes;
    FromDocsSpec(docs);
  }
}
