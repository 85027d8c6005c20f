# Short Notes: the note-list state machine

This project models the `ShortNotes` screen of a small note-taking web
application (pages/notes.js). The screen holds two pieces of state:

- `notes`: the list of notes shown as cards;
- `newNote`: the pending text of the new-note input.

Each handler overwrites that state:

- load (`fetchNotes`) replaces the whole list with one note per document;
- add (`addNote`) is guarded and then appends one note;
- delete (`deleteNote`) filters the list by id;
- begin edit (`setEditing`), edit text (`handleEditChange`) and finish edit
  (`submitEdit`) map over the list by id.

A note is a plain JavaScript object. It is modelled as the map from its own
property names to their values (`NoteList.Record`). This makes the object
spreads exact: `{...doc.data(), id, isEditing: false}` and
`{...note, text: value}` are map updates. A later property overrides a data
field of the same name. Reading a property the object does not have gives
`Undefined`.

Layout:

- `wrappers.dfy`: the `Option` datatype.
- `note_list.dfy` (module `NoteList`): the pure list transformations that
  the `map`, `filter` and `find` callbacks compute, with their lemmas.
- `short_notes.dfy` (module `Screen`): the class `ShortNotes` with the two
  state fields and one method per handler. Each method's `ensures` ties the
  new state to a `NoteList` function of the old state. It also holds client
  methods that combine handlers and derive end-to-end properties from the
  method contracts alone.
- `card_wiring.dfy` (module `CardWiring`): which handler each card button
  calls, as written and as intended (see Findings).

The document store and the auth library are inputs and outputs. What a
handler asks of the store comes out as a `Screen.StoreCall` value: the query
by user id, the created fields, the update or the delete. The store's answer
goes in as a parameter: the query result, the new document id, or whether the
update or delete succeeded. A rejected call makes the awaiting handler throw,
so nothing after it happens. The signed-in user (`auth.currentUser`) is a
parameter too.

Three behaviours of the code are worth noting:

- When `updateDoc` rejects, `submitEdit` throws before its `setNotes`. The
  note therefore stays in editing mode; it is not cleared.
- `deleteNote` removes every note with the id, not just one.
- A note added locally carries `text`, `id` and `isEditing` but no `userId`,
  unlike a loaded note. `NoteList.AddedSpec` states this.

## Model

| member | source | states |
|---|---|---|
| `NoteList.FromDocsSpec` | pages/notes.js:39-45 | Loading gives one note per document, in query order. Each note has the document's id and `isEditing == false`, overriding data fields of those names, and keeps every other data field. The result is well formed. |
| `NoteList.AddedSpec` | pages/notes.js:61 | Appending the added note keeps the prior notes unchanged and in order. It adds exactly one note at the end, whose only properties are `text`, `id` and `isEditing`: the given text and id, not editing, and no `userId`. The ids become the old ids plus the new one. Well-formedness is kept. |
| `NoteList.RemoveByIdSpec` | pages/notes.js:67 | A note survives the filter if and only if its id differs from the argument. No note with that id remains. The list gets shorter if and only if some note had the id. Deleting twice equals deleting once. Well-formedness is kept. |
| `NoteList.RemoveByIdKeepsOther` | pages/notes.js:67 | A note whose id differs stays in place: it comes after the survivors of the notes before it and before the survivors of the notes after it. |
| `NoteList.RemoveByIdConcat` | pages/notes.js:67 | The filter distributes over concatenation, so the relative order of the kept notes is preserved. |
| `NoteList.RemoveByIdAbsent` | pages/notes.js:67 | Deleting an id that no note has leaves the list unchanged. |
| `NoteList.SetWhereSpec` | pages/notes.js:72-78 | Setting any property except `id` on the notes with a given id keeps the length and the sequence of ids. Matching notes get the new value and keep every other property. Other notes are unchanged. A second application changes nothing. |
| `NoteList.BeginEditSpec` | pages/notes.js:70-79 | `setEditing` marks the matching notes as editing and changes nothing else. Length, ids, order and every text are kept. It is idempotent. |
| `NoteList.EditTextSpec` | pages/notes.js:81-90 | `handleEditChange` replaces the text of the matching notes only. Their id, editing flag and other properties are unchanged, and so is every other note. |
| `NoteList.FinishEditSpec` | pages/notes.js:96-103 | The local update of `submitEdit` clears the editing flag of the matching notes. Texts, ids, length and every other note are unchanged. |
| `NoteList.EditRoundTrip` | pages/notes.js:70-103 | Begin edit, then type a value, then finish: matching notes show the value and are not editing, with every other property unchanged. Other notes, the length and the ids are unchanged. |
| `NoteList.FindByIdSpec` | pages/notes.js:93 | `find` returns nothing if and only if no note has the id. Otherwise it returns the first note that has it. |
| `NoteList.FindAfterSetWhere` | pages/notes.js:93 | After the matching notes are edited, `find` returns the same first match, with the edited property. |
| `Screen.ShortNotes.constructor` | pages/notes.js:11-12 | The screen starts with no notes and an empty pending text. |
| `Screen.ShortNotes.OnAuthStateChanged` | pages/notes.js:15-25 | With no user: navigate to the login route and leave state alone. With a user: query that user's notes and load the result. |
| `Screen.ShortNotes.FetchNotes` | pages/notes.js:36-47 | Issues the query for the user id. If it resolves, the whole list becomes `FromDocs` of the result, whatever the list held before. If it rejects, the list is unchanged. `newNote` is unchanged either way. |
| `Screen.ShortNotes.SetNewNote` | pages/notes.js:119 | The new-note input sets the pending text and nothing else. |
| `Screen.ShortNotes.AddNote` | pages/notes.js:49-63 | With empty pending text or no user: no store call, and `notes` and `newNote` are unchanged. Otherwise it creates exactly `{text, userId}`. On success it appends the added note with the returned id and clears `newNote`. If creation rejects, nothing changes. |
| `Screen.ShortNotes.DeleteNote` | pages/notes.js:65-68 | Deletes the document by id. Once confirmed, the list becomes the filtered list. On rejection it is unchanged. |
| `Screen.ShortNotes.SetEditing` | pages/notes.js:70-79 | The list becomes `BeginEdit` of the old list. No store call is made and the pending text is kept. |
| `Screen.ShortNotes.HandleEditChange` | pages/notes.js:81-90 | The list becomes `EditText` of the old list. Nothing is persisted and the pending text is kept. |
| `Screen.ShortNotes.SubmitEdit` | pages/notes.js:92-104 | With no note of that id: no store call and no change, because reading the text throws. Otherwise it stores the text of the first matching note. Once the store confirms, the list becomes `FinishEdit` of the old list. On rejection it is unchanged. |
| `Screen.EditThenSubmit` | pages/notes.js:70-104 | Load, begin edit, type a value, press Done. The store is asked to save exactly that value. The edited notes show it and are not editing. The other notes are as loaded. |
| `Screen.AddAfterLoad` | pages/notes.js:49-63 | Load, type a non-empty text, press Add while signed in. The store gets exactly `{text, userId}`. The loaded notes are followed by exactly one new note with the returned id and the text. The pending text is cleared. |
| `Screen.AddEmptyAfterLoad` | pages/notes.js:50-52 | Pressing Add with an empty pending text sends nothing, keeps the loaded list exactly and leaves the pending text empty. |
| `Screen.ReloadDiscardsEdits` | pages/notes.js:39-45 | Loading the same result again, after local edits, gives the same list as the first load. There are no duplicates, and no edit survives. |
| `CardWiring.DeleteButtonKeepsNote` | pages/notes.js:148-150 | As written, every card shows a Delete button. Pressing it keeps the note in place and puts it into editing mode. The list keeps its length. |
| `CardWiring.DeleteButtonRemovesNote` | pages/notes.js:148-150 | With Delete wired to `deleteNote`, pressing it removes every note with that id and keeps all other notes. The list gets shorter. |

## Left out

- `handleLogout` (pages/notes.js:27-34) only calls the auth library and navigates, so it is not modelled.
- pages/login.js, pages/signup.js, components/withAuth.js and pages/index.js are navigation and auth-subscription glue, so they are not modelled.
- The store and auth calls themselves (`query`, `where`, `getDocs`, `addDoc`, `updateDoc`, `deleteDoc`, `onAuthStateChanged`) are not modelled. Their results are parameters, and the requests are returned as `StoreCall` values.
- `FetchNotes` does not check that the query result holds only the user's documents, because that filter is applied by the store.
- Unsubscribing the auth listener on unmount is not modelled, because it is component lifecycle with no effect on the note state.
- Async interleaving between handlers is not modelled. Each handler runs to completion against the state it started from. This leaves out concurrency and the stale `notes` captured by an earlier render.
- JSX rendering, CSS classes and `console.log`/`console.error` output are not modelled. The card buttons are kept only in `CardWiring`.
- Store field values other than strings, integers, booleans and `null` (non-integer numbers such as 1.5, `NaN` or `Infinity`, timestamps, arrays, nested maps) are not modelled. Such fields are only carried through, so they would not change any property above.
- `Screen.ShortNotes.SubmitEdit`: when the note has no `text`, the model sends `{text: undefined}` as written. Whether the store then rejects it is part of the `updated` parameter.

## Findings

| source | as written | input that shows it | evidently intended | confidence | as-written member | corrected member |
|---|---|---|---|---|---|---|
| pages/notes.js:148 | The Delete button's click handler calls `setEditing(note.id)`. | Any list holding a note with id `"a"`: pressing that card's Delete button keeps the note and switches it to editing mode. | Call `deleteNote(note.id)`, which removes the note. | high; not executed | `CardWiring.DeleteButtonKeepsNote` | `CardWiring.DeleteButtonRemovesNote` |
