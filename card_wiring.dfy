/** Which handler each button of a note card invokes (pages/notes.js,
    lines 139-150), as written and as evidently intended. The Delete button
    is wired to `setEditing` instead of `deleteNote`. */
module CardWiring {
  import opened NoteList

  datatype CardButton = EditButton | DoneButton | DeleteButton

  /** The card handlers `setEditing`, `submitEdit` and `deleteNote`; each is
      called with the card's note id. */
  datatype Handler = CallSetEditing | CallSubmitEdit | CallDeleteNote

  /** JavaScript truthiness of a value (no NaN among these values). */
  predicate Truthy(v: Value) {
    match v
    case Undefined => false
    case Null => false
    case Bool(b) => b
    case Num(n) => n != 0
    case Str(s) => s != ""
  }

  /** The buttons a card shows: Done while the note is editing, Edit
      otherwise, and Delete always. */
  function Buttons(note: Record): seq<CardButton> {
    if Truthy(Get(note, EditingKey)) then [DoneButton, DeleteButton] else [EditButton, DeleteButton]
  }

  /** The handler each button calls, as the page is written. */
  function WiredHandler(b: CardButton): Handler {
    match b
    case EditButton => CallSetEditing
    case DoneButton => CallSubmitEdit
    case DeleteButton => CallSetEditing
  }

  /** The handler each button is evidently meant to call. */
  function IntendedHandler(b: CardButton): Handler {
    match b
    case EditButton => CallSetEditing
    case DoneButton => CallSubmitEdit
    case DeleteButton => CallDeleteNote
  }

  /** The note list a card handler leaves when its store call succeeds: the
      success branch of the `notes` clause in the ensures of the matching
      `Screen.ShortNotes` method. */
  function LocalEffect(h: Handler, notes: seq<Record>, id: string): seq<Record> {
    match h
    case CallSetEditing => BeginEdit(notes, id)
    case CallSubmitEdit => FinishEdit(notes, id)
    case CallDeleteNote => RemoveById(notes, id)
  }

  /** As written: pressing Delete on the card of note `k` keeps that note in
      place (now editing) and the list at its length. */
  lemma DeleteButtonKeepsNote(notes: seq<Record>, k: nat, id: string)
    requires k < |notes| && HasId(notes[k], id)
    ensures DeleteButton in Buttons(notes[k])
    ensures var r := LocalEffect(WiredHandler(DeleteButton), notes, id);
      && |r| == |notes| && HasId(r[k], id) && Get(r[k], EditingKey) == Bool(true)
  {
    BeginEditSpec(notes, id);
    SetWhereAt(notes, id, EditingKey, Bool(true));
  }

  /** As intended: pressing Delete on the card of note `k` removes every note
      with that id, keeps the others, and shortens the list. */
  lemma DeleteButtonRemovesNote(notes: seq<Record>, k: nat, id: string)
    requires k < |notes| && HasId(notes[k], id)
    ensures DeleteButton in Buttons(notes[k])
    ensures var r := LocalEffect(IntendedHandler(DeleteButton), notes, id);
      && |r| < |notes| && Str(id) !in Ids(r)
      && forall n :: n in notes && !HasId(n, id) ==> n in r
  {
    RemoveByIdSpec(notes, id);
  }
}
