/** The note list of the Short Notes screen and the pure list transformations
    its handlers apply: the `map`, `filter` and `find` callbacks of
    pages/notes.js, with the object spreads they build.

    A note is a plain JavaScript object, modelled as the map from its own
    property names to their values: `{...o, k: v}` is `o[k := v]` and reading
    a property the object does not have gives `Undefined`. */
module NoteList {
  import opened Wrappers

  /** The JavaScript values a note property can hold (numbers only as
      integers). */
  datatype Value = Undefined | Null | Bool(b: bool) | Num(n: int) | Str(s: string)

  /** A plain object: its own properties by name. */
  type Record = map<string, Value>

  /** One document of a query result: the id the store assigned and the
      fields that `doc.data()` returns. */
  datatype Doc = Doc(id: string, data: Record)

  const IdKey: string := "id"
  const TextKey: string := "text"
  const EditingKey: string := "isEditing"
  const UserIdKey: string := "userId"

  /** `o[key]`: the property, or `undefined` when `o` does not have it. */
  function Get(o: Record, key: string): Value {
    if key in o then o[key] else Undefined
  }

  /** `note.id === id` for a string `id`. */
  predicate HasId(note: Record, id: string) {
    Get(note, IdKey) == Str(id)
  }

  /** The ids of the notes, in list order. */
  function Ids(notes: seq<Record>): seq<Value> {
    seq(|notes|, i requires 0 <= i < |notes| => Get(notes[i], IdKey))
  }

  /** The shape every note in local state has: a string id and a boolean
      editing flag. */
  ghost predicate IsNote(note: Record) {
    Get(note, IdKey).Str? && Get(note, EditingKey).Bool?
  }

  ghost predicate WellFormed(notes: seq<Record>) {
    forall n | n in notes :: IsNote(n)
  }

  // ---------------------------------------------------------------------
  // Load: `querySnapshot.docs.map((doc) => ({...doc.data(), id: doc.id, isEditing: false}))`

  /** The note built from one loaded document: its data, then `id` and
      `isEditing`, which override data fields of the same name. */
  function Loaded(d: Doc): Record {
    d.data[IdKey := Str(d.id)][EditingKey := Bool(false)]
  }

  function FromDocs(docs: seq<Doc>): seq<Record> {
    if docs == [] then [] else [Loaded(docs[0])] + FromDocs(docs[1..])
  }

  lemma {:induction false} FromDocsAt(docs: seq<Doc>)
    ensures |FromDocs(docs)| == |docs|
    ensures forall i :: 0 <= i < |docs| ==> FromDocs(docs)[i] == Loaded(docs[i])
  {
    if docs != [] {
      FromDocsAt(docs[1..]);
    }
  }

  /** Loading gives one note per document, in query order, each carrying the
      document's id, not editing, and every other field of the document. */
  lemma {:induction false} FromDocsSpec(docs: seq<Doc>)
    ensures |FromDocs(docs)| == |docs|
    ensures forall i :: 0 <= i < |docs| ==> HasId(FromDocs(docs)[i], docs[i].id)
    ensures forall i :: 0 <= i < |docs| ==> Get(FromDocs(docs)[i], EditingKey) == Bool(false)
    ensures forall i, k :: 0 <= i < |docs| && k != IdKey && k != EditingKey ==>
              Get(FromDocs(docs)[i], k) == Get(docs[i].data, k)
    ensures WellFormed(FromDocs(docs))
  {
    FromDocsAt(docs);
  }

  // ---------------------------------------------------------------------
  // Add: `{ text: newNote, id: docRef.id, isEditing: false }`

  /** The note appended after a document is created. It carries no `userId`,
      unlike a loaded note. */
  function Added(text: string, id: string): Record {
    map[TextKey := Str(text), IdKey := Str(id), EditingKey := Bool(false)]
  }

  /** The added note has exactly the three fields the handler writes. */
  lemma AddedSpec(notes: seq<Record>, text: string, id: string)
    requires WellFormed(notes)
    ensures Added(text, id).Keys == {TextKey, IdKey, EditingKey}
    ensures var r := notes + [Added(text, id)];
      && |r| == |notes| + 1 && r[..|notes|] == notes
      && HasId(r[|notes|], id) && Get(r[|notes|], TextKey) == Str(text)
      && Get(r[|notes|], EditingKey) == Bool(false) && Get(r[|notes|], UserIdKey) == Undefined
      && Ids(r) == Ids(notes) + [Str(id)]
      && WellFormed(r)
  {
    var r := notes + [Added(text, id)];
    assert r[..|notes|] == notes;
  }

  // ---------------------------------------------------------------------
  // Delete: `notes.filter((note) => note.id !== id)`

  function RemoveById(notes: seq<Record>, id: string): seq<Record> {
    if notes == [] then []
    else (if HasId(notes[0], id) then [] else [notes[0]]) + RemoveById(notes[1..], id)
  }

  /** A note survives the filter exactly when its id differs. */
  lemma {:induction false} RemoveByIdMembers(notes: seq<Record>, id: string)
    ensures forall n :: n in RemoveById(notes, id) <==> n in notes && !HasId(n, id)
  {
    if notes != [] {
      RemoveByIdMembers(notes[1..], id);
      assert notes == [notes[0]] + notes[1..];
    }
  }

  /** The filter works piecewise, so it keeps the survivors in their order. */
  lemma {:induction false} RemoveByIdConcat(a: seq<Record>, b: seq<Record>, id: string)
    ensures RemoveById(a + b, id) == RemoveById(a, id) + RemoveById(b, id)
  {
    if a == [] {
      assert a + b == b;
    } else {
      RemoveByIdConcat(a[1..], b, id);
      assert (a + b)[1..] == a[1..] + b;
    }
  }

  /** When no note has the id, the list is unchanged. */
  lemma {:induction false} RemoveByIdAbsent(notes: seq<Record>, id: string)
    requires forall i :: 0 <= i < |notes| ==> !HasId(notes[i], id)
    ensures RemoveById(notes, id) == notes
  {
    if notes != [] {
      RemoveByIdAbsent(notes[1..], id);
    }
  }

  /** Deleting removes every note with the id and keeps every other note; the
      list gets shorter exactly when some note has the id; deleting twice is
      deleting once. */
  lemma RemoveByIdSpec(notes: seq<Record>, id: string)
    ensures forall n :: n in RemoveById(notes, id) <==> n in notes && !HasId(n, id)
    ensures Str(id) !in Ids(RemoveById(notes, id))
    ensures |RemoveById(notes, id)| <= |notes|
    ensures |RemoveById(notes, id)| == |notes| <==> forall i :: 0 <= i < |notes| ==> !HasId(notes[i], id)
    ensures RemoveById(RemoveById(notes, id), id) == RemoveById(notes, id)
    ensures WellFormed(notes) ==> WellFormed(RemoveById(notes, id))
  {
    var r := RemoveById(notes, id);
    RemoveByIdMembers(notes, id);
    forall i | 0 <= i < |r| ensures Ids(r)[i] != Str(id) {
      assert r[i] in r;
    }
    RemoveByIdLength(notes, id);
    RemoveByIdAbsent(r, id);
  }

  /** A note whose id differs stays, between the survivors that came before it
      and the survivors that came after it. */
  lemma RemoveByIdKeepsOther(a: seq<Record>, n: Record, b: seq<Record>, id: string)
    requires !HasId(n, id)
    ensures RemoveById(a + [n] + b, id) == RemoveById(a, id) + [n] + RemoveById(b, id)
  {
    RemoveByIdConcat(a + [n], b, id);
    RemoveByIdConcat(a, [n], id);
  }

  /** The filter shortens the list exactly when some note has the id. */
  lemma {:induction false} RemoveByIdLength(notes: seq<Record>, id: string)
    ensures |RemoveById(notes, id)| <= |notes|
    ensures |RemoveById(notes, id)| == |notes| <==> forall i :: 0 <= i < |notes| ==> !HasId(notes[i], id)
  {
    if notes != [] {
      RemoveByIdLength(notes[1..], id);
      if forall i :: 0 <= i < |notes[1..]| ==> !HasId(notes[1..][i], id) {
        if !HasId(notes[0], id) {
          forall i | 0 <= i < |notes| ensures !HasId(notes[i], id) {
            if i > 0 {
              assert notes[i] == notes[1..][i - 1];
            }
          }
        }
      } else {
        var i :| 0 <= i < |notes[1..]| && HasId(notes[1..][i], id);
        assert HasId(notes[i + 1], id);
      }
    }
  }

  // ---------------------------------------------------------------------
  // The three edit handlers: `notes.map((note) => note.id === id ? {...note, key: v} : note)`

  /** The callback of the map: spreads `note` with one property replaced when
      its id matches, and returns it unchanged otherwise. */
  function Patch(note: Record, id: string, key: string, v: Value): Record {
    if HasId(note, id) then note[key := v] else note
  }

  function SetWhere(notes: seq<Record>, id: string, key: string, v: Value): seq<Record> {
    if notes == [] then [] else [Patch(notes[0], id, key, v)] + SetWhere(notes[1..], id, key, v)
  }

  lemma {:induction false} SetWhereAt(notes: seq<Record>, id: string, key: string, v: Value)
    ensures |SetWhere(notes, id, key, v)| == |notes|
    ensures forall i :: 0 <= i < |notes| ==> SetWhere(notes, id, key, v)[i] == Patch(notes[i], id, key, v)
  {
    if notes != [] {
      SetWhereAt(notes[1..], id, key, v);
    }
  }

  /** Setting any property but `id` on the matching notes: the list keeps its
      length and its ids in order, matching notes get `v` for `key` and keep
      every other property, other notes are untouched, and a second
      application changes nothing. */
  lemma SetWhereSpec(notes: seq<Record>, id: string, key: string, v: Value)
    requires key != IdKey
    ensures var r := SetWhere(notes, id, key, v);
      && |r| == |notes|
      && Ids(r) == Ids(notes)
      && (forall i :: 0 <= i < |notes| && !HasId(notes[i], id) ==> r[i] == notes[i])
      && (forall i :: 0 <= i < |notes| && HasId(notes[i], id) ==>
            Get(r[i], key) == v && r[i] - {key} == notes[i] - {key})
      && SetWhere(r, id, key, v) == r
      && (WellFormed(notes) && (key == EditingKey ==> v.Bool?) ==> WellFormed(r))
  {
    var r := SetWhere(notes, id, key, v);
    SetWhereAt(notes, id, key, v);
    SetWhereAt(r, id, key, v);
    assert Ids(r) == Ids(notes) by {
      forall i | 0 <= i < |notes| ensures Ids(r)[i] == Ids(notes)[i] {
        assert Get(r[i], IdKey) == Get(notes[i], IdKey);
      }
    }
    forall i | 0 <= i < |notes| && HasId(notes[i], id)
      ensures r[i] - {key} == notes[i] - {key}
    {
      assert r[i] == notes[i][key := v];
    }
    assert SetWhere(r, id, key, v) == r by {
      forall i | 0 <= i < |r| ensures Patch(r[i], id, key, v) == r[i] {
        assert HasId(r[i], id) == HasId(notes[i], id);
      }
    }
    if WellFormed(notes) && (key == EditingKey ==> v.Bool?) {
      forall n | n in r ensures IsNote(n) {
        var i :| 0 <= i < |r| && r[i] == n;
        assert notes[i] in notes;
      }
    }
  }

  /** `setEditing(id)`: `{...note, isEditing: true}` on the matching notes. */
  function BeginEdit(notes: seq<Record>, id: string): seq<Record> {
    SetWhere(notes, id, EditingKey, Bool(true))
  }

  /** `handleEditChange(e, id)`: `{...note, text: e.target.value}` on the matching notes. */
  function EditText(notes: seq<Record>, id: string, value: string): seq<Record> {
    SetWhere(notes, id, TextKey, Str(value))
  }

  /** The local part of `submitEdit(id)`: `{...note, isEditing: false}` on the matching notes. */
  function FinishEdit(notes: seq<Record>, id: string): seq<Record> {
    SetWhere(notes, id, EditingKey, Bool(false))
  }

  /** Beginning an edit marks the matching notes as editing and changes nothing
      else: length, ids, order and every text stay, and it is idempotent. */
  lemma BeginEditSpec(notes: seq<Record>, id: string)
    ensures var r := BeginEdit(notes, id);
      && |r| == |notes| && Ids(r) == Ids(notes)
      && (forall i :: 0 <= i < |notes| ==> Get(r[i], TextKey) == Get(notes[i], TextKey))
      && (forall i :: 0 <= i < |notes| && HasId(notes[i], id) ==>
            Get(r[i], EditingKey) == Bool(true) && r[i] - {EditingKey} == notes[i] - {EditingKey})
      && (forall i :: 0 <= i < |notes| && !HasId(notes[i], id) ==> r[i] == notes[i])
      && BeginEdit(r, id) == r
      && (WellFormed(notes) ==> WellFormed(r))
  {
    var r := BeginEdit(notes, id);
    SetWhereSpec(notes, id, EditingKey, Bool(true));
    forall i | 0 <= i < |notes| ensures Get(r[i], TextKey) == Get(notes[i], TextKey) {
      OtherKeyKept(notes[i], r[i], EditingKey, TextKey);
    }
  }

  /** Editing the text replaces the text of the matching notes only; their id
      and editing flag and every other note stay as they were. */
  lemma EditTextSpec(notes: seq<Record>, id: string, value: string)
    ensures var r := EditText(notes, id, value);
      && |r| == |notes| && Ids(r) == Ids(notes)
      && (forall i :: 0 <= i < |notes| ==> Get(r[i], EditingKey) == Get(notes[i], EditingKey))
      && (forall i :: 0 <= i < |notes| && HasId(notes[i], id) ==>
            Get(r[i], TextKey) == Str(value) && r[i] - {TextKey} == notes[i] - {TextKey})
      && (forall i :: 0 <= i < |notes| && !HasId(notes[i], id) ==> r[i] == notes[i])
      && (WellFormed(notes) ==> WellFormed(r))
  {
    var r := EditText(notes, id, value);
    SetWhereSpec(notes, id, TextKey, Str(value));
    forall i | 0 <= i < |notes| ensures Get(r[i], EditingKey) == Get(notes[i], EditingKey) {
      OtherKeyKept(notes[i], r[i], TextKey, EditingKey);
    }
  }

  /** Finishing an edit clears the editing flag of the matching notes and
      changes nothing else: length, ids, order and every text stay. */
  lemma FinishEditSpec(notes: seq<Record>, id: string)
    ensures var r := FinishEdit(notes, id);
      && |r| == |notes| && Ids(r) == Ids(notes)
      && (forall i :: 0 <= i < |notes| ==> Get(r[i], TextKey) == Get(notes[i], TextKey))
      && (forall i :: 0 <= i < |notes| && HasId(notes[i], id) ==>
            Get(r[i], EditingKey) == Bool(false) && r[i] - {EditingKey} == notes[i] - {EditingKey})
      && (forall i :: 0 <= i < |notes| && !HasId(notes[i], id) ==> r[i] == notes[i])
      && (WellFormed(notes) ==> WellFormed(r))
  {
    var r := FinishEdit(notes, id);
    SetWhereSpec(notes, id, EditingKey, Bool(false));
    forall i | 0 <= i < |notes| ensures Get(r[i], TextKey) == Get(notes[i], TextKey) {
      OtherKeyKept(notes[i], r[i], EditingKey, TextKey);
    }
  }

  /** Two objects that agree outside `changed` agree on any other property. */
  lemma OtherKeyKept(before: Record, after: Record, changed: string, other: string)
    requires other != changed
    requires after - {changed} == before - {changed}
    ensures Get(after, other) == Get(before, other)
  {
    assert (other in after) == (other in after - {changed});
    assert (other in before) == (other in before - {changed});
    if other in after {
      assert after[other] == (after - {changed})[other];
      assert before[other] == (before - {changed})[other];
    }
  }

  /** Begin edit, type `value`, finish: the matching notes end up showing
      `value` and not editing, with every other property as before; the other
      notes, the length and the ids are unchanged. */
  lemma EditRoundTrip(notes: seq<Record>, id: string, value: string)
    ensures var r := FinishEdit(EditText(BeginEdit(notes, id), id, value), id);
      && |r| == |notes| && Ids(r) == Ids(notes)
      && (forall i :: 0 <= i < |notes| && HasId(notes[i], id) ==>
            && Get(r[i], TextKey) == Str(value) && Get(r[i], EditingKey) == Bool(false)
            && r[i] - {TextKey, EditingKey} == notes[i] - {TextKey, EditingKey})
      && (forall i :: 0 <= i < |notes| && !HasId(notes[i], id) ==> r[i] == notes[i])
  {
    var b := BeginEdit(notes, id);
    var e := EditText(b, id, value);
    var r := FinishEdit(e, id);
    SetWhereAt(notes, id, EditingKey, Bool(true));
    SetWhereAt(b, id, TextKey, Str(value));
    SetWhereAt(e, id, EditingKey, Bool(false));
    forall i | 0 <= i < |notes|
      ensures r[i] == if HasId(notes[i], id)
                      then notes[i][EditingKey := Bool(true)][TextKey := Str(value)][EditingKey := Bool(false)]
                      else notes[i]
    {
      assert HasId(b[i], id) == HasId(notes[i], id);
      assert HasId(e[i], id) == HasId(notes[i], id);
    }
    assert Ids(r) == Ids(notes) by {
      forall i | 0 <= i < |notes| ensures Ids(r)[i] == Ids(notes)[i] {
        assert Get(r[i], IdKey) == Get(notes[i], IdKey);
      }
    }
    forall i | 0 <= i < |notes| && HasId(notes[i], id)
      ensures r[i] - {TextKey, EditingKey} == notes[i] - {TextKey, EditingKey}
    {
      var n := notes[i];
      assert r[i] == n[EditingKey := Bool(true)][TextKey := Str(value)][EditingKey := Bool(false)];
    }
  }

  // ---------------------------------------------------------------------
  // Submit: `notes.find((note) => note.id === id)`

  function FindById(notes: seq<Record>, id: string): Option<Record> {
    if notes == [] then None
    else if HasId(notes[0], id) then Some(notes[0])
    else FindById(notes[1..], id)
  }

  /** `find` gives nothing exactly when no note has the id, and otherwise the
      first note that has it. */
  lemma {:induction false} FindByIdSpec(notes: seq<Record>, id: string)
    ensures FindById(notes, id).None? <==> forall i :: 0 <= i < |notes| ==> !HasId(notes[i], id)
    ensures FindById(notes, id).Some? ==>
              exists k :: 0 <= k < |notes| && FindById(notes, id).value == notes[k] && HasId(notes[k], id)
                          && forall j :: 0 <= j < k ==> !HasId(notes[j], id)
  {
    if notes != [] && !HasId(notes[0], id) {
      FindByIdSpec(notes[1..], id);
      if FindById(notes, id).Some? {
        var k :| 0 <= k < |notes[1..]| && FindById(notes, id).value == notes[1..][k] && HasId(notes[1..][k], id)
                 && forall j :: 0 <= j < k ==> !HasId(notes[1..][j], id);
        assert notes[k + 1] == notes[1..][k];
        forall j | 0 <= j < k + 1 ensures !HasId(notes[j], id) {
          if j > 0 {
            assert notes[j] == notes[1..][j - 1];
          }
        }
      } else {
        forall i | 0 <= i < |notes| ensures !HasId(notes[i], id) {
          if i > 0 {
            assert notes[i] == notes[1..][i - 1];
          }
        }
      }
    }
  }

  /** Setting a property other than `id` on the matching notes leaves `find`
      pointing at the same note, with that property set. */
  lemma {:induction false} FindAfterSetWhere(notes: seq<Record>, id: string, key: string, v: Value)
    requires key != IdKey
    ensures FindById(SetWhere(notes, id, key, v), id) ==
              match FindById(notes, id)
              case None => None
              case Some(n) => Some(n[key := v])
  {
    if notes != [] {
      FindAfterSetWhere(notes[1..], id, key, v);
    }
  }

  /** Editing a loaded note: after begin edit and typing `value`, `find`
      returns a note showing `value`; after finishing, every note with the id
      shows `value` and is not editing, and the other notes are as loaded. */
  lemma EditLoadedNote(docs: seq<Doc>, id: string, value: string)
    requires exists i :: 0 <= i < |docs| && docs[i].id == id
    ensures var typed := EditText(BeginEdit(FromDocs(docs), id), id, value);
      && FindById(typed, id).Some? && Get(FindById(typed, id).value, TextKey) == Str(value)
    ensures var r := FinishEdit(EditText(BeginEdit(FromDocs(docs), id), id, value), id);
      && |r| == |docs|
      && (forall i :: 0 <= i < |docs| && docs[i].id == id ==>
            HasId(r[i], id) && Get(r[i], TextKey) == Str(value) && Get(r[i], EditingKey) == Bool(false))
      && (forall i :: 0 <= i < |docs| && docs[i].id != id ==> r[i] == Loaded(docs[i]))
  {
    var loaded := FromDocs(docs);
    FromDocsAt(docs);
    var i :| 0 <= i < |docs| && docs[i].id == id;
    assert HasId(loaded[i], id);
    FindByIdSpec(loaded, id);
    FindAfterSetWhere(loaded, id, EditingKey, Bool(true));
    FindAfterSetWhere(BeginEdit(loaded, id), id, TextKey, Str(value));
    var r := FinishEdit(EditText(BeginEdit(loaded, id), id, value), id);
    EditRoundTrip(loaded, id, value);
    forall j | 0 <= j < |docs| && docs[j].id != id ensures r[j] == Loaded(docs[j]) {
      assert !HasId(loaded[j], id);
    }
    forall j | 0 <= j < |docs| && docs[j].id == id ensures HasId(r[j], id) {
      assert Ids(r)[j] == Ids(loaded)[j];
    }
  }
}
