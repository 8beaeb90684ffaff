/** The notebook/note store: every operation reads the whole stored document,
    changes it in memory and writes the whole document back. The key-value
    storage is an `Option<Document>` (absent before the first write). */
module Store {
  import opened Wrappers
  import opened Notes
  import opened Utils
  import opened ArrayOps

  /** Why an operation throws: there is no stored document to read (every
      operation then fails on `.notebooks`), or a notebook or note lookup
      came back undefined. */
  datatype Error = NoDocument | NotFound

  /** What an operation leaves in storage and what it returns or throws. */
  datatype Step<T> = Step(stored: Option<Document>, out: Result<T, Error>)

  /** Storage after application start-up, and the in-memory document. */
  datatype Boot = Boot(stored: Option<Document>, memory: Document)

  /** `readDB`: the stored document, parsed (parsing is taken to be exact). */
  function ReadDB(stored: Option<Document>): Result<Document, Error> {
    match stored
    case Some(d) => Success(d)
    case None => Failure(NoDocument)
  }

  /** `writeDB`: the storage after writing `d`. */
  function WriteDB(d: Document): Option<Document> {
    Some(d)
  }

  /** `initDB`: load the stored document, or store and use an empty one. */
  function InitDB(stored: Option<Document>): (r: Boot)
    ensures ReadDB(r.stored) == Success(r.memory)
    ensures stored.Some? ==> r.stored == stored
    ensures stored.None? ==> r.memory == EmptyDocument
  {
    match stored
    case Some(d) => Boot(stored, d)
    case None => Boot(WriteDB(EmptyDocument), EmptyDocument)
  }

  /** `db.post.notebook(name)`: append a new empty notebook. */
  function PostNotebook(stored: Option<Document>, name: string, clock: nat): (r: Step<Notebook>)
    ensures r.out.Failure? <==> stored.None?
    ensures r.out.Failure? ==> r.stored == stored
    ensures r.out.Success? ==>
      var before := stored.value.notebooks;
      var nb := r.out.value;
      && nb == Notebook(GenerateId(clock), name, [])
      && r.stored.Some?
      && var after := r.stored.value.notebooks;
      && |after| == |before| + 1
      && after[..|before|] == before
      && after[|before|] == nb
  {
    match ReadDB(stored)
    case Failure(e) => Step(stored, Failure(e))
    case Success(d) =>
      var nb := Notebook(GenerateId(clock), name, []);
      Step(WriteDB(d.(notebooks := d.notebooks + [nb])), Success(nb))
  }

  /** `db.post.note(notebookId, payload)`: put a new note first in the
      notebook. `idClock` is the clock reading `generateID` takes, `now` the
      one stamped into `postedOn`. */
  function PostNote(stored: Option<Document>, notebookId: Id, payload: Patch, idClock: nat, now: int)
    : (r: Step<Note>)
    ensures r.out.Failure? <==> stored.None? || FindNotebook(stored.value.notebooks, notebookId).None?
    ensures r.out.Failure? ==> r.stored == stored
    ensures r.out.Success? ==>
      var before := stored.value.notebooks;
      var i := FindNotebookIndex(before, notebookId);
      var note := r.out.value;
      && note == Note(GenerateId(idClock), notebookId, payload.title, payload.text, now)
      && 0 <= i
      && r.stored == Some(Document(before[i := before[i].(notes := [note] + before[i].notes)]))
  {
    match ReadDB(stored)
    case Failure(e) => Step(stored, Failure(e))
    case Success(d) =>
      var i := FindNotebookIndex(d.notebooks, notebookId);
      if i < 0 then Step(stored, Failure(NotFound))
      else
        var nb := d.notebooks[i];
        var note := Note(GenerateId(idClock), notebookId, payload.title, payload.text, now);
        var nbs := d.notebooks[i := nb.(notes := [note] + nb.notes)];
        Step(WriteDB(Document(nbs)), Success(note))
  }

  /** `db.get.notebook()`: all notebooks, in stored order. */
  function GetNotebooks(stored: Option<Document>): (r: Step<seq<Notebook>>)
    ensures r.stored == stored
    ensures r.out.Failure? <==> stored.None?
    ensures r.out.Success? ==> r.out.value == stored.value.notebooks
  {
    match ReadDB(stored)
    case Failure(e) => Step(stored, Failure(e))
    case Success(d) => Step(stored, Success(d.notebooks))
  }

  /** `db.get.note(notebookId)`: the notes of that notebook, in stored order. */
  function GetNotes(stored: Option<Document>, notebookId: Id): (r: Step<seq<Note>>)
    ensures r.stored == stored
    ensures r.out.Failure? <==> stored.None? || FindNotebook(stored.value.notebooks, notebookId).None?
    ensures r.out.Success? ==>
      var i := FindNotebookIndex(stored.value.notebooks, notebookId);
      0 <= i && r.out.value == stored.value.notebooks[i].notes
  {
    match ReadDB(stored)
    case Failure(e) => Step(stored, Failure(e))
    case Success(d) =>
      match FindNotebook(d.notebooks, notebookId)
      case None => Step(stored, Failure(NotFound))
      case Some(nb) =>
        FindNotebookAgrees(d.notebooks, notebookId);
        Step(stored, Success(nb.notes))
  }

  /** `db.update.notebook(notebookId, name)`: rename the notebook. */
  function UpdateNotebook(stored: Option<Document>, notebookId: Id, name: string): (r: Step<Notebook>)
    ensures r.out.Failure? <==> stored.None? || FindNotebook(stored.value.notebooks, notebookId).None?
    ensures r.out.Failure? ==> r.stored == stored
    ensures r.out.Success? ==>
      var before := stored.value.notebooks;
      var i := FindNotebookIndex(before, notebookId);
      var nb := r.out.value;
      && 0 <= i
      && nb.id == before[i].id == notebookId
      && nb.name == name
      && nb.notes == before[i].notes
      && r.stored == Some(Document(before[i := nb]))
  {
    match ReadDB(stored)
    case Failure(e) => Step(stored, Failure(e))
    case Success(d) =>
      var i := FindNotebookIndex(d.notebooks, notebookId);
      if i < 0 then Step(stored, Failure(NotFound))
      else
        var nb := d.notebooks[i].(name := name);
        Step(WriteDB(Document(d.notebooks[i := nb])), Success(nb))
  }

  /** `Object.assign(note, patch)`: the fields the payload has overwrite,
      every other field is kept. */
  function Merge(note: Note, patch: Patch): (r: Note)
    ensures r.id == note.id && r.notebookId == note.notebookId && r.postedOn == note.postedOn
    ensures r.title == (if patch.title.Some? then patch.title else note.title)
    ensures r.text == (if patch.text.Some? then patch.text else note.text)
  {
    note.(title := if patch.title.Some? then patch.title else note.title,
          text := if patch.text.Some? then patch.text else note.text)
  }

  /** `db.update.note(noteId, patch)`: merge the patch into the first note
      with that identifier, searching the notebooks in order. */
  function UpdateNote(stored: Option<Document>, noteId: Id, patch: Patch): (r: Step<Note>)
    ensures r.out.Failure? <==> stored.None? || FindNote(stored.value.notebooks, noteId).None?
    ensures r.out.Failure? ==> r.stored == stored
    ensures r.out.Success? ==>
      var before := stored.value.notebooks;
      var p := LocateNote(before, noteId).value;
      && FindNote(before, noteId) == Some(before[p.book].notes[p.slot])
      && r.out.value == Merge(before[p.book].notes[p.slot], patch)
      && r.stored == Some(Document(before[p.book := before[p.book].(notes := before[p.book].notes[p.slot := r.out.value])]))
  {
    match ReadDB(stored)
    case Failure(e) => Step(stored, Failure(e))
    case Success(d) =>
      FindNoteLocates(d.notebooks, noteId);
      match LocateNote(d.notebooks, noteId)
      case None => Step(stored, Failure(NotFound))
      case Some(p) =>
        var nb := d.notebooks[p.book];
        var merged := Merge(nb.notes[p.slot], patch);
        var nbs := d.notebooks[p.book := nb.(notes := nb.notes[p.slot := merged])];
        Step(WriteDB(Document(nbs)), Success(merged))
  }

  /** `db.delete.notebook(notebookId)`: `splice` at the found index. A
      missing identifier gives index -1, which removes the LAST notebook. */
  function DeleteNotebook(stored: Option<Document>, notebookId: Id): (r: Step<()>)
    ensures r.out.Failure? <==> stored.None?
    ensures r.out.Failure? ==> r.stored == stored
    ensures r.out.Success? ==>
      var before := stored.value.notebooks;
      var i := FindNotebookIndex(before, notebookId);
      && r.stored.Some?
      && var after := r.stored.value.notebooks;
      && (0 <= i ==> after == before[..i] + before[i + 1..])
      && (i == -1 ==> after == if |before| == 0 then [] else before[..|before| - 1])
  {
    match ReadDB(stored)
    case Failure(e) => Step(stored, Failure(e))
    case Success(d) =>
      var i := FindNotebookIndex(d.notebooks, notebookId);
      Step(WriteDB(Document(SpliceOne(d.notebooks, i))), Success(()))
  }

  /** `rest` is `notes` without its first note with identifier `id`, or
      without its last note when none has it (an empty list stays empty). */
  predicate RemovesFirstMatch(notes: seq<Note>, id: Id, rest: seq<Note>) {
    var j := FindNoteIndex(notes, id);
    && (0 <= j ==> rest == notes[..j] + notes[j + 1..])
    && (j == -1 ==> rest == if |notes| == 0 then [] else notes[..|notes| - 1])
  }

  /** `db.delete.note(notebookId, noteId)`: `splice` the note out of the
      notebook and return the notebook's remaining notes. A missing note
      identifier gives index -1, which removes the LAST note. */
  function DeleteNote(stored: Option<Document>, notebookId: Id, noteId: Id): (r: Step<seq<Note>>)
    ensures r.out.Failure? <==> stored.None? || FindNotebook(stored.value.notebooks, notebookId).None?
    ensures r.out.Failure? ==> r.stored == stored
    ensures r.out.Success? ==>
      var before := stored.value.notebooks;
      var i := FindNotebookIndex(before, notebookId);
      && 0 <= i
      && RemovesFirstMatch(before[i].notes, noteId, r.out.value)
      && r.stored == Some(Document(before[i := before[i].(notes := r.out.value)]))
  {
    match ReadDB(stored)
    case Failure(e) => Step(stored, Failure(e))
    case Success(d) =>
      var i := FindNotebookIndex(d.notebooks, notebookId);
      if i < 0 then Step(stored, Failure(NotFound))
      else
        var nb := d.notebooks[i];
        var rest := SpliceOne(nb.notes, FindNoteIndex(nb.notes, noteId));
        Step(WriteDB(Document(d.notebooks[i := nb.(notes := rest)])), Success(rest))
  }
}
