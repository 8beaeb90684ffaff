/** The persisted document of the note keeper: notebooks holding notes. */
module Notes {
  import opened Wrappers

  /** Identifiers are strings (the decimal text of a creation timestamp). */
  type Id = string

  /** A note; `title` and `text` are absent (`undefined`) when the payload
      that created the note did not supply them. */
  datatype Note = Note(
    id: Id,
    notebookId: Id,
    title: Option<string>,
    text: Option<string>,
    postedOn: int)

  datatype Notebook = Notebook(id: Id, name: string, notes: seq<Note>)

  /** The whole stored document, `{notebooks: [...]}`. */
  datatype Document = Document(notebooks: seq<Notebook>)

  /** The fields a create or edit form supplies; a `None` field is one the
      payload object does not have. */
  datatype Patch = Patch(title: Option<string>, text: Option<string>)

  const EmptyDocument := Document([])

  /** Every note sits in the notebook its `notebookId` names. */
  predicate Contained(d: Document) {
    forall k, j :: 0 <= k < |d.notebooks| && 0 <= j < |d.notebooks[k].notes| ==>
      d.notebooks[k].notes[j].notebookId == d.notebooks[k].id
  }

  /** The identifiers of the notebooks, in order. */
  function NotebookIds(nbs: seq<Notebook>): (ids: seq<Id>)
    ensures |ids| == |nbs|
    ensures forall k :: 0 <= k < |nbs| ==> ids[k] == nbs[k].id
  {
    if |nbs| == 0 then [] else [nbs[0].id] + NotebookIds(nbs[1..])
  }

  predicate UniqueNotebookIds(nbs: seq<Notebook>) {
    forall i, j :: 0 <= i < j < |nbs| ==> nbs[i].id != nbs[j].id
  }

  predicate UniqueNoteIds(notes: seq<Note>) {
    forall i, j :: 0 <= i < j < |notes| ==> notes[i].id != notes[j].id
  }

  /** The document invariants: containment and identifiers unique in their scope. */
  predicate WellFormed(d: Document) {
    && Contained(d)
    && UniqueNotebookIds(d.notebooks)
    && forall k :: 0 <= k < |d.notebooks| ==> UniqueNoteIds(d.notebooks[k].notes)
  }
}
