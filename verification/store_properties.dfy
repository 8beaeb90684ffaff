/** Properties relating several store operations: creation order, read-back
    of what an operation returned, the cascade of a notebook delete, and the
    document invariants each operation keeps. */
module StoreProperties {
  import opened Wrappers
  import opened Notes
  import opened Utils
  import opened Store
  import opened ArrayOps

  /** Two notebook lists with the same identifiers position by position. */
  predicate SameIds(a: seq<Notebook>, b: seq<Notebook>) {
    |a| == |b| && forall k :: 0 <= k < |a| ==> a[k].id == b[k].id
  }

  /** Lookups by identifier only look at identifiers. */
  lemma {:induction false} LookupByIds(a: seq<Notebook>, b: seq<Notebook>, id: Id)
    requires SameIds(a, b)
    ensures FindNotebookIndex(a, id) == FindNotebookIndex(b, id)
    ensures FindNotebook(a, id).None? == FindNotebook(b, id).None?
  {
    if |a| > 0 && a[0].id != id {
      LookupByIds(a[1..], b[1..], id);
    }
  }

  // ---------------------------------------------------------------------
  // Ordering
  // ---------------------------------------------------------------------

  /** Notebooks created one after the other are listed oldest first, after
      every notebook that was there before. */
  lemma NotebookCreationOrder(stored: Option<Document>, name1: string, clock1: nat, name2: string, clock2: nat)
    requires stored.Some?
    ensures
      var r1 := PostNotebook(stored, name1, clock1);
      var r2 := PostNotebook(r1.stored, name2, clock2);
      && r1.out.Success? && r2.out.Success?
      && GetNotebooks(r2.stored).out == Success(stored.value.notebooks + [r1.out.value, r2.out.value])
  {
    var r1 := PostNotebook(stored, name1, clock1);
    var r2 := PostNotebook(r1.stored, name2, clock2);
    var before := stored.value.notebooks;
    var mid := r1.stored.value.notebooks;
    var after := r2.stored.value.notebooks;
    assert mid == before + [r1.out.value] by {
      assert mid == mid[..|before|] + [mid[|before|]];
    }
    assert after == mid + [r2.out.value] by {
      assert after == after[..|mid|] + [after[|mid|]];
    }
    assert after == before + [r1.out.value, r2.out.value];
  }

  /** Notes created one after the other in one notebook are listed newest
      first, ahead of the notes that were there before. */
  lemma NoteCreationOrder(stored: Option<Document>, notebookId: Id,
                          p1: Patch, idClock1: nat, now1: int,
                          p2: Patch, idClock2: nat, now2: int)
    requires stored.Some? && FindNotebook(stored.value.notebooks, notebookId).Some?
    ensures
      var r1 := PostNote(stored, notebookId, p1, idClock1, now1);
      var r2 := PostNote(r1.stored, notebookId, p2, idClock2, now2);
      && r1.out.Success? && r2.out.Success?
      && GetNotes(r2.stored, notebookId).out
         == Success([r2.out.value, r1.out.value] + GetNotes(stored, notebookId).out.value)
  {
    var r1 := PostNote(stored, notebookId, p1, idClock1, now1);
    PostNoteReadBack(stored, notebookId, p1, idClock1, now1);
    var listed1 := GetNotes(r1.stored, notebookId).out;
    assert listed1.Success?;
    var r2 := PostNote(r1.stored, notebookId, p2, idClock2, now2);
    assert r2.out.Success?;
    PostNoteReadBack(r1.stored, notebookId, p2, idClock2, now2);
    var earlier := GetNotes(stored, notebookId).out.value;
    assert listed1.value == [r1.out.value] + earlier;
    assert [r2.out.value] + ([r1.out.value] + earlier) == [r2.out.value, r1.out.value] + earlier;
  }

  // ---------------------------------------------------------------------
  // Reading back what an operation returned
  // ---------------------------------------------------------------------

  /** After a note is created, listing its notebook shows it first. */
  lemma PostNoteReadBack(stored: Option<Document>, notebookId: Id, payload: Patch, idClock: nat, now: int)
    ensures
      var r := PostNote(stored, notebookId, payload, idClock, now);
      r.out.Success? ==>
        GetNotes(r.stored, notebookId).out == Success([r.out.value] + GetNotes(stored, notebookId).out.value)
  {
    var r := PostNote(stored, notebookId, payload, idClock, now);
    if r.out.Success? {
      LookupByIds(stored.value.notebooks, r.stored.value.notebooks, notebookId);
    }
  }

  /** After a rename, looking the notebook up again gives the returned notebook. */
  lemma UpdateNotebookReadBack(stored: Option<Document>, notebookId: Id, name: string)
    ensures
      var r := UpdateNotebook(stored, notebookId, name);
      r.out.Success? ==> FindNotebook(r.stored.value.notebooks, notebookId) == Some(r.out.value)
  {
    var r := UpdateNotebook(stored, notebookId, name);
    if r.out.Success? {
      var before := stored.value.notebooks;
      var after := r.stored.value.notebooks;
      assert SameIds(before, after);
      LookupByIds(before, after, notebookId);
      FindNotebookAgrees(after, notebookId);
    }
  }

  /** Identifiers of the notes, notebook by notebook, are the same. */
  predicate SameNoteIds(a: seq<Notebook>, b: seq<Notebook>) {
    && |a| == |b|
    && forall k :: 0 <= k < |a| ==>
         |a[k].notes| == |b[k].notes|
         && forall j :: 0 <= j < |a[k].notes| ==> a[k].notes[j].id == b[k].notes[j].id
  }

  /** Locating a note only looks at note identifiers. */
  lemma {:induction false} LocateByIds(a: seq<Notebook>, b: seq<Notebook>, id: Id)
    requires SameNoteIds(a, b)
    ensures LocateNote(a, id) == LocateNote(b, id)
  {
    if |a| > 0 {
      NoteIndexByIds(a[0].notes, b[0].notes, id);
      LocateByIds(a[1..], b[1..], id);
    }
  }

  lemma {:induction false} NoteIndexByIds(a: seq<Note>, b: seq<Note>, id: Id)
    requires |a| == |b| && forall j :: 0 <= j < |a| ==> a[j].id == b[j].id
    ensures FindNoteIndex(a, id) == FindNoteIndex(b, id)
  {
    if |a| > 0 && a[0].id != id {
      NoteIndexByIds(a[1..], b[1..], id);
    }
  }

  /** After an edit, looking the note up again gives the returned note. */
  lemma UpdateNoteReadBack(stored: Option<Document>, noteId: Id, patch: Patch)
    ensures
      var r := UpdateNote(stored, noteId, patch);
      r.out.Success? ==> FindNote(r.stored.value.notebooks, noteId) == Some(r.out.value)
  {
    var r := UpdateNote(stored, noteId, patch);
    if r.out.Success? {
      var before := stored.value.notebooks;
      var after := r.stored.value.notebooks;
      assert SameNoteIds(before, after);
      LocateByIds(before, after, noteId);
      FindNoteLocates(after, noteId);
    }
  }

  /** After a note is deleted, listing its notebook gives exactly the notes
      the delete returned. */
  lemma DeleteNoteReadBack(stored: Option<Document>, notebookId: Id, noteId: Id)
    ensures
      var r := DeleteNote(stored, notebookId, noteId);
      r.out.Success? ==> GetNotes(r.stored, notebookId).out == r.out
  {
    var r := DeleteNote(stored, notebookId, noteId);
    if r.out.Success? {
      var before := stored.value.notebooks;
      var after := r.stored.value.notebooks;
      assert SameIds(before, after);
      LookupByIds(before, after, notebookId);
    }
  }

  /** An edit that supplies only a title sets the title and keeps the text,
      the creation time and the owning notebook. */
  lemma TitleOnlyEdit(stored: Option<Document>, noteId: Id, title: string)
    ensures
      var r := UpdateNote(stored, noteId, Patch(Some(title), None));
      r.out.Success? ==>
        var prior := FindNote(stored.value.notebooks, noteId).value;
        && r.out.value.title == Some(title)
        && r.out.value.text == prior.text
        && r.out.value.postedOn == prior.postedOn
        && r.out.value.notebookId == prior.notebookId
        && r.out.value.id == noteId
  {
  }

  // ---------------------------------------------------------------------
  // Cascade
  // ---------------------------------------------------------------------

  /** Deleting an existing notebook of a well-formed document takes all its
      notes with it, and listing its notes afterwards fails. */
  lemma DeleteNotebookCascades(stored: Option<Document>, notebookId: Id)
    requires stored.Some? && WellFormed(stored.value)
    requires FindNotebook(stored.value.notebooks, notebookId).Some?
    ensures
      var r := DeleteNotebook(stored, notebookId);
      && r.out.Success?
      && |r.stored.value.notebooks| == |stored.value.notebooks| - 1
      && GetNotes(r.stored, notebookId).out == Failure(NotFound)
      && forall k, j :: 0 <= k < |r.stored.value.notebooks| && 0 <= j < |r.stored.value.notebooks[k].notes| ==>
           r.stored.value.notebooks[k].notes[j].notebookId != notebookId
  {
    var r := DeleteNotebook(stored, notebookId);
    var before := stored.value.notebooks;
    var i := FindNotebookIndex(before, notebookId);
    var after := r.stored.value.notebooks;
    assert after == before[..i] + before[i + 1..];
    forall k | 0 <= k < |after|
      ensures after[k].id != notebookId
      ensures forall j :: 0 <= j < |after[k].notes| ==> after[k].notes[j].notebookId == after[k].id
    {
      var k0 := if k < i then k else k + 1;
      assert after[k] == before[k0];
      assert k0 != i;
    }
    assert FindNotebook(after, notebookId).None?;
  }

  // ---------------------------------------------------------------------
  // Invariants
  // ---------------------------------------------------------------------

  /** Creating a notebook keeps the document well-formed when the new
      identifier is not already a notebook's. */
  lemma PostNotebookKeepsWellFormed(stored: Option<Document>, name: string, clock: nat)
    requires stored.Some? && WellFormed(stored.value)
    requires forall k :: 0 <= k < |stored.value.notebooks| ==> stored.value.notebooks[k].id != GenerateId(clock)
    ensures WellFormed(PostNotebook(stored, name, clock).stored.value)
  {
    var before := stored.value.notebooks;
    var after := PostNotebook(stored, name, clock).stored.value.notebooks;
    assert forall k :: 0 <= k < |before| ==> after[k] == before[k];
  }

  /** Creating a notebook keeps the document well-formed when the clock has
      moved past every reading that made one of the stored identifiers. */
  lemma PostNotebookLaterKeepsWellFormed(stored: Option<Document>, name: string, clock: nat)
    requires stored.Some? && WellFormed(stored.value)
    requires GeneratedBefore(NotebookIds(stored.value.notebooks), clock)
    ensures WellFormed(PostNotebook(stored, name, clock).stored.value)
  {
    var ids := NotebookIds(stored.value.notebooks);
    GenerateIdFresh(ids, clock);
    assert forall k :: 0 <= k < |stored.value.notebooks| ==> stored.value.notebooks[k].id == ids[k];
    PostNotebookKeepsWellFormed(stored, name, clock);
  }

  /** Creating a note keeps the document well-formed when the new identifier
      is not already a note of that notebook. */
  lemma PostNoteKeepsWellFormed(stored: Option<Document>, notebookId: Id, payload: Patch, idClock: nat, now: int)
    requires stored.Some? && WellFormed(stored.value)
    requires forall k, j :: 0 <= k < |stored.value.notebooks| && 0 <= j < |stored.value.notebooks[k].notes| ==>
               stored.value.notebooks[k].notes[j].id != GenerateId(idClock)
    ensures WellFormed(PostNote(stored, notebookId, payload, idClock, now).stored.value)
  {
    var r := PostNote(stored, notebookId, payload, idClock, now);
    if r.out.Success? {
      var before := stored.value.notebooks;
      var i := FindNotebookIndex(before, notebookId);
      var nb := before[i];
      var notes := [r.out.value] + nb.notes;
      assert UniqueNoteIds(nb.notes);
      assert forall j :: 0 <= j < |nb.notes| ==> nb.notes[j].id != r.out.value.id;
      assert forall j :: 0 <= j < |nb.notes| ==> nb.notes[j].notebookId == nb.id;
      assert forall j :: 0 < j < |notes| ==> notes[j] == nb.notes[j - 1];
      ReplaceNotebookKeepsWellFormed(before, i, nb.(notes := notes));
    }
  }

  /** Renaming a notebook keeps the document well-formed. */
  lemma UpdateNotebookKeepsWellFormed(stored: Option<Document>, notebookId: Id, name: string)
    requires stored.Some? && WellFormed(stored.value)
    ensures WellFormed(UpdateNotebook(stored, notebookId, name).stored.value)
  {
    var r := UpdateNotebook(stored, notebookId, name);
    if r.out.Success? {
      var before := stored.value.notebooks;
      var i := FindNotebookIndex(before, notebookId);
      assert UniqueNoteIds(before[i].notes);
      assert forall j :: 0 <= j < |before[i].notes| ==> before[i].notes[j].notebookId == before[i].id;
      ReplaceNotebookKeepsWellFormed(before, i, r.out.value);
    }
  }

  /** Editing a note keeps the document well-formed. */
  lemma UpdateNoteKeepsWellFormed(stored: Option<Document>, noteId: Id, patch: Patch)
    requires stored.Some? && WellFormed(stored.value)
    ensures WellFormed(UpdateNote(stored, noteId, patch).stored.value)
  {
    var r := UpdateNote(stored, noteId, patch);
    if r.out.Success? {
      var before := stored.value.notebooks;
      var p := LocateNote(before, noteId).value;
      var nb := before[p.book];
      var notes := nb.notes[p.slot := r.out.value];
      assert UniqueNoteIds(nb.notes);
      assert forall j :: 0 <= j < |nb.notes| ==> nb.notes[j].notebookId == nb.id;
      assert forall j :: 0 <= j < |notes| ==> notes[j].id == nb.notes[j].id && notes[j].notebookId == nb.notes[j].notebookId;
      ReplaceNotebookKeepsWellFormed(before, p.book, nb.(notes := notes));
    }
  }

  /** Removing one element (`splice(i, 1)` in range, or dropping the last)
      keeps the notebooks well-formed. */
  lemma RemoveKeepsWellFormed(before: seq<Notebook>, after: seq<Notebook>, i: nat)
    requires WellFormed(Document(before))
    requires i < |before| && after == before[..i] + before[i + 1..]
    ensures WellFormed(Document(after))
  {
    assert forall k :: 0 <= k < |after| ==> after[k] == before[if k < i then k else k + 1];
  }

  /** Deleting a notebook keeps the document well-formed, whether or not the
      identifier exists. */
  lemma DeleteNotebookKeepsWellFormed(stored: Option<Document>, notebookId: Id)
    requires stored.Some? && WellFormed(stored.value)
    ensures WellFormed(DeleteNotebook(stored, notebookId).stored.value)
  {
    var before := stored.value.notebooks;
    var i := FindNotebookIndex(before, notebookId);
    SpliceKeepsWellFormed(before, i);
  }

  /** `splice(i, 1)` on well-formed notebooks, for any index `FindNotebookIndex`
      can return, keeps them well-formed. */
  lemma SpliceKeepsWellFormed(before: seq<Notebook>, i: int)
    requires WellFormed(Document(before)) && -1 <= i < |before|
    ensures WellFormed(Document(SpliceOne(before, i)))
  {
    var after := SpliceOne(before, i);
    if 0 <= i {
      RemoveKeepsWellFormed(before, after, i);
    } else if |before| > 0 {
      var cut := |before| - 1;
      assert after == before[..cut] + before[cut + 1..];
      RemoveKeepsWellFormed(before, after, cut);
    }
  }

  /** Removing one note keeps a notebook's notes owned by it and their
      identifiers unique. */
  lemma RemoveNoteKeepsNotebook(notes: seq<Note>, noteId: Id, rest: seq<Note>, owner: Id)
    requires UniqueNoteIds(notes)
    requires forall j :: 0 <= j < |notes| ==> notes[j].notebookId == owner
    requires RemovesFirstMatch(notes, noteId, rest)
    ensures UniqueNoteIds(rest)
    ensures forall j :: 0 <= j < |rest| ==> rest[j].notebookId == owner
  {
    if 0 < |notes| {
      var j := FindNoteIndex(notes, noteId);
      var cut := if 0 <= j then j else |notes| - 1;
      assert rest == notes[..cut] + notes[cut + 1..];
      assert forall m :: 0 <= m < |rest| ==> rest[m] == notes[if m < cut then m else m + 1];
    }
  }

  /** Replacing one notebook by one with the same identifier whose notes
      are owned by it and unique keeps the document well-formed. */
  lemma ReplaceNotebookKeepsWellFormed(before: seq<Notebook>, i: nat, nb: Notebook)
    requires WellFormed(Document(before))
    requires i < |before| && nb.id == before[i].id
    requires UniqueNoteIds(nb.notes)
    requires forall j :: 0 <= j < |nb.notes| ==> nb.notes[j].notebookId == nb.id
    ensures WellFormed(Document(before[i := nb]))
  {
  }

  /** Deleting a note keeps the document well-formed, whether or not the
      note identifier exists. */
  lemma DeleteNoteKeepsWellFormed(stored: Option<Document>, notebookId: Id, noteId: Id)
    requires stored.Some? && WellFormed(stored.value)
    ensures WellFormed(DeleteNote(stored, notebookId, noteId).stored.value)
  {
    var r := DeleteNote(stored, notebookId, noteId);
    if r.out.Success? {
      var before := stored.value.notebooks;
      var i := FindNotebookIndex(before, notebookId);
      var nb := before[i];
      assert UniqueNoteIds(nb.notes);
      assert forall j :: 0 <= j < |nb.notes| ==> nb.notes[j].notebookId == nb.id;
      RemoveNoteKeepsNotebook(nb.notes, noteId, r.out.value, nb.id);
      ReplaceNotebookKeepsWellFormed(before, i, nb.(notes := r.out.value));
    }
  }
}
