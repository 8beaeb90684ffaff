/** The end-to-end walk-through: a fresh start, one notebook "Work", two
    notes created and then deleted, with the view following every step. */
module Scenario {
  import opened Wrappers
  import opened Notes
  import opened Utils
  import opened Store
  import StoreProperties
  import View

  /** Store side: notes list newest first, and each delete returns what is left. */
  lemma WorkNotebookStore(t1: nat, t2: nat, t3: nat)
    requires t2 != t3
    ensures
      var boot := InitDB(None);
      var s1 := PostNotebook(boot.stored, "Work", t1);
      && s1.out.Success?
      && |s1.stored.value.notebooks| == 1
      && s1.stored.value.notebooks[0].notes == []
      && var id := s1.out.value.id;
      && var s2 := PostNote(s1.stored, id, Patch(Some("A"), Some("..")), t2, t2);
      && s2.out.Success?
      && GetNotes(s2.stored, id).out == Success([s2.out.value])
      && var s3 := PostNote(s2.stored, id, Patch(Some("B"), None), t3, t3);
      && s3.out.Success?
      && GetNotes(s3.stored, id).out == Success([s3.out.value, s2.out.value])
      && var s4 := DeleteNote(s3.stored, id, s2.out.value.id);
      && s4.out == Success([s3.out.value])
      && var s5 := DeleteNote(s4.stored, id, s3.out.value.id);
      && s5.out == Success([])
  {
    var boot := InitDB(None);
    var s1 := PostNotebook(boot.stored, "Work", t1);
    var id := s1.out.value.id;
    assert s1.stored.value.notebooks == [s1.out.value];
    var s2 := PostNote(s1.stored, id, Patch(Some("A"), Some("..")), t2, t2);
    StoreProperties.PostNoteReadBack(s1.stored, id, Patch(Some("A"), Some("..")), t2, t2);
    var s3 := PostNote(s2.stored, id, Patch(Some("B"), None), t3, t3);
    StoreProperties.PostNoteReadBack(s2.stored, id, Patch(Some("B"), None), t3, t3);
    var a := s2.out.value;
    var b := s3.out.value;
    GenerateIdDistinct(t2, t3);
    assert s3.stored.value.notebooks[0].notes == [b, a];
    assert FindNoteIndex([b, a], a.id) == 1;
    var s4 := DeleteNote(s3.stored, id, a.id);
    assert s4.out.value == [b];
    assert FindNoteIndex([b], b.id) == 0;
  }

  /** View side: the panel goes placeholder, one card, two cards (newest
      first), one card, and back to the placeholder. */
  lemma WorkNotebookView(v0: View.View, nb: Notebook, a: Note, b: Note)
    requires a.id != b.id
    ensures
      var v1 := View.CreateNotebook(v0, nb);
      var v2 := View.CreateNote(v1, a);
      var v3 := View.CreateNote(v2, b);
      var o4 := View.DeleteNote(v3, a.id, 1);
      var o5 := View.DeleteNote(o4.view, b.id, 0);
      && v1.panel == View.Placeholder
      && v2.panel == View.Cards([a])
      && v3.panel == View.Cards([b, a])
      && o4.Done? && o4.view.panel == View.Cards([b])
      && o5.Done? && o5.view.panel == View.Placeholder
  {
    var v3 := View.CreateNote(View.CreateNote(View.CreateNotebook(v0, nb), a), b);
    assert FindNoteIndex([b, a], a.id) == 1;
    assert [b, a][..1] + [b, a][2..] == [b];
    assert FindNoteIndex([b], b.id) == 0;
  }
}
