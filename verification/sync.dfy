/** The view stays in step with the store: each store operation followed by
    its `client.*` counterpart keeps the sidebar showing the stored notebooks
    and the panel showing the stored notes of the open notebook. */
module Sync {
  import opened Wrappers
  import opened Notes
  import opened Utils
  import Store
  import StoreProperties
  import opened View

  /** The sidebar lists exactly the notebooks, in order. */
  predicate SidebarShows(v: View, nbs: seq<Notebook>) {
    v.sidebar == NavItems(nbs)
  }

  /** The panel shows exactly these notes, or the placeholder when there are none. */
  predicate PanelShows(v: View, notes: seq<Note>) {
    v.panel == if |notes| == 0 then Placeholder else Cards(notes)
  }

  /** Looking an item up in the sidebar finds the position the store finds. */
  lemma {:induction false} NavIndexMatches(nbs: seq<Notebook>, id: Id)
    ensures NavIndex(NavItems(nbs), id) == FindNotebookIndex(nbs, id)
  {
    if |nbs| > 0 {
      assert NavItems(nbs)[1..] == NavItems(nbs[1..]);
      NavIndexMatches(nbs[1..], id);
    }
  }

  /** Loading the notebooks into an empty sidebar shows them all, the first
      one active. */
  lemma StartupSyncs(stored: Option<Document>, v: View)
    requires v.sidebar == []
    ensures
      var r := Store.GetNotebooks(stored);
      r.out.Success? ==>
        var v' := ReadNotebooks(v, r.out.value);
        && SidebarShows(v', stored.value.notebooks)
        && (|stored.value.notebooks| != 0 ==> v'.active == Some(stored.value.notebooks[0].id))
  {
  }

  /** Creating a notebook in both store and view keeps the sidebar in step;
      the new notebook is active and its (empty) notes are shown. */
  lemma CreateNotebookSyncs(stored: Option<Document>, v: View, name: string, clock: nat)
    requires stored.Some? && SidebarShows(v, stored.value.notebooks)
    ensures
      var r := Store.PostNotebook(stored, name, clock);
      && r.out.Success?
      && var v' := CreateNotebook(v, r.out.value);
      && SidebarShows(v', r.stored.value.notebooks)
      && v'.active == Some(GenerateId(clock))
      && PanelShows(v', r.out.value.notes)
      && v'.createEnabled
  {
    var r := Store.PostNotebook(stored, name, clock);
    var v' := CreateNotebook(v, r.out.value);
    var after := r.stored.value.notebooks;
    assert v'.sidebar == v.sidebar + [NavOf(r.out.value)];
    assert after == stored.value.notebooks + [r.out.value] by {
      assert after == after[..|stored.value.notebooks|] + [after[|stored.value.notebooks|]];
    }
  }

  /** Renaming in the list is renaming in the sidebar. */
  lemma NavItemsUpdate(nbs: seq<Notebook>, i: nat, nb: Notebook)
    requires i < |nbs|
    ensures NavItems(nbs[i := nb]) == NavItems(nbs)[i := NavOf(nb)]
  {
  }

  /** Removing from the list is removing from the sidebar. */
  lemma NavItemsRemove(nbs: seq<Notebook>, i: nat)
    requires i < |nbs|
    ensures NavItems(nbs[..i] + nbs[i + 1..]) == NavItems(nbs)[..i] + NavItems(nbs)[i + 1..]
  {
    var a := NavItems(nbs[..i] + nbs[i + 1..]);
    var b := NavItems(nbs)[..i] + NavItems(nbs)[i + 1..];
    assert |a| == |b|;
    forall k | 0 <= k < |a|
      ensures a[k] == b[k]
    {
      if k < i {
        assert (nbs[..i] + nbs[i + 1..])[k] == nbs[k];
      } else {
        assert (nbs[..i] + nbs[i + 1..])[k] == nbs[k + 1];
      }
    }
  }

  /** Renaming a notebook in both store and view keeps the sidebar in step
      and shows the new name. */
  lemma RenameNotebookSyncs(stored: Option<Document>, v: View, notebookId: Id, name: string)
    requires stored.Some? && SidebarShows(v, stored.value.notebooks)
    requires FindNotebook(stored.value.notebooks, notebookId).Some?
    ensures
      var r := Store.UpdateNotebook(stored, notebookId, name);
      && r.out.Success?
      && var o := UpdateNotebook(v, notebookId, r.out.value);
      && o.Done?
      && SidebarShows(o.view, r.stored.value.notebooks)
      && o.view.title == name
      && o.view.active == Some(notebookId)
  {
    var r := Store.UpdateNotebook(stored, notebookId, name);
    var before := stored.value.notebooks;
    var after := r.stored.value.notebooks;
    var i := FindNotebookIndex(before, notebookId);
    NavIndexMatches(before, notebookId);
    assert v.sidebar[i].id == notebookId;
    assert after == before[i := r.out.value];
    NavItemsUpdate(before, i, r.out.value);
    var o := UpdateNotebook(v, notebookId, r.out.value);
    assert o.view.sidebar == v.sidebar[i := NavOf(r.out.value)];
  }

  /** Deleting an existing notebook in both store and view keeps the sidebar
      in step. If notebooks remain, the one now at the deleted position (the
      next one), or else the new last one (the previous one), is selected and
      shows `siblingNotes`; otherwise the title is cleared and note creation
      is disabled. */
  lemma DeleteNotebookSyncs(stored: Option<Document>, v: View, notebookId: Id, siblingNotes: seq<Note>)
    requires stored.Some? && SidebarShows(v, stored.value.notebooks)
    requires FindNotebook(stored.value.notebooks, notebookId).Some?
    ensures
      var r := Store.DeleteNotebook(stored, notebookId);
      var i := FindNotebookIndex(stored.value.notebooks, notebookId);
      && r.out.Success?
      && var after := r.stored.value.notebooks;
      && var o := DeleteNotebook(v, notebookId, siblingNotes);
      && o.Done?
      && SidebarShows(o.view, after)
      && (|after| == 0 ==> o.view.title == "" && !o.view.createEnabled)
      && (|after| != 0 ==>
            var shown := if i < |after| then after[i] else after[|after| - 1];
            && o.view.active == Some(shown.id)
            && o.view.title == shown.name
            && PanelShows(o.view, siblingNotes))
  {
    var before := stored.value.notebooks;
    var i := FindNotebookIndex(before, notebookId);
    NavIndexMatches(before, notebookId);
    assert v.sidebar[i].id == notebookId;
    var r := Store.DeleteNotebook(stored, notebookId);
    var after := r.stored.value.notebooks;
    assert after == before[..i] + before[i + 1..];
    NavItemsRemove(before, i);
    var o := DeleteNotebook(v, notebookId, siblingNotes);
    assert o.Done?;
    assert o.view.sidebar == NavItems(after);
    if |after| != 0 {
      SiblingAfterRemove(before, i);
      var shown := if i < |after| then after[i] else after[|after| - 1];
      var next := if i + 1 < |v.sidebar| then v.sidebar[i + 1] else v.sidebar[i - 1];
      assert next == NavOf(shown);
    }
  }

  /** After removing position `i`, the next item now sits at `i`, or, when the
      last one went, the previous item is the new last one. */
  lemma SiblingAfterRemove(nbs: seq<Notebook>, i: nat)
    requires i < |nbs| && 1 < |nbs|
    ensures
      var after := nbs[..i] + nbs[i + 1..];
      && (i < |after| ==> after[i] == nbs[i + 1])
      && (|after| <= i ==> after[|after| - 1] == nbs[i - 1])
  {
  }

  /** Creating a note while its notebook is open keeps the panel in step:
      the new note's card comes first. */
  lemma CreateNoteSyncs(stored: Option<Document>, v: View, notebookId: Id, payload: Patch, idClock: nat, now: int)
    requires Store.GetNotes(stored, notebookId).out.Success?
    requires PanelShows(v, Store.GetNotes(stored, notebookId).out.value)
    ensures
      var r := Store.PostNote(stored, notebookId, payload, idClock, now);
      && r.out.Success?
      && var listed := Store.GetNotes(r.stored, notebookId).out;
      && listed.Success?
      && PanelShows(CreateNote(v, r.out.value), listed.value)
  {
    var r := Store.PostNote(stored, notebookId, payload, idClock, now);
    StoreProperties.PostNoteReadBack(stored, notebookId, payload, idClock, now);
    var v' := CreateNote(v, r.out.value);
    assert v'.panel.cards == [r.out.value] + CardsShown(v.panel);
  }

  /** Opening a notebook shows exactly its stored notes. */
  lemma ReadNotesSyncs(stored: Option<Document>, v: View, notebookId: Id)
    ensures
      var r := Store.GetNotes(stored, notebookId);
      r.out.Success? ==> PanelShows(ReadNotes(v, r.out.value), r.out.value)
  {
  }

  /** When the note is in the open notebook and in none before it, its
      position is found in that notebook. */
  lemma LocateInOwnNotebook(nbs: seq<Notebook>, i: nat, noteId: Id)
    requires i < |nbs| && 0 <= FindNoteIndex(nbs[i].notes, noteId)
    requires forall k, j :: 0 <= k < i && 0 <= j < |nbs[k].notes| ==> nbs[k].notes[j].id != noteId
    ensures LocateNote(nbs, noteId) == Some(NotePos(i, FindNoteIndex(nbs[i].notes, noteId)))
  {
    var jn := FindNoteIndex(nbs[i].notes, noteId);
    assert nbs[i].notes[jn].id == noteId;
    var p := LocateNote(nbs, noteId).value;
    assert IsFirstNote(nbs, noteId, p);
    assert nbs[p.book].notes[p.slot].id == noteId;
    assert i <= p.book;
    assert p.book == i;
  }

  /** Editing a note of the open notebook (a note no other notebook shares
      the identifier of) changes that notebook's listing in place. */
  lemma EditInOpenNotebook(stored: Option<Document>, notebookId: Id, noteId: Id, patch: Patch)
    requires Store.GetNotes(stored, notebookId).out.Success?
    requires 0 <= FindNoteIndex(Store.GetNotes(stored, notebookId).out.value, noteId)
    requires forall k, j :: 0 <= k < |stored.value.notebooks| && 0 <= j < |stored.value.notebooks[k].notes| ==>
               (stored.value.notebooks[k].id != notebookId ==> stored.value.notebooks[k].notes[j].id != noteId)
    ensures
      var notes := Store.GetNotes(stored, notebookId).out.value;
      var r := Store.UpdateNote(stored, noteId, patch);
      && r.out.Success?
      && Store.GetNotes(r.stored, notebookId).out == Success(notes[FindNoteIndex(notes, noteId) := r.out.value])
  {
    var before := stored.value.notebooks;
    var i := FindNotebookIndex(before, notebookId);
    var notes := before[i].notes;
    var jn := FindNoteIndex(notes, noteId);
    assert LocateNote(before, noteId) == Some(NotePos(i, jn)) by {
      assert forall k :: 0 <= k < i ==> before[k].id != notebookId;
      LocateInOwnNotebook(before, i, noteId);
    }
    FindNoteLocates(before, noteId);
    var r := Store.UpdateNote(stored, noteId, patch);
    var after := r.stored.value.notebooks;
    assert after == before[i := before[i].(notes := notes[jn := r.out.value])];
    assert StoreProperties.SameIds(before, after);
    StoreProperties.LookupByIds(before, after, notebookId);
  }

  /** Editing a note of the open notebook (a note no other notebook shares
      the identifier of) keeps the panel in step: the card is replaced in place. */
  lemma UpdateNoteSyncs(stored: Option<Document>, v: View, notebookId: Id, noteId: Id, patch: Patch)
    requires Store.GetNotes(stored, notebookId).out.Success?
    requires PanelShows(v, Store.GetNotes(stored, notebookId).out.value)
    requires 0 <= FindNoteIndex(Store.GetNotes(stored, notebookId).out.value, noteId)
    requires forall k, j :: 0 <= k < |stored.value.notebooks| && 0 <= j < |stored.value.notebooks[k].notes| ==>
               (stored.value.notebooks[k].id != notebookId ==> stored.value.notebooks[k].notes[j].id != noteId)
    ensures
      var r := Store.UpdateNote(stored, noteId, patch);
      && r.out.Success?
      && var o := UpdateNote(v, noteId, r.out.value);
      && o.Done?
      && var listed := Store.GetNotes(r.stored, notebookId).out;
      && listed.Success?
      && PanelShows(o.view, listed.value)
  {
    var notes := Store.GetNotes(stored, notebookId).out.value;
    var jn := FindNoteIndex(notes, noteId);
    EditInOpenNotebook(stored, notebookId, noteId, patch);
    var r := Store.UpdateNote(stored, noteId, patch);
    assert CardsShown(v.panel) == notes;
    var o := UpdateNote(v, noteId, r.out.value);
    assert o.Done? by {
      assert CardsShown(v.panel)[jn].id == noteId;
    }
    assert o.view.panel == Cards(notes[jn := r.out.value]);
  }

  /** Deleting a note that is in the open notebook keeps the panel in step:
      the card goes, and the placeholder appears once none remain. */
  lemma DeleteNoteSyncs(stored: Option<Document>, v: View, notebookId: Id, noteId: Id)
    requires Store.GetNotes(stored, notebookId).out.Success?
    requires PanelShows(v, Store.GetNotes(stored, notebookId).out.value)
    requires 0 <= FindNoteIndex(Store.GetNotes(stored, notebookId).out.value, noteId)
    ensures
      var r := Store.DeleteNote(stored, notebookId, noteId);
      && r.out.Success?
      && |r.out.value| == |Store.GetNotes(stored, notebookId).out.value| - 1
      && var o := DeleteNote(v, noteId, |r.out.value|);
      && o.Done?
      && PanelShows(o.view, r.out.value)
      && Store.GetNotes(r.stored, notebookId).out == Success(r.out.value)
  {
    var r := Store.DeleteNote(stored, notebookId, noteId);
    StoreProperties.DeleteNoteReadBack(stored, notebookId, noteId);
    var notes := Store.GetNotes(stored, notebookId).out.value;
    assert CardsShown(v.panel) == notes;
  }
}
