/** The view synchroniser: the rendered page reduced to what the store's
    results change, and one pure transition per `client.*` method. */
module View {
  import opened Wrappers
  import opened Notes
  import opened Utils

  /** A sidebar navigation item, carrying its notebook's id and name. */
  datatype NavItem = NavItem(id: Id, name: string)

  /** The note panel: the "No notes" placeholder, or cards (one per note, in
      panel order; no cards at all is the cleared panel). */
  datatype Panel = Placeholder | Cards(cards: seq<Note>)

  /** The sidebar items, the identifier of the item marked active, the panel
      title, the panel, and whether the "create note" buttons are enabled. */
  datatype View = View(
    sidebar: seq<NavItem>,
    active: Option<Id>,
    title: string,
    panel: Panel,
    createEnabled: bool)

  /** A transition either completes or throws part-way; in both cases the
      page keeps the edits made before the throw. */
  datatype Outcome = Done(view: View) | Threw(view: View)

  function NavOf(nb: Notebook): NavItem {
    NavItem(nb.id, nb.name)
  }

  /** The cards the panel shows (none for the placeholder). */
  function CardsShown(p: Panel): seq<Note> {
    match p
    case Placeholder => []
    case Cards(cs) => cs
  }

  /** `activeNotebook`: unmark the last active item, mark `id`. */
  function ActiveNotebook(v: View, id: Id): (r: View)
    ensures r.active == Some(id)
    ensures r.sidebar == v.sidebar && r.title == v.title && r.panel == v.panel
    ensures r.createEnabled == v.createEnabled
  {
    v.(active := Some(id))
  }

  /** `document.querySelector('[data-notebook="id"]')` within the sidebar:
      the first item with that id, or -1. */
  function NavIndex(sidebar: seq<NavItem>, id: Id): (r: int)
    ensures -1 <= r < |sidebar|
    ensures r == -1 <==> forall k :: 0 <= k < |sidebar| ==> sidebar[k].id != id
    ensures 0 <= r ==> sidebar[r].id == id && forall k :: 0 <= k < r ==> sidebar[k].id != id
  {
    if |sidebar| == 0 then -1
    else if sidebar[0].id == id then 0
    else
      var r := NavIndex(sidebar[1..], id);
      if r == -1 then -1 else r + 1
  }

  /** `client.notebook.create(nb)`. */
  function CreateNotebook(v: View, nb: Notebook): (r: View)
    ensures |r.sidebar| == |v.sidebar| + 1
    ensures r.sidebar[..|v.sidebar|] == v.sidebar && r.sidebar[|v.sidebar|] == NavOf(nb)
    ensures r.active == Some(nb.id)
    ensures r.title == nb.name
    ensures r.panel == Placeholder
    ensures r.createEnabled
  {
    var appended := v.(sidebar := v.sidebar + [NavOf(nb)]);
    var marked := ActiveNotebook(appended, nb.id);
    marked.(title := nb.name, panel := Placeholder, createEnabled := true)
  }

  /** One navigation item per notebook, in list order. */
  function NavItems(list: seq<Notebook>): (r: seq<NavItem>)
    ensures |r| == |list|
    ensures forall k :: 0 <= k < |list| ==> r[k] == NavOf(list[k])
  {
    if |list| == 0 then [] else [NavOf(list[0])] + NavItems(list[1..])
  }

  /** `client.notebook.read(list)`: append an item per notebook; the first
      becomes active and names the panel. */
  function ReadNotebooks(v: View, list: seq<Notebook>): (r: View)
    ensures r.sidebar == v.sidebar + NavItems(list)
    ensures r.createEnabled <==> |list| != 0
    ensures |list| != 0 ==> r.active == Some(list[0].id) && r.title == list[0].name
    ensures |list| == 0 ==> r.active == v.active && r.title == v.title
    ensures r.panel == v.panel
  {
    var enabled := v.(createEnabled := |list| != 0);
    var first :=
      if |list| == 0 then enabled
      else ActiveNotebook(enabled, list[0].id).(title := list[0].name);
    first.(sidebar := v.sidebar + NavItems(list))
  }

  /** `client.notebook.update(notebookId, nb)`: the title is set first; the
      item is then replaced in place and marked active. A missing item makes
      `replaceChild` throw after the title was set. */
  function UpdateNotebook(v: View, notebookId: Id, nb: Notebook): (r: Outcome)
    ensures r.view.title == nb.name
    ensures r.Done? <==> exists k :: 0 <= k < |v.sidebar| && v.sidebar[k].id == notebookId
    ensures r.Threw? ==> r.view == v.(title := nb.name)
    ensures r.Done? ==>
      var i := NavIndex(v.sidebar, notebookId);
      && |r.view.sidebar| == |v.sidebar|
      && r.view.sidebar[i] == NavOf(nb)
      && (forall k :: 0 <= k < |v.sidebar| && k != i ==> r.view.sidebar[k] == v.sidebar[k])
      && r.view.active == Some(nb.id)
      && r.view.panel == v.panel && r.view.createEnabled == v.createEnabled
  {
    var titled := v.(title := nb.name);
    var i := NavIndex(v.sidebar, notebookId);
    if i < 0 then Threw(titled)
    else Done(ActiveNotebook(titled.(sidebar := v.sidebar[i := NavOf(nb)]), nb.id))
  }

  /** `client.note.read(list)`: the cards of the list in order, or the
      placeholder for an empty list. */
  function ReadNotes(v: View, list: seq<Note>): (r: View)
    ensures |list| != 0 ==> r.panel == Cards(list)
    ensures |list| == 0 ==> r.panel == Placeholder
    ensures r.sidebar == v.sidebar && r.active == v.active && r.title == v.title
    ensures r.createEnabled == v.createEnabled
  {
    if |list| != 0 then v.(panel := Cards(list)) else v.(panel := Placeholder)
  }

  /** Clicking a navigation item: mark it active, show its name as the title
      and render its notes (`notes` is what the store lists for it). */
  function Select(v: View, item: NavItem, notes: seq<Note>): (r: View)
    ensures r.active == Some(item.id) && r.title == item.name
    ensures r.sidebar == v.sidebar && r.createEnabled == v.createEnabled
    ensures r.panel == (if |notes| == 0 then Placeholder else Cards(notes))
  {
    ReadNotes(ActiveNotebook(v, item.id).(title := item.name), notes)
  }

  /** The item `client.notebook.delete` selects after deleting the item at
      `i`: the next one, else the previous one, else none. */
  function Sibling(sidebar: seq<NavItem>, i: nat): (r: Option<NavItem>)
    requires i < |sidebar|
    ensures r.None? <==> |sidebar| == 1
    ensures i + 1 < |sidebar| ==> r == Some(sidebar[i + 1])
    ensures i + 1 == |sidebar| && 0 < i ==> r == Some(sidebar[i - 1])
  {
    if i + 1 < |sidebar| then Some(sidebar[i + 1])
    else if 0 < i then Some(sidebar[i - 1])
    else None
  }

  /** `client.notebook.delete(notebookId)`: select the sibling (its notes are
      `siblingNotes`) or, without one, clear the title and panel and disable
      note creation; then remove the item. A missing item throws before any
      change. */
  function DeleteNotebook(v: View, notebookId: Id, siblingNotes: seq<Note>): (r: Outcome)
    ensures r.Done? <==> exists k :: 0 <= k < |v.sidebar| && v.sidebar[k].id == notebookId
    ensures r.Threw? ==> r.view == v
    ensures r.Done? ==>
      var i := NavIndex(v.sidebar, notebookId);
      && r.view.sidebar == v.sidebar[..i] + v.sidebar[i + 1..]
      && (|v.sidebar| == 1 ==>
            r.view.title == "" && r.view.panel == Cards([]) && !r.view.createEnabled
            && r.view.active == v.active)
      && (1 < |v.sidebar| ==>
            var next := if i + 1 < |v.sidebar| then v.sidebar[i + 1] else v.sidebar[i - 1];
            && r.view.active == Some(next.id) && r.view.title == next.name
            && r.view.panel == (if |siblingNotes| == 0 then Placeholder else Cards(siblingNotes))
            && r.view.createEnabled == v.createEnabled)
  {
    var i := NavIndex(v.sidebar, notebookId);
    if i < 0 then Threw(v)
    else
      var shown :=
        match Sibling(v.sidebar, i)
        case Some(item) => Select(v, item, siblingNotes)
        case None => v.(title := "", panel := Cards([]), createEnabled := false);
      Done(shown.(sidebar := v.sidebar[..i] + v.sidebar[i + 1..]))
  }

  /** `client.note.create(note)`: clear the panel when it holds no card,
      then put the new card first. */
  function CreateNote(v: View, note: Note): (r: View)
    ensures r.panel.Cards? && |r.panel.cards| == |CardsShown(v.panel)| + 1
    ensures r.panel.cards[0] == note && r.panel.cards[1..] == CardsShown(v.panel)
    ensures r.sidebar == v.sidebar && r.active == v.active && r.title == v.title
    ensures r.createEnabled == v.createEnabled
  {
    var cleared := if |CardsShown(v.panel)| == 0 then v.(panel := Cards([])) else v;
    cleared.(panel := Cards([note] + CardsShown(cleared.panel)))
  }

  /** `client.note.update(noteId, note)`: replace the first card of that
      note in place; with no such card `replaceChild` throws. */
  function UpdateNote(v: View, noteId: Id, note: Note): (r: Outcome)
    ensures r.Done? <==> exists j :: 0 <= j < |CardsShown(v.panel)| && CardsShown(v.panel)[j].id == noteId
    ensures r.Threw? ==> r.view == v
    ensures r.Done? ==>
      var cs := CardsShown(v.panel);
      var j := FindNoteIndex(cs, noteId);
      && r.view.panel.Cards?
      && |r.view.panel.cards| == |cs|
      && r.view.panel.cards[j] == note
      && (forall m :: 0 <= m < |cs| && m != j ==> r.view.panel.cards[m] == cs[m])
      && r.view.sidebar == v.sidebar && r.view.active == v.active && r.view.title == v.title
      && r.view.createEnabled == v.createEnabled
  {
    var cs := CardsShown(v.panel);
    var j := FindNoteIndex(cs, noteId);
    if j < 0 then Threw(v) else Done(v.(panel := Cards(cs[j := note])))
  }

  /** `client.note.delete(noteId, remaining)`: remove the first card of that
      note; when `remaining` (the count the store returned) is 0 show the
      placeholder. With no such card `remove` throws. */
  function DeleteNote(v: View, noteId: Id, remaining: nat): (r: Outcome)
    ensures r.Done? <==> exists j :: 0 <= j < |CardsShown(v.panel)| && CardsShown(v.panel)[j].id == noteId
    ensures r.Threw? ==> r.view == v
    ensures r.Done? ==>
      var cs := CardsShown(v.panel);
      var j := FindNoteIndex(cs, noteId);
      && (remaining == 0 ==> r.view.panel == Placeholder)
      && (remaining != 0 ==> r.view.panel == Cards(cs[..j] + cs[j + 1..]))
      && r.view.sidebar == v.sidebar && r.view.active == v.active && r.view.title == v.title
      && r.view.createEnabled == v.createEnabled
  {
    var cs := CardsShown(v.panel);
    var j := FindNoteIndex(cs, noteId);
    if j < 0 then Threw(v)
    else
      var removed := v.(panel := Cards(cs[..j] + cs[j + 1..]));
      if remaining == 0 then Done(removed.(panel := Placeholder)) else Done(removed)
  }
}
